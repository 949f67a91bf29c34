/**
  The time wheel (src/timewheel.cc) over values: slot lists of items with round counters, the scan
  of one slot with its restarts, and the plain list of deadlines that the wheel stands for.
  A callback is the number of its timer, and firing appends that number to a trace.
 */
module TimeWheelSpec {
  import opened Arithmetic
  import opened Common

  datatype Item = Item(id: nat, remaining: int, interval: nat, registered: nat, count: int)

  datatype Wheel = Wheel(lists: seq<seq<Item>>, granularity: nat, last: nat, cur: nat)

  ghost predicate Ok(w: Wheel) {
    w.granularity > 0 && w.cur < |w.lists|
  }

  function AddTimer(w: Wheel, id: nat, timeout: nat, times: int, now: nat): (r: Wheel)
    requires Ok(w)
    ensures Ok(r) && |r.lists| == |w.lists|
  {
    var slots := |w.lists|;
    var slot := (w.cur + timeout / w.granularity) % slots;
    var item := Item(id, timeout / w.granularity / slots, timeout, now, times);
    w.(lists := w.lists[slot := w.lists[slot] + [item]])
  }

  // ----- the scan of one slot -----

  function RoundsOf(interval: nat, granularity: nat, slots: nat): nat
    requires granularity > 0 && slots > 0
  {
    interval / granularity / slots
  }

  /** What one visit of the scan does to an item: it loses a round, or it fires and is erased, is
      re-armed in its place, or is spliced to the list of another slot. */
  datatype Outcome = Wait(it: Item) | Erase | Stay(it: Item) | Move(it: Item, slot: nat)

  function Visit(item: Item, cur: nat, g: nat, slots: nat): (r: Outcome)
    requires g > 0 && cur < slots
    ensures r.Wait? <==> item.remaining > 0
    ensures r.Wait? ==> r.it == item.(remaining := item.remaining - 1)
    ensures r.Move? ==> r.slot < slots && ((r.slot + 1) % slots == cur ==> r.it.remaining >= 1)
  {
    var it := item.(remaining := item.remaining - 1);
    if it.remaining >= 0 then Wait(it) else
    var count := if it.count > 0 then it.count - 1 else it.count;
    if count == 0 then Erase else
    var rounds := RoundsOf(it.interval, g, slots);
    var slot := (cur + rounds) % slots;
    var next := it.(count := count, remaining := rounds);
    if slot != cur then Move(next, slot) else Stay(next)
  }

  function Without(list: seq<Item>, k: nat): seq<Item>
    requires k < |list|
  {
    list[..k] + list[k + 1..]
  }

  /** Items that the running scan has moved to the end of its own list stand from `o` on; those not
      reached again yet have at least one round to go, the others none to lose. */
  ghost predicate TailOk(list: seq<Item>, k: nat, o: nat) {
    && k <= |list| && o <= |list|
    && forall j :: o <= j < |list| ==> list[j].remaining >= if j < k then 0 else 1
  }

  /** The loop over the list of slot `s`, at index `k`, after `current_slot` has moved on to `cur`.
      A fired item that gets a new slot is spliced there and the scan starts again. The scan always
      ends, for infinite repeat counts too: an item moved to the end of the same list has
      rounds to go, so it cannot fire a second time before the scan is over. */
  function Scan(lists: seq<seq<Item>>, s: nat, cur: nat, g: nat, k: nat, o: nat): (r: (seq<seq<Item>>, seq<nat>))
    requires s < |lists| && cur == (s + 1) % |lists| && g > 0
    requires TailOk(lists[s], k, o)
    ensures |r.0| == |lists|
    decreases o, |lists[s]| - k
  {
    var list := lists[s];
    if k == |list| then (lists, []) else
    var id := list[k].id;
    match Visit(list[k], cur, g, |lists|)
    case Wait(it) => Scan(lists[s := list[k := it]], s, cur, g, k + 1, o)
    case Stay(it) => Fired(id, Scan(lists[s := list[k := it]], s, cur, g, k + 1, o))
    case Erase => Fired(id, Scan(lists[s := Without(list, k)], s, cur, g, k, o - 1))
    case Move(it, slot) => Fired(id, Scan(Spliced(lists, s, k, it, slot), s, cur, g, 0, o - 1))
  }

  function Fired(id: nat, r: (seq<seq<Item>>, seq<nat>)): (seq<seq<Item>>, seq<nat>) {
    (r.0, [id] + r.1)
  }

  function Spliced(lists: seq<seq<Item>>, s: nat, k: nat, it: Item, slot: nat): (r: seq<seq<Item>>)
    requires s < |lists| && k < |lists[s]| && slot < |lists|
    ensures |r| == |lists|
  {
    var rest := lists[s := Without(lists[s], k)];
    rest[slot := rest[slot] + [it]]
  }

  /** One round of that loop: the new lists, the next index, the new `o`, and who fired. */
  function ScanNext(lists: seq<seq<Item>>, s: nat, cur: nat, g: nat, k: nat, o: nat): (seq<seq<Item>>, nat, nat,
      seq<nat>)
    requires s < |lists| && cur < |lists| && g > 0 && k < |lists[s]|
    requires o == 0 ==> lists[s][k].remaining > 0
  {
    var id := lists[s][k].id;
    match Visit(lists[s][k], cur, g, |lists|)
    case Wait(it) => (lists[s := lists[s][k := it]], k + 1, o, [])
    case Stay(it) => (lists[s := lists[s][k := it]], k + 1, o, [id])
    case Erase => (lists[s := Without(lists[s], k)], k, o - 1, [id])
    case Move(it, slot) => (Spliced(lists, s, k, it, slot), 0, o - 1, [id])
  }

  lemma ScanUnfolds(lists: seq<seq<Item>>, s: nat, cur: nat, g: nat, k: nat, o: nat)
    requires s < |lists| && cur == (s + 1) % |lists| && g > 0 && k < |lists[s]|
    requires TailOk(lists[s], k, o)
    ensures var n := ScanNext(lists, s, cur, g, k, o);
            && |n.0| == |lists| && TailOk(n.0[s], n.1, n.2)
            && (n.2 < o || (n.2 == o && |n.0[s]| - n.1 < |lists[s]| - k))
            && var r := Scan(n.0, s, cur, g, n.1, n.2); Scan(lists, s, cur, g, k, o) == (r.0, n.3 + r.1)
  {
    hide Visit;
    var n := ScanNext(lists, s, cur, g, k, o);
    assert n.3 == [] ==> n.3 + Scan(n.0, s, cur, g, n.1, n.2).1 == Scan(n.0, s, cur, g, n.1, n.2).1;
  }

  /** The counters of an item do not matter to what is left when it is taken out. */
  lemma TakeOutChanged(lists: seq<seq<Item>>, s: nat, k: nat, x: Item, it: Item, slot: nat)
    requires s < |lists| && k < |lists[s]| && slot < |lists|
    ensures var l := lists[s := lists[s][k := x]];
            && l[s := Without(l[s], k)] == lists[s := Without(lists[s], k)]
            && Spliced(l, s, k, it, slot) == Spliced(lists, s, k, it, slot)
  {
    assert Without(lists[s][k := x], k) == Without(lists[s], k);
    assert lists[s := lists[s][k := x]][s := Without(lists[s], k)] == lists[s := Without(lists[s], k)];
  }

  function Tick(w: Wheel): (r: (Wheel, seq<nat>))
    requires Ok(w)
    ensures Ok(r.0) && |r.0.lists| == |w.lists|
  {
    var cur := (w.cur + 1) % |w.lists|;
    var r := Scan(w.lists, w.cur, cur, w.granularity, 0, |w.lists[w.cur]|);
    (w.(lists := r.0, cur := cur), r.1)
  }

  /** `n` ticks; the trace has one entry per tick. */
  function Ticks(w: Wheel, n: nat): (r: (Wheel, seq<seq<nat>>))
    requires Ok(w)
    ensures Ok(r.0) && |r.0.lists| == |w.lists| && r.0.granularity == w.granularity && |r.1| == n
    decreases n
  {
    if n == 0 then (w, []) else
    var first := Tick(w);
    var r := Ticks(first.0, n - 1);
    (r.0, [first.1] + r.1)
  }

  function Execute(w: Wheel, now: nat): (r: (Wheel, seq<seq<nat>>))
    requires Ok(w)
    ensures Ok(r.0) && |r.0.lists| == |w.lists| && r.0.granularity == w.granularity
  {
    if now <= w.last then (w, []) else
    var r := Ticks(w, (now - w.last) / w.granularity);
    (r.0.(last := now), r.1)
  }

  // ----- the list of deadlines -----

  /** A timer that fires in the tick with number `deadline`, counted from the start of the wheel. */
  datatype Entry = Entry(id: nat, deadline: nat, interval: nat, registered: nat, count: int)

  /** All timers in the order of registration, and the number of ticks so far. */
  datatype Plain = Plain(entries: seq<Entry>, now: nat, granularity: nat, slots: nat, last: nat)

  /** One-shot timers, and repeating ones that are re-armed in the slot they fired in. */
  predicate Stays(interval: nat, count: int, g: nat, slots: nat)
    requires g > 0 && slots > 0
  {
    count == 0 || count == 1 || interval / g / slots % slots == 0
  }

  function PlainAdd(p: Plain, id: nat, timeout: nat, times: int, now: nat): Plain
    requires p.granularity > 0
  {
    p.(entries := p.entries + [Entry(id, p.now + timeout / p.granularity, timeout, now, times)])
  }

  function DueIds(entries: seq<Entry>, t: nat): seq<nat> {
    if entries == [] then [] else
    var rest := DueIds(entries[1..], t);
    if entries[0].deadline == t then [entries[0].id] + rest else rest
  }

  /** A timer after tick `t`; one that repeats is due again after a whole number of turns. */
  function EntryAfter(e: Entry, t: nat, g: nat, slots: nat): (r: Option<Entry>)
    requires g > 0 && slots > 0
    ensures r.Some? ==> r.value.id == e.id
    ensures if e.deadline != t then r == Some(e) else e.count == 0 || e.count == 1 ==> r == None
  {
    if e.deadline != t then Some(e) else
    var count := if e.count > 0 then e.count - 1 else e.count;
    if count == 0 then None
    else Some(e.(count := count, deadline := t + (e.interval / g / slots + 1) * slots))
  }

  function AfterTick(entries: seq<Entry>, t: nat, g: nat, slots: nat): seq<Entry>
    requires g > 0 && slots > 0
  {
    if entries == [] then [] else
    var rest := AfterTick(entries[1..], t, g, slots);
    match EntryAfter(entries[0], t, g, slots) case None => rest case Some(e) => [e] + rest
  }

  function PlainTick(p: Plain): (Plain, seq<nat>)
    requires p.granularity > 0 && p.slots > 0
  {
    (p.(entries := AfterTick(p.entries, p.now, p.granularity, p.slots), now := p.now + 1), DueIds(p.entries, p.now))
  }

  function PlainTicks(p: Plain, n: nat): (r: (Plain, seq<seq<nat>>))
    requires p.granularity > 0 && p.slots > 0
    ensures r.0.granularity == p.granularity && r.0.slots == p.slots
    decreases n
  {
    if n == 0 then (p, []) else
    var first := PlainTick(p);
    var r := PlainTicks(first.0, n - 1);
    (r.0, [first.1] + r.1)
  }

  function PlainExecute(p: Plain, now: nat): (Plain, seq<seq<nat>>)
    requires p.granularity > 0 && p.slots > 0
  {
    if now <= p.last then (p, []) else
    var r := PlainTicks(p, (now - p.last) / p.granularity);
    (r.0.(last := now), r.1)
  }

  // ----- the wheel stands for a list of deadlines -----

  /** A timer as the wheel keeps it after `t` ticks. */
  function ItemOf(e: Entry, t: nat, slots: nat): (it: Item)
    requires slots > 0
    ensures it.id == e.id
  {
    Item(e.id, (e.deadline - t) / slots, e.interval, e.registered, e.count)
  }

  function SlotOf(e: Entry, slots: nat): (s: nat)
    requires slots > 0
    ensures s < slots
  {
    e.deadline % slots
  }

  /** The ghost invariant of the wheel: where a timer is kept, and with how many rounds. */
  function ItemsOf(entries: seq<Entry>, s: nat, t: nat, slots: nat): seq<Item>
    requires slots > 0
  {
    if entries == [] then [] else
    var rest := ItemsOf(entries[1..], s, t, slots);
    if SlotOf(entries[0], slots) == s then [ItemOf(entries[0], t, slots)] + rest else rest
  }

  ghost predicate EntriesOk(entries: seq<Entry>, t: nat, g: nat, slots: nat)
    requires g > 0 && slots > 0
  {
    forall i :: 0 <= i < |entries| ==>
      entries[i].deadline >= t && Stays(entries[i].interval, entries[i].count, g, slots)
  }

  ghost predicate StandsFor(w: Wheel, p: Plain) {
    && Ok(w) && p.granularity == w.granularity && p.slots == |w.lists| && p.last == w.last
    && w.cur == p.now % p.slots
    && EntriesOk(p.entries, p.now, p.granularity, p.slots)
    && forall s :: 0 <= s < |w.lists| ==> w.lists[s] == ItemsOf(p.entries, s, p.now, p.slots)
  }

  // one slot without movers: the scan is a sweep

  function Sweep(list: seq<Item>, cur: nat, g: nat, slots: nat): seq<Item>
    requires g > 0 && cur < slots
  {
    if list == [] then [] else
    var rest := Sweep(list[1..], cur, g, slots);
    match Visit(list[0], cur, g, slots)
    case Wait(it) => [it] + rest
    case Stay(it) => [it] + rest
    case Erase => rest
    case Move(_, _) => rest
  }

  function SweepIds(list: seq<Item>): seq<nat> {
    if list == [] then [] else
    var rest := SweepIds(list[1..]);
    if list[0].remaining <= 0 then [list[0].id] + rest else rest
  }

  lemma StaysInSlot(item: Item, cur: nat, g: nat, slots: nat)
    requires g > 0 && cur < slots && Stays(item.interval, item.count, g, slots)
    ensures !Visit(item, cur, g, slots).Move?
  {
    var r := RoundsOf(item.interval, g, slots);
    assert r == item.interval / g / slots;
    hide RoundsOf;
    if r % slots == 0 { AddTurns(cur, r, slots); }
  }

  lemma {:induction false} ScanIsSweep(lists: seq<seq<Item>>, s: nat, cur: nat, g: nat, k: nat, o: nat)
    requires s < |lists| && cur == (s + 1) % |lists| && g > 0
    requires TailOk(lists[s], k, o)
    requires forall j :: k <= j < |lists[s]| ==> Stays(lists[s][j].interval, lists[s][j].count, g, |lists|)
    ensures Scan(lists, s, cur, g, k, o) ==
            (lists[s := lists[s][..k] + Sweep(lists[s][k..], cur, g, |lists|)], SweepIds(lists[s][k..]))
    decreases |lists[s]| - k
  {
    hide Stays;
    var list, slots := lists[s], |lists|;
    if k == |list| {
      assert list[..k] + Sweep(list[k..], cur, g, slots) == list;
      assert lists[s := list] == lists;
    } else {
      assert list[k..][0] == list[k] && list[k..][1..] == list[k + 1..];
      StaysInSlot(list[k], cur, g, slots);
      var v := Visit(list[k], cur, g, slots);
      if v == Erase {
        var list' := Without(list, k);
        assert list'[..k] == list[..k] && list'[k..] == list[k + 1..];
        ScanIsSweep(lists[s := list'], s, cur, g, k, o - 1);
        var swept := list[..k] + Sweep(list[k + 1..], cur, g, slots);
        assert lists[s := list'][s := swept] == lists[s := swept];
        assert Scan(lists, s, cur, g, k, o) == Fired(list[k].id, Scan(lists[s := list'], s, cur, g, k, o - 1));
        assert SweepIds(list[k..]) == [list[k].id] + SweepIds(list[k + 1..]);
      } else {
        var list' := list[k := v.it];
        assert list'[..k + 1] == list[..k] + [v.it] && list'[k + 1..] == list[k + 1..];
        ScanIsSweep(lists[s := list'], s, cur, g, k + 1, o);
        var swept := list[..k] + ([v.it] + Sweep(list[k + 1..], cur, g, slots));
        assert list'[..k + 1] + Sweep(list[k + 1..], cur, g, slots) == swept;
        assert lists[s := list'][s := swept] == lists[s := swept];
        assert Sweep(list[k..], cur, g, slots) == [v.it] + Sweep(list[k + 1..], cur, g, slots);
        var r := Scan(lists[s := list'], s, cur, g, k + 1, o);
        assert Scan(lists, s, cur, g, k, o) == if v.Wait? then r else Fired(list[k].id, r);
      }
    }
  }

  // what a tick does to the slot lists

  lemma RoundsLeft(deadline: nat, t: nat, slots: nat)
    requires slots > 0 && deadline >= t
    ensures deadline % slots == t % slots ==> (deadline == t <==> (deadline - t) / slots == 0)
    ensures deadline % slots == t % slots && deadline > t ==> (deadline - (t + 1)) / slots == (deadline - t) / slots - 1
    ensures deadline % slots != t % slots ==> deadline > t && (deadline - (t + 1)) / slots == (deadline - t) / slots
  {
    var q, r := (deadline - t) / slots, (deadline - t) % slots;
    assert deadline - t == q * slots + r;
    ModAdd(t, deadline - t, slots);
    ModAdd(deadline - t, t % slots, slots);
    if r == 0 {
      AddTurns(t % slots, deadline - t, slots);
      if deadline > t {
        assert q >= 1;
        assert deadline - (t + 1) == (q - 1) * slots + (slots - 1);
        DivModUnique(deadline - (t + 1), slots, q - 1, slots - 1);
      }
    } else {
      DivModUnique(deadline - (t + 1), slots, q, r - 1);
      if deadline % slots == t % slots {
        // t % slots + r would be t % slots modulo slots, for 0 < r < slots
        var m := t % slots;
        if m + r < slots { DivModUnique(m + r, slots, 0, m + r); }
            else { DivModUnique(m + r, slots, 1, m + r - slots); }
      }
    }
  }

  lemma NextTurn(t: nat, rounds: nat, slots: nat)
    requires slots > 0
    ensures (t + (rounds + 1) * slots) % slots == t % slots
    ensures (t + (rounds + 1) * slots - (t + 1)) / slots == rounds
    ensures t + (rounds + 1) * slots >= t + 1
  {
    assert (rounds + 1) * slots == rounds * slots + slots;
    assert t + (rounds + 1) * slots == (t / slots + rounds + 1) * slots + t % slots;
    DivModUnique(t + (rounds + 1) * slots, slots, t / slots + rounds + 1, t % slots);
    DivModUnique((rounds + 1) * slots - 1, slots, rounds, slots - 1);
    assert rounds * slots >= 0;
  }

  /** One timer in the slot of the tick: the visit of its item is what happens to its deadline. */
  lemma VisitEntry(e: Entry, t: nat, s: nat, cur: nat, g: nat, slots: nat)
    requires g > 0 && slots > 0 && e.deadline >= t && Stays(e.interval, e.count, g, slots)
    requires s == t % slots && cur == (t + 1) % slots && SlotOf(e, slots) == s
    ensures var v, next := Visit(ItemOf(e, t, slots), cur, g, slots), EntryAfter(e, t, g, slots);
            && (v == Erase <==> next == None) && !v.Move?
            && (next.Some? ==>
                  && v.it == ItemOf(next.value, t + 1, slots) && SlotOf(next.value, slots) == s
                  && next.value.deadline >= t + 1 && Stays(next.value.interval, next.value.count, g, slots))
    ensures ItemOf(e, t, slots).remaining <= 0 <==> e.deadline == t
  {
    RoundsLeft(e.deadline, t, slots);
    StaysInSlot(ItemOf(e, t, slots), cur, g, slots);
    var r := RoundsOf(e.interval, g, slots);
    assert r == e.interval / g / slots;
    NextTurn(t, r, slots);
    hide RoundsOf;
  }

  lemma ItemsOfCons(e: Entry, rest: seq<Entry>, s: nat, t: nat, slots: nat)
    requires slots > 0
    ensures ItemsOf([e] + rest, s, t, slots) ==
            if SlotOf(e, slots) == s then [ItemOf(e, t, slots)] + ItemsOf(rest, s, t, slots)
                else ItemsOf(rest, s, t, slots)
  {
    hide SlotOf, ItemOf;
    assert ([e] + rest)[1..] == rest;
  }

  lemma {:induction false} SweepItems(entries: seq<Entry>, t: nat, s: nat, cur: nat, g: nat, slots: nat)
    requires g > 0 && slots > 0 && EntriesOk(entries, t, g, slots)
    requires s == t % slots && cur == (t + 1) % slots
    ensures Sweep(ItemsOf(entries, s, t, slots), cur, g, slots) ==
        ItemsOf(AfterTick(entries, t, g, slots), s, t + 1, slots)
    ensures SweepIds(ItemsOf(entries, s, t, slots)) == DueIds(entries, t)
  {
    hide Visit, EntryAfter, Stays, ItemOf, SlotOf;
    if entries != [] {
      var e := entries[0];
      SweepItems(entries[1..], t, s, cur, g, slots);
      var rest, after := ItemsOf(entries[1..], s, t, slots), AfterTick(entries[1..], t, g, slots);
      var next := EntryAfter(e, t, g, slots);
      if next.Some? { ItemsOfCons(next.value, after, s, t + 1, slots); }
      if SlotOf(e, slots) == s {
        VisitEntry(e, t, s, cur, g, slots);
        SweepCons(ItemOf(e, t, slots), rest, cur, g, slots);
      } else {
        LaterEntry(e, t, s, g, slots);
      }
    }
  }

  lemma SweepCons(it: Item, rest: seq<Item>, cur: nat, g: nat, slots: nat)
    requires g > 0 && cur < slots
    ensures var v := Visit(it, cur, g, slots);
            Sweep([it] + rest, cur, g, slots) ==
            if v.Wait? || v.Stay? then [v.it] + Sweep(rest, cur, g, slots) else Sweep(rest, cur, g, slots)
    ensures SweepIds([it] + rest) == if it.remaining <= 0 then [it.id] + SweepIds(rest) else SweepIds(rest)
  {
    hide Visit;
    assert ([it] + rest)[1..] == rest;
  }

  /** A timer in another slot keeps its rounds. */
  lemma LaterEntry(e: Entry, t: nat, s: nat, g: nat, slots: nat)
    requires g > 0 && slots > 0 && e.deadline >= t && s == t % slots && SlotOf(e, slots) != s
    ensures e.deadline > t && EntryAfter(e, t, g, slots) == Some(e) && ItemOf(e, t + 1, slots) == ItemOf(e, t, slots)
  {
    RoundsLeft(e.deadline, t, slots);
  }

  lemma {:induction false} OtherItems(entries: seq<Entry>, t: nat, s: nat, cur: nat, other: nat, g: nat, slots: nat)
    requires g > 0 && slots > 0 && EntriesOk(entries, t, g, slots)
    requires s == t % slots && cur == (t + 1) % slots && other != s
    ensures ItemsOf(entries, other, t, slots) == ItemsOf(AfterTick(entries, t, g, slots), other, t + 1, slots)
  {
    hide Visit, EntryAfter, Stays, ItemOf, SlotOf;
    if entries != [] {
      var e := entries[0];
      OtherItems(entries[1..], t, s, cur, other, g, slots);
      var next := EntryAfter(e, t, g, slots);
      if next.Some? { ItemsOfCons(next.value, AfterTick(entries[1..], t, g, slots), other, t + 1, slots); }
      if SlotOf(e, slots) == s {
        VisitEntry(e, t, s, cur, g, slots);
      } else {
        LaterEntry(e, t, s, g, slots);
      }
    }
  }

  lemma {:induction false} AfterTickOk(entries: seq<Entry>, t: nat, s: nat, cur: nat, g: nat, slots: nat)
    requires g > 0 && slots > 0 && EntriesOk(entries, t, g, slots)
    requires s == t % slots && cur == (t + 1) % slots
    ensures EntriesOk(AfterTick(entries, t, g, slots), t + 1, g, slots)
  {
    if entries != [] {
      hide Visit, EntryAfter, Stays, ItemOf, SlotOf;
      var e := entries[0];
      AfterTickOk(entries[1..], t, s, cur, g, slots);
      if SlotOf(e, slots) == s {
        VisitEntry(e, t, s, cur, g, slots);
      } else {
        LaterEntry(e, t, s, g, slots);
      }
    }
  }

  /** One tick of the wheel is one tick of the deadline list: the same timers fire, in the order of
      their registration, and the wheel stands for what is left. */
  lemma TickRefines(w: Wheel, p: Plain)
    requires StandsFor(w, p)
    ensures Tick(w).1 == PlainTick(p).1
    ensures StandsFor(Tick(w).0, PlainTick(p).0)
  {
    var s, cur, g, slots := w.cur, (w.cur + 1) % |w.lists|, w.granularity, |w.lists|;
    var entries, t := p.entries, p.now;
    ModAdd(t, 1, slots);
    hide Visit, RoundsOf;
    ItemsStay(entries, s, t, g, slots);
    ScanIsSweep(w.lists, s, cur, g, 0, |w.lists[s]|);
    assert w.lists[s][..0] == [] && w.lists[s][0..] == w.lists[s];
    SweepItems(entries, t, s, cur, g, slots);
    AfterTickOk(entries, t, s, cur, g, slots);
    forall o | 0 <= o < slots ensures Tick(w).0.lists[o] == ItemsOf(AfterTick(entries, t, g, slots), o, t + 1, slots) {
      if o != s { OtherItems(entries, t, s, cur, o, g, slots); }
    }
  }

  lemma {:induction false} ItemsStay(entries: seq<Entry>, s: nat, t: nat, g: nat, slots: nat)
    requires g > 0 && slots > 0 && EntriesOk(entries, t, g, slots)
    ensures forall i :: 0 <= i < |ItemsOf(entries, s, t, slots)| ==>
              Stays(ItemsOf(entries, s, t, slots)[i].interval, ItemsOf(entries, s, t, slots)[i].count, g, slots)
  {
    hide Stays, SlotOf;
    if entries != [] { ItemsStay(entries[1..], s, t, g, slots); }
  }

  lemma {:induction false} ItemsOfAppend(entries: seq<Entry>, e: Entry, s: nat, t: nat, slots: nat)
    requires slots > 0
    ensures ItemsOf(entries + [e], s, t, slots) ==
            ItemsOf(entries, s, t, slots) + if SlotOf(e, slots) == s then [ItemOf(e, t, slots)] else []
  {
    hide SlotOf, ItemOf;
    if entries == [] {
      assert [e][1..] == [] && entries + [e] == [e];
    } else {
      ItemsOfAppend(entries[1..], e, s, t, slots);
      assert (entries + [e])[1..] == entries[1..] + [e];
    }
  }

  lemma AddRefines(w: Wheel, p: Plain, id: nat, timeout: nat, times: int, now: nat)
    requires StandsFor(w, p) && Stays(timeout, times, w.granularity, |w.lists|)
    ensures StandsFor(AddTimer(w, id, timeout, times, now), PlainAdd(p, id, timeout, times, now))
  {
    var ticks := timeout / w.granularity;
    ModAdd(p.now, ticks, p.slots);
    var e := Entry(id, p.now + ticks, timeout, now, times);
    forall s | 0 <= s < p.slots ensures AddTimer(w, id, timeout, times, now).lists[s] ==
        ItemsOf(p.entries + [e], s, p.now, p.slots) {
      ItemsOfAppend(p.entries, e, s, p.now, p.slots);
    }
  }

  // ----- runs -----

  datatype Op = Add(id: nat, timeout: nat, times: int, at: nat) | Exec(now: nat)

  /** A run, and the timers fired in each of its ticks. */
  function Run(w: Wheel, ops: seq<Op>): (r: (Wheel, seq<seq<nat>>))
    requires Ok(w)
    ensures Ok(r.0) && |r.0.lists| == |w.lists| && r.0.granularity == w.granularity
    decreases |ops|
  {
    if ops == [] then (w, []) else
    match ops[0]
    case Add(id, timeout, times, at) => Run(AddTimer(w, id, timeout, times, at), ops[1..])
    case Exec(now) =>
      var first := Execute(w, now);
      var r := Run(first.0, ops[1..]);
      (r.0, first.1 + r.1)
  }

  function PlainRun(p: Plain, ops: seq<Op>): (Plain, seq<seq<nat>>)
    requires p.granularity > 0 && p.slots > 0
    decreases |ops|
  {
    if ops == [] then (p, []) else
    match ops[0]
    case Add(id, timeout, times, at) => PlainRun(PlainAdd(p, id, timeout, times, at), ops[1..])
    case Exec(now) =>
      var first := PlainExecute(p, now);
      var r := PlainRun(first.0, ops[1..]);
      (r.0, first.1 + r.1)
  }

  /** Every timer that the run adds is one-shot or re-armed in place. */
  ghost predicate AddsStay(ops: seq<Op>, g: nat, slots: nat)
    requires g > 0 && slots > 0
  {
    forall i :: 0 <= i < |ops| && ops[i].Add? ==> Stays(ops[i].timeout, ops[i].times, g, slots)
  }

  lemma {:induction false} TicksRefine(w: Wheel, p: Plain, n: nat)
    requires StandsFor(w, p)
    ensures Ticks(w, n).1 == PlainTicks(p, n).1
    ensures StandsFor(Ticks(w, n).0, PlainTicks(p, n).0)
    decreases n
  {
    if n > 0 {
      TickRefines(w, p);
      hide Tick, PlainTick, EntriesOk;
      TicksRefine(Tick(w).0, PlainTick(p).0, n - 1);
    }
  }

  /** The wheel refines a deadline list: over any interleaving of `AddTimer` and `ExecuteTimeout` it
      fires, tick by tick and in the same order, what the list of deadlines fires. */
  lemma {:induction false} WheelRefinesDeadlines(w: Wheel, p: Plain, ops: seq<Op>)
    requires StandsFor(w, p) && AddsStay(ops, p.granularity, p.slots)
    ensures Run(w, ops).1 == PlainRun(p, ops).1
    ensures StandsFor(Run(w, ops).0, PlainRun(p, ops).0)
    decreases |ops|
  {
    if ops != [] {
      match ops[0]
      case Add(id, timeout, times, at) =>
        AddRefines(w, p, id, timeout, times, at);
        WheelRefinesDeadlines(AddTimer(w, id, timeout, times, at), PlainAdd(p, id, timeout, times, at), ops[1..]);
      case Exec(now) =>
        if now > w.last { TicksRefine(w, p, (now - w.last) / w.granularity); }
        WheelRefinesDeadlines(Execute(w, now).0, PlainExecute(p, now).0, ops[1..]);
    }
  }

  /** The constructor's wheel stands for the empty list. */
  lemma EmptyWheel(slots: nat, g: nat, start: nat)
    requires slots > 0 && g > 0
    ensures StandsFor(Wheel(seq(slots, _ => []), g, start, 0), Plain([], 0, g, slots, start))
  {
  }

  // one-shot timers

  /** `id` is the number of no timer (`None`), or of exactly one, a one-shot timer due at a tick. */
  ghost predicate Pending(entries: seq<Entry>, id: nat, due: Option<nat>) {
    if entries == [] then due == None
    else if entries[0].id == id then
      && due == Some(entries[0].deadline) && (entries[0].count == 0 || entries[0].count == 1)
      && Pending(entries[1..], id, None)
    else Pending(entries[1..], id, due)
  }

  /** What is still due after the ticks from `t` to `t + n`. */
  ghost function Later(due: Option<nat>, t: nat, n: nat): Option<nat> {
    if due.Some? && t <= due.value < t + n then None else due
  }

  /** `id` fires once in the tick that is due, and in no other; `trace` begins with tick `t`. */
  ghost predicate OnTime(trace: seq<seq<nat>>, id: nat, due: Option<nat>, t: nat) {
    forall j :: 0 <= j < |trace| ==> multiset(trace[j])[id] == if due == Some(t + j) then 1 else 0
  }

  lemma OnTimeConcat(a: seq<seq<nat>>, b: seq<seq<nat>>, id: nat, due: Option<nat>, t: nat)
    requires OnTime(a, id, due, t) && OnTime(b, id, Later(due, t, |a|), t + |a|)
    ensures OnTime(a + b, id, due, t)
  {
    forall j | 0 <= j < |a + b| ensures multiset((a + b)[j])[id] == if due == Some(t + j) then 1 else 0 {
      if j < |a| {
        assert (a + b)[j] == a[j];
      } else {
        assert (a + b)[j] == b[j - |a|];
      }
    }
  }

  lemma {:induction false} PendingTick(entries: seq<Entry>, id: nat, due: Option<nat>, t: nat, g: nat, slots: nat)
    requires g > 0 && slots > 0 && Pending(entries, id, due)
    ensures multiset(DueIds(entries, t))[id] == if due == Some(t) then 1 else 0
    ensures Pending(AfterTick(entries, t, g, slots), id, Later(due, t, 1))
  {
    if entries != [] {
      hide EntryAfter;
      var e := entries[0];
      PendingTick(entries[1..], id, if e.id == id then None else due, t, g, slots);
      var next, rest := EntryAfter(e, t, g, slots), AfterTick(entries[1..], t, g, slots);
      if next.Some? {
        assert ([next.value] + rest)[1..] == rest;
      }
    }
  }

  lemma PendingFirst(p: Plain, id: nat, due: Option<nat>)
    requires p.granularity > 0 && p.slots > 0 && Pending(p.entries, id, due)
    ensures var first := PlainTick(p);
            && first.0 == p.(entries := first.0.entries, now := p.now + 1)
            && Pending(first.0.entries, id, Later(due, p.now, 1)) && OnTime([first.1], id, due, p.now)
  {
    PendingTick(p.entries, id, due, p.now, p.granularity, p.slots);
  }

  lemma {:induction false} PendingTicks(p: Plain, id: nat, due: Option<nat>, n: nat)
    requires p.granularity > 0 && p.slots > 0 && Pending(p.entries, id, due)
    ensures var r := PlainTicks(p, n);
            && |r.1| == n && r.0 == p.(entries := r.0.entries, now := p.now + n)
            && OnTime(r.1, id, due, p.now) && Pending(r.0.entries, id, Later(due, p.now, n))
    decreases n
  {
    hide PlainTick, Pending;
    if n > 0 {
      PendingFirst(p, id, due);
      var first := PlainTick(p);
      assert Later(Later(due, p.now, 1), p.now + 1, n - 1) == Later(due, p.now, n);
      hide OnTime, Later;
      PendingTicks(first.0, id, Later(due, p.now, 1), n - 1);
      OnTimeConcat([first.1], PlainTicks(first.0, n - 1).1, id, due, p.now);
    }
  }

  lemma {:induction false} PendingAppend(entries: seq<Entry>, e: Entry, id: nat, due: Option<nat>)
    requires Pending(entries, id, due)
    ensures e.id != id ==> Pending(entries + [e], id, due)
    ensures e.id == id && due == None && (e.count == 0 || e.count == 1) ==> Pending(entries + [e], id, Some(e.deadline))
  {
    if entries == [] {
      assert [e][1..] == [] && entries + [e] == [e];
    } else {
      PendingAppend(entries[1..], e, id, if entries[0].id == id then None else due);
      assert (entries + [e])[1..] == entries[1..] + [e];
    }
  }

  ghost predicate NotAdded(ops: seq<Op>, id: nat) {
    forall i :: 0 <= i < |ops| && ops[i].Add? ==> ops[i].id != id
  }

  lemma PendingExecute(p: Plain, id: nat, due: Option<nat>, now: nat)
    requires p.granularity > 0 && p.slots > 0 && Pending(p.entries, id, due)
    ensures var r := PlainExecute(p, now);
            && r.0.granularity == p.granularity && r.0.slots == p.slots && r.0.now == p.now + |r.1|
            && OnTime(r.1, id, due, p.now) && Pending(r.0.entries, id, Later(due, p.now, |r.1|))
  {
    if now > p.last {
      PendingTicks(p, id, due, (now - p.last) / p.granularity);
    }
  }

  lemma {:induction false} PendingRun(p: Plain, id: nat, due: Option<nat>, ops: seq<Op>)
    requires p.granularity > 0 && p.slots > 0 && Pending(p.entries, id, due) && NotAdded(ops, id)
    ensures OnTime(PlainRun(p, ops).1, id, due, p.now)
    decreases |ops|
  {
    if ops != [] {
      hide Pending, OnTime;
      match ops[0]
      case Add(other, timeout, times, at) =>
        assert ops[0].Add? && other != id;
        PendingAppend(p.entries, Entry(other, p.now + timeout / p.granularity, timeout, at, times), id, due);
        PendingRun(PlainAdd(p, other, timeout, times, at), id, due, ops[1..]);
      case Exec(now) =>
        var first := PlainExecute(p, now);
        PendingExecute(p, id, due, now);
        hide PlainExecute, Later, PlainAdd;
        PendingRun(first.0, id, Later(due, p.now, |first.1|), ops[1..]);
        OnTimeConcat(first.1, PlainRun(first.0, ops[1..]).1, id, due, p.now);
    } else {
      assert PlainRun(p, ops).1 == [];
    }
  }

  /** A one-shot timer fires once, in the tick with index `timeout / granularity` after its
      registration, and in no other, for timeouts of any number of turns. */
  lemma OneShotFiresExactly(w: Wheel, p: Plain, id: nat, timeout: nat, times: int, at: nat, ops: seq<Op>)
    requires StandsFor(w, p) && Pending(p.entries, id, None) && (times == 0 || times == 1)
    requires AddsStay(ops, w.granularity, |w.lists|) && NotAdded(ops, id)
    ensures var trace := Run(AddTimer(w, id, timeout, times, at), ops).1;
            forall j :: 0 <= j < |trace| ==> multiset(trace[j])[id] == if j == timeout / w.granularity then 1 else 0
  {
    var ticks := timeout / w.granularity;
    var e := Entry(id, p.now + ticks, timeout, at, times);
    AddRefines(w, p, id, timeout, times, at);
    PendingAppend(p.entries, e, id, None);
    hide StandsFor, AddTimer, Pending, PlainRun, Run, AddsStay;
    var p' := PlainAdd(p, id, timeout, times, at);
    WheelRefinesDeadlines(AddTimer(w, id, timeout, times, at), p', ops);
    PendingRun(p', id, Some(p.now + ticks), ops);
  }

  // order within a tick

  /** Numbers were given out in the order of registration. */
  ghost predicate Increasing(ids: seq<nat>) {
    forall i, j :: 0 <= i < j < |ids| ==> ids[i] < ids[j]
  }

  function Ids(entries: seq<Entry>): seq<nat> {
    if entries == [] then [] else [entries[0].id] + Ids(entries[1..])
  }

  ghost predicate AllAbove(ids: seq<nat>, x: nat) {
    forall i :: 0 <= i < |ids| ==> x < ids[i]
  }

  lemma {:induction false} AboveStays(entries: seq<Entry>, x: nat, t: nat, g: nat, slots: nat)
    requires g > 0 && slots > 0 && AllAbove(Ids(entries), x)
    ensures AllAbove(DueIds(entries, t), x) && AllAbove(Ids(AfterTick(entries, t, g, slots)), x)
  {
    if entries != [] {
      var ids := Ids(entries);
      assert ids[0] == entries[0].id && Ids(entries[1..]) == ids[1..];
      AboveStays(entries[1..], x, t, g, slots);
      IdsOfCons(entries, t, g, slots);
    }
  }

  lemma IdsOfCons(entries: seq<Entry>, t: nat, g: nat, slots: nat)
    requires g > 0 && slots > 0 && entries != []
    ensures var rest := Ids(AfterTick(entries[1..], t, g, slots));
            Ids(AfterTick(entries, t, g, slots)) == if EntryAfter(entries[0], t, g, slots) == None
                then rest else [entries[0].id] + rest
  {
    var next, rest := EntryAfter(entries[0], t, g, slots), AfterTick(entries[1..], t, g, slots);
    hide EntryAfter;
    if next.Some? {
      assert ([next.value] + rest)[1..] == rest;
    }
  }

  lemma {:induction false} TickInOrder(entries: seq<Entry>, t: nat, g: nat, slots: nat)
    requires g > 0 && slots > 0 && Increasing(Ids(entries))
    ensures Increasing(DueIds(entries, t)) && Increasing(Ids(AfterTick(entries, t, g, slots)))
  {
    if entries != [] {
      var ids := Ids(entries);
      assert ids[0] == entries[0].id && Ids(entries[1..]) == ids[1..];
      assert AllAbove(ids[1..], ids[0]);
      AboveStays(entries[1..], ids[0], t, g, slots);
      TickInOrder(entries[1..], t, g, slots);
      IdsOfCons(entries, t, g, slots);
    }
  }

  /** Within one tick the wheel fires timers in the order of their registration. */
  lemma FiresInRegistrationOrder(w: Wheel, p: Plain)
    requires StandsFor(w, p) && Increasing(Ids(p.entries))
    ensures Increasing(Tick(w).1) && Increasing(Ids(PlainTick(p).0.entries))
  {
    TickRefines(w, p);
    TickInOrder(p.entries, p.now, p.granularity, p.slots);
  }

  // irregular polling

  /** The parts of a granule that the calls of a run lose when they set `last_trigger_` to now. */
  function Lost(last: nat, ops: seq<Op>, g: nat): nat
    requires g > 0
    decreases |ops|
  {
    if ops == [] then 0
    else if ops[0].Exec? && ops[0].now > last then (ops[0].now - last) % g + Lost(ops[0].now, ops[1..], g)
    else Lost(last, ops[1..], g)
  }

  lemma {:induction false} TicksKeepLast(w: Wheel, n: nat)
    requires Ok(w)
    ensures Ticks(w, n).0.last == w.last
    decreases n
  {
    if n > 0 { TicksKeepLast(Tick(w).0, n - 1); }
  }

  lemma ExecuteTicks(w: Wheel, now: nat)
    requires Ok(w)
    ensures var r := Execute(w, now);
            if now > w.last then
              r.0.last == now && now - w.last == |r.1| * w.granularity + (now - w.last) % w.granularity
            else r == (w, [])
  {
    if now > w.last { TicksKeepLast(w, (now - w.last) / w.granularity); }
  }

  lemma {:induction false} TicksRun(w: Wheel, ops: seq<Op>)
    requires Ok(w)
    ensures Run(w, ops).0.last >= w.last
    ensures Run(w, ops).0.last - w.last == |Run(w, ops).1| * w.granularity + Lost(w.last, ops, w.granularity)
    decreases |ops|
  {
    hide Execute, AddTimer;
    if ops != [] {
      match ops[0]
      case Add(id, timeout, times, at) =>
        AddKeepsLast(w, id, timeout, times, at);
        TicksRun(AddTimer(w, id, timeout, times, at), ops[1..]);
      case Exec(now) =>
        var first := Execute(w, now);
        var n, m, g := |first.1|, |Run(first.0, ops[1..]).1|, w.granularity;
        ExecuteTicks(w, now);
        TicksRun(first.0, ops[1..]);
        assert |Run(w, ops).1| == n + m;
        Distribute(n, m, g);
    }
  }

  lemma AddKeepsLast(w: Wheel, id: nat, timeout: nat, times: int, at: nat)
    requires Ok(w)
    ensures AddTimer(w, id, timeout, times, at).last == w.last
        && AddTimer(w, id, timeout, times, at).granularity == w.granularity
  {
  }

  /** Over irregular polling the ticks never run ahead of the clock, and they keep up with it exactly
      if the lost parts do not add up to a granule; they do if every gap is a multiple of it. */
  lemma TicksNeverAhead(w: Wheel, ops: seq<Op>)
    requires Ok(w)
    ensures var r, g := Run(w, ops), w.granularity;
            && r.0.last >= w.last && |r.1| <= (r.0.last - w.last) / g
            && (|r.1| == (r.0.last - w.last) / g <==> Lost(w.last, ops, g) < g)
  {
    hide Run, Lost;
    TicksRun(w, ops);
    Quotient(|Run(w, ops).1|, Lost(w.last, ops, w.granularity), w.granularity);
  }

  lemma {:induction false} LastIsACall(w: Wheel, ops: seq<Op>, bound: nat)
    requires Ok(w) && w.last < bound
    requires forall i :: 0 <= i < |ops| && ops[i].Exec? ==> ops[i].now < bound
    ensures Run(w, ops).0.last < bound
    decreases |ops|
  {
    if ops != [] {
      match ops[0]
      case Add(id, timeout, times, at) => LastIsACall(AddTimer(w, id, timeout, times, at), ops[1..], bound);
      case Exec(now) =>
        assert ops[0].Exec? && now < bound;
        LastIsACall(Execute(w, now).0, ops[1..], bound);
    }
  }

  /** A one-shot timer added at `last_trigger_` never fires early: not while every call comes before
      `last_trigger_ + (timeout / granularity + 1) * granularity`. */
  lemma OneShotNeverEarly(w: Wheel, p: Plain, id: nat, timeout: nat, times: int, at: nat, ops: seq<Op>)
    requires StandsFor(w, p) && Pending(p.entries, id, None) && (times == 0 || times == 1)
    requires AddsStay(ops, w.granularity, |w.lists|) && NotAdded(ops, id)
    requires forall i :: 0 <= i < |ops| && ops[i].Exec? ==>
               ops[i].now < w.last + (timeout / w.granularity + 1) * w.granularity
    ensures var trace := Run(AddTimer(w, id, timeout, times, at), ops).1;
            forall j :: 0 <= j < |trace| ==> multiset(trace[j])[id] == 0
  {
    var w', g := AddTimer(w, id, timeout, times, at), w.granularity;
    var n, ticks := |Run(w', ops).1|, timeout / g;
    OneShotFiresExactly(w, p, id, timeout, times, at, ops);
    hide AddTimer, Run, StandsFor, Pending;
    AddKeepsLast(w, id, timeout, times, at);
    Distribute(ticks, 1, g);
    Multiple(ticks, g);
    LastIsACall(w', ops, w.last + (ticks + 1) * g);
    TicksRun(w', ops);
    Less(n, ticks + 1, g);
  }

  // ----- fire counts, for all timers -----

  /** How often an item with a finite count will still fire; a count of 0 counts as one. */
  function FiresLeft(it: Item): int {
    if it.count == 0 then 1 else it.count
  }

  /** Fires left, and number, of the items of timer `x` in a list. */
  function Left(list: seq<Item>, x: nat): int {
    if list == [] then 0
    else (if list[0].id == x then FiresLeft(list[0]) else 0) + Left(list[1..], x)
  }

  function Copies(list: seq<Item>, x: nat): nat {
    if list == [] then 0 else (if list[0].id == x then 1 else 0) + Copies(list[1..], x)
  }

  function LeftAll(lists: seq<seq<Item>>, x: nat): int {
    if lists == [] then 0 else Left(lists[0], x) + LeftAll(lists[1..], x)
  }

  function CopiesAll(lists: seq<seq<Item>>, x: nat): nat {
    if lists == [] then 0 else Copies(lists[0], x) + CopiesAll(lists[1..], x)
  }

  ghost predicate FiniteIn(list: seq<Item>, x: nat) {
    forall i :: 0 <= i < |list| && list[i].id == x ==> list[i].count >= 0
  }

  ghost predicate Finite(lists: seq<seq<Item>>, x: nat) {
    forall s :: 0 <= s < |lists| ==> FiniteIn(lists[s], x)
  }

  lemma {:induction false} TallyConcat(a: seq<Item>, b: seq<Item>, x: nat)
    ensures Left(a + b, x) == Left(a, x) + Left(b, x)
    ensures Copies(a + b, x) == Copies(a, x) + Copies(b, x)
  {
    hide FiresLeft;
    if a == [] {
      assert a + b == b;
    } else {
      TallyConcat(a[1..], b, x);
      assert (a + b)[1..] == a[1..] + b;
    }
  }

  lemma TallyOne(it: Item, x: nat)
    ensures Left([it], x) == if it.id == x then FiresLeft(it) else 0
    ensures Copies([it], x) == if it.id == x then 1 else 0
  {
  }

  lemma TallyAt(list: seq<Item>, k: nat, it: Item, x: nat)
    requires k < |list|
    ensures Left(list, x) == Left(Without(list, k), x) + Left([list[k]], x)
    ensures Copies(list, x) == Copies(Without(list, k), x) + Copies([list[k]], x)
    ensures Left(list[k := it], x) == Left(Without(list, k), x) + Left([it], x)
    ensures Copies(list[k := it], x) == Copies(Without(list, k), x) + Copies([it], x)
  {
    hide Left, Copies;
    var a, b := list[..k], list[k + 1..];
    assert list == a + ([list[k]] + b) && list[k := it] == a + ([it] + b);
    TallyConcat(a, b, x);
    TallyConcat([list[k]], b, x);
    TallyConcat([it], b, x);
    TallyConcat(a, [list[k]] + b, x);
    TallyConcat(a, [it] + b, x);
  }

  lemma {:induction false} TallyList(lists: seq<seq<Item>>, s: nat, list: seq<Item>, x: nat)
    requires s < |lists|
    ensures LeftAll(lists[s := list], x) == LeftAll(lists, x) - Left(lists[s], x) + Left(list, x)
    ensures CopiesAll(lists[s := list], x) == CopiesAll(lists, x) - Copies(lists[s], x) + Copies(list, x)
  {
    hide Left, Copies;
    if s == 0 {
      assert lists[0 := list][1..] == lists[1..];
    } else {
      TallyList(lists[1..], s - 1, list, x);
      assert lists[s := list][1..] == lists[1..][s - 1 := list];
    }
  }

  /** One visit: a fire and the fires left afterwards make up the fires left before. */
  lemma VisitTally(item: Item, cur: nat, g: nat, slots: nat)
    requires g > 0 && cur < slots && item.count >= 0
    ensures match Visit(item, cur, g, slots)
            case Wait(it) => it.id == item.id && it.count >= 0 && FiresLeft(it) == FiresLeft(item)
            case Stay(it) => it.id == item.id && it.count >= 0 && FiresLeft(it) == FiresLeft(item) - 1
            case Move(it, _) => it.id == item.id && it.count >= 0 && FiresLeft(it) == FiresLeft(item) - 1
            case Erase => FiresLeft(item) == 1
  {
    hide RoundsOf;
  }

  lemma VisitId(item: Item, cur: nat, g: nat, slots: nat)
    requires g > 0 && cur < slots
    ensures var v := Visit(item, cur, g, slots); v != Erase ==> v.it.id == item.id
  {
    hide RoundsOf;
  }

  lemma NextConserves(lists: seq<seq<Item>>, s: nat, cur: nat, g: nat, k: nat, o: nat, x: nat)
    requires s < |lists| && cur < |lists| && g > 0 && k < |lists[s]|
    requires Finite(lists, x) && (o == 0 ==> lists[s][k].remaining > 0)
    ensures var n := ScanNext(lists, s, cur, g, k, o);
            && |n.0| == |lists| && Finite(n.0, x)
            && LeftAll(n.0, x) + multiset(n.3)[x] == LeftAll(lists, x)
            && CopiesAll(n.0, x) <= CopiesAll(lists, x)
  {
    hide Left, Copies, LeftAll, CopiesAll, Visit, FiresLeft;
    var list := lists[s];
    assert FiniteIn(list, x);
    VisitId(list[k], cur, g, |lists|);
    if list[k].id == x { VisitTally(list[k], cur, g, |lists|); }
    TallyOne(list[k], x);
    match Visit(list[k], cur, g, |lists|)
    case Wait(it) => TallyOne(it, x); TallyAt(list, k, it, x); TallyList(lists, s, list[k := it], x);
    case Stay(it) => TallyOne(it, x); TallyAt(list, k, it, x); TallyList(lists, s, list[k := it], x);
    case Erase => TallyAt(list, k, list[k], x); TallyList(lists, s, Without(list, k), x);
    case Move(it, slot) =>
      TallyOne(it, x); TallyAt(list, k, it, x); TallyList(lists, s, Without(list, k), x);
      var rest := lists[s := Without(list, k)];
      TallyConcat(rest[slot], [it], x); TallyList(rest, slot, rest[slot] + [it], x);
  }

  lemma {:induction false} ScanConserves(lists: seq<seq<Item>>, s: nat, cur: nat, g: nat, k: nat, o: nat, x: nat)
    requires s < |lists| && cur == (s + 1) % |lists| && g > 0
    requires TailOk(lists[s], k, o) && Finite(lists, x)
    ensures var r := Scan(lists, s, cur, g, k, o);
            && Finite(r.0, x)
            && LeftAll(r.0, x) + multiset(r.1)[x] == LeftAll(lists, x)
            && CopiesAll(r.0, x) <= CopiesAll(lists, x)
    decreases o, |lists[s]| - k
  {
    if k < |lists[s]| {
      ScanUnfolds(lists, s, cur, g, k, o);
      NextConserves(lists, s, cur, g, k, o, x);
      hide Scan, ScanNext, LeftAll, CopiesAll, Finite;
      var n := ScanNext(lists, s, cur, g, k, o);
      ScanConserves(n.0, s, cur, g, n.1, n.2, x);
    }
  }

  function TotalFires(trace: seq<seq<nat>>, x: nat): nat {
    if trace == [] then 0 else multiset(trace[0])[x] + TotalFires(trace[1..], x)
  }

  lemma {:induction false} TotalFiresConcat(a: seq<seq<nat>>, b: seq<seq<nat>>, x: nat)
    ensures TotalFires(a + b, x) == TotalFires(a, x) + TotalFires(b, x)
  {
    if a == [] {
      assert a + b == b;
    } else {
      TotalFiresConcat(a[1..], b, x);
      assert (a + b)[1..] == a[1..] + b;
    }
  }

  /** What a piece of a run keeps for timer `x`. */
  ghost predicate Conserves(lists: seq<seq<Item>>, lists': seq<seq<Item>>, trace: seq<seq<nat>>, x: nat) {
    && Finite(lists', x)
    && LeftAll(lists', x) + TotalFires(trace, x) == LeftAll(lists, x)
    && CopiesAll(lists', x) <= CopiesAll(lists, x)
  }

  lemma {:induction false} TicksConserve(w: Wheel, n: nat, x: nat)
    requires Ok(w) && Finite(w.lists, x)
    ensures Conserves(w.lists, Ticks(w, n).0.lists, Ticks(w, n).1, x)
    decreases n
  {
    hide LeftAll, CopiesAll, Finite;
    if n > 0 {
      var cur := (w.cur + 1) % |w.lists|;
      ScanConserves(w.lists, w.cur, cur, w.granularity, 0, |w.lists[w.cur]|, x);
      var first := Tick(w);
      hide Tick;
      TicksConserve(first.0, n - 1, x);
      var rest := Ticks(first.0, n - 1);
      assert ([first.1] + rest.1)[1..] == rest.1;
    }
  }

  lemma {:induction false} RunConserves(w: Wheel, ops: seq<Op>, x: nat)
    requires Ok(w) && Finite(w.lists, x) && NotAdded(ops, x)
    ensures Conserves(w.lists, Run(w, ops).0.lists, Run(w, ops).1, x)
    decreases |ops|
  {
    hide LeftAll, CopiesAll, Finite;
    if ops != [] {
      match ops[0]
      case Add(id, timeout, times, at) =>
        assert ops[0].Add? && id != x;
        AddTally(w, id, timeout, times, at, x);
        RunConserves(AddTimer(w, id, timeout, times, at), ops[1..], x);
      case Exec(now) =>
        var first := Execute(w, now);
        if now > w.last { TicksConserve(w, (now - w.last) / w.granularity, x); }
        RunConserves(first.0, ops[1..], x);
        TotalFiresConcat(first.1, Run(first.0, ops[1..]).1, x);
    }
  }

  lemma AddTally(w: Wheel, id: nat, timeout: nat, times: int, at: nat, x: nat)
    requires Ok(w) && Finite(w.lists, x) && (id == x ==> times >= 0)
    ensures var w' := AddTimer(w, id, timeout, times, at);
            && Finite(w'.lists, x)
            && LeftAll(w'.lists, x) == LeftAll(w.lists, x) + (if id != x then 0 else if times == 0 then 1 else times)
            && CopiesAll(w'.lists, x) == CopiesAll(w.lists, x) + if id == x then 1 else 0
  {
    hide LeftAll, CopiesAll, Left, Copies;
    var slot := (w.cur + timeout / w.granularity) % |w.lists|;
    var item := Item(id, timeout / w.granularity / |w.lists|, timeout, at, times);
    TallyOne(item, x);
    TallyConcat(w.lists[slot], [item], x);
    TallyList(w.lists, slot, w.lists[slot] + [item], x);
    assert FiniteIn(w.lists[slot], x);
  }

  lemma {:induction false} LeftAtLeastCopies(list: seq<Item>, x: nat)
    requires FiniteIn(list, x)
    ensures Left(list, x) >= Copies(list, x) && (Copies(list, x) == 0 ==> Left(list, x) == 0)
  {
    if list != [] {
      LeftAtLeastCopies(list[1..], x);
    }
  }

  lemma {:induction false} LeftAllAtLeastCopies(lists: seq<seq<Item>>, x: nat)
    requires Finite(lists, x)
    ensures LeftAll(lists, x) >= CopiesAll(lists, x) && (CopiesAll(lists, x) == 0 ==> LeftAll(lists, x) == 0)
  {
    hide Left, Copies;
    if lists != [] {
      LeftAtLeastCopies(lists[0], x);
      LeftAllAtLeastCopies(lists[1..], x);
    }
  }

  lemma {:induction false} NoCopiesIsFinite(lists: seq<seq<Item>>, x: nat)
    requires CopiesAll(lists, x) == 0
    ensures Finite(lists, x) && LeftAll(lists, x) == 0
  {
    if lists != [] {
      NoneInList(lists[0], x);
      NoCopiesIsFinite(lists[1..], x);
    }
  }

  lemma {:induction false} NoneInList(list: seq<Item>, x: nat)
    requires Copies(list, x) == 0
    ensures FiniteIn(list, x) && Left(list, x) == 0
  {
    if list != [] { NoneInList(list[1..], x); }
  }

  /** Fire-count conservation: a timer added with a count of `n` (0 counts as 1), whatever its
      interval and whatever other timers are there, is in the slot lists exactly once until it has
      fired `n` times, and then nowhere; it never fires more often. */
  lemma FireCountConserved(w: Wheel, id: nat, timeout: nat, times: nat, at: nat, ops: seq<Op>)
    requires Ok(w) && CopiesAll(w.lists, id) == 0 && NotAdded(ops, id)
    ensures var n := if times == 0 then 1 else times;
            var r := Run(AddTimer(w, id, timeout, times, at), ops);
            && TotalFires(r.1, id) <= n
            && LeftAll(r.0.lists, id) == n - TotalFires(r.1, id)
            && CopiesAll(r.0.lists, id) == if TotalFires(r.1, id) < n then 1 else 0
  {
    NoCopiesIsFinite(w.lists, id);
    AddTally(w, id, timeout, times, at, id);
    RunConserves(AddTimer(w, id, timeout, times, at), ops, id);
    LeftAllAtLeastCopies(Run(AddTimer(w, id, timeout, times, at), ops).0.lists, id);
  }

  // ----- a timer that moves disturbs the others -----

  /** With a repeating timer that changes its slot the deadlines are not kept: of two timers in one
      slot, the one-shot timer 1 with timeout 4 fires in tick 2, because the restart of the scan
      takes a second round from it. */
  lemma MoverFiresOthersEarly()
    ensures var w := Wheel([[], []], 1, 0, 0);
            var ops := [Add(1, 4, 1, 0), Add(2, 2, 2, 0), Exec(3)];
            && !Stays(2, 2, 1, 2)
            && Run(w, ops).1 == [[], [], [2, 1]]
  {
    var w := Wheel([[], []], 1, 0, 0);
    var x2, m1 := Item(1, 2, 4, 0, 1), Item(2, 1, 2, 0, 2);
    var x1, m0 := x2.(remaining := 1), m1.(remaining := 0);
    var none: seq<Item> := [];
    assert none + [x2] == [x2] && [x2] + [m1] == [x2, m1];
    var w1 := AddTimer(w, 1, 4, 1, 0);
    assert w1.lists == [[x2], []];
    var w2 := AddTimer(w1, 2, 2, 2, 0);
    assert w2.lists == [[x2, m1], []];
    QuietTicks(x2, m1);
    var w4 := Wheel([[x1, m0], []], 1, 0, 0);
    MovingTick(x1, m0);
    hide Tick;
    var w3, w5 := Tick(w2).0, Tick(w4).0;
    assert Tick(w3) == (w4, []) && Tick(w2).1 == [];
    var t4, t3, t2 := [[2, 1]], [[], [2, 1]], [[], [], [2, 1]];
    assert [[2, 1]] + [] == t4 && [[]] + t4 == t3 && [[]] + t3 == t2;
    assert Ticks(w5, 0) == (w5, []);
    assert Ticks(w4, 1) == (w5, t4);
    assert Ticks(w3, 2) == (w5, t3);
    assert Ticks(w2, 3) == (w5, t2);
    var ops := [Add(1, 4, 1, 0), Add(2, 2, 2, 0), Exec(3)];
    assert ops[1..] == [Add(2, 2, 2, 0), Exec(3)] && ops[1..][1..] == [Exec(3)] && [Exec(3)][1..] == [];
    assert t2 + [] == t2;
    assert Run(w2, [Exec(3)]).1 == t2;
  }

  /** Tick 0 takes a round from both; the slot of tick 1 is empty. */
  lemma QuietTicks(x: Item, m: Item)
    requires x.remaining == 2 && m.remaining == 1
    ensures var w := Wheel([[x, m], []], 1, 0, 0);
            && Tick(w) == (Wheel([[x.(remaining := 1), m.(remaining := 0)], []], 1, 0, 1), [])
            && Tick(Tick(w).0) == (Tick(w).0.(cur := 0), [])
  {
    var x1, m0 := x.(remaining := 1), m.(remaining := 0);
    var a, b, c := [[x, m], []], [[x1, m], []], [[x1, m0], []];
    assert [x, m][0 := x1] == [x1, m] && [x1, m][1 := m0] == [x1, m0];
    assert a[0 := [x1, m]] == b && b[0 := [x1, m0]] == c;
    assert Scan(c, 0, 1, 1, 2, 2) == (c, []);
    assert Scan(b, 0, 1, 1, 1, 2) == (c, []);
    assert Scan(c, 1, 0, 1, 0, 0) == (c, []);
  }

  /** Tick 2: the second timer fires and moves, and the restarted scan fires the first. */
  lemma MovingTick(x: Item, m: Item)
    requires x == Item(1, 1, 4, 0, 1) && m == Item(2, 0, 2, 0, 2)
    ensures Tick(Wheel([[x, m], []], 1, 0, 0)).1 == [2, 1]
  {
    var x0, m' := x.(remaining := 0), m.(remaining := 1, count := 1);
    var m'' := m'.(remaining := 0);
    var a, b, c, d, e := [[x, m], []], [[x0, m], []], [[x0, m'], []], [[m'], []], [[m''], []];
    assert Visit(m, 1, 1, 2) == Move(m', 0) && Visit(x0, 1, 1, 2) == Erase;
    assert [x, m][0 := x0] == [x0, m] && a[0 := [x0, m]] == b;
    assert Without([x0, m], 1) == [x0] && [x0] + [m'] == [x0, m'];
    assert Spliced(b, 0, 1, m', 0) == c;
    assert Without([x0, m'], 0) == [m'] && c[0 := [m']] == d;
    assert [m'][0 := m''] == [m''] && d[0 := [m'']] == e;
    assert [1] + [] == [1] && [2] + [1] == [2, 1];
    assert Scan(e, 0, 1, 1, 1, 0) == (e, []);
    assert Scan(d, 0, 1, 1, 0, 0) == (e, []);
    assert Scan(c, 0, 1, 1, 0, 1) == (e, [1]);
    assert Scan(b, 0, 1, 1, 1, 2) == (e, [2, 1]);
  }

  // ----- the next timeout -----

  const INT64_MAX: int := 0x7FFF_FFFF_FFFF_FFFF
  const UINT64_RANGE: int := 0x1_0000_0000_0000_0000

  /** Milliseconds until the item is due; negative when it is overdue. */
  function Delay(it: Item, now: nat): int {
    it.registered + it.interval - now
  }

  /** The same in unsigned 64-bit arithmetic. */
  function Trigger(it: Item, now: nat): nat {
    Delay(it, now) % UINT64_RANGE
  }

  /** `d` is the least trigger of the fronts of the slot lists `from`, capped at `INT64_MAX`. */
  ghost predicate LeastFront(lists: seq<seq<Item>>, from: set<nat>, now: nat, d: nat) {
    && d <= INT64_MAX
    && (forall s: nat :: s in from && s < |lists| && lists[s] != [] ==> d <= Trigger(lists[s][0], now))
    && (d == INT64_MAX || exists s: nat :: s in from && s < |lists| && lists[s] != [] && d == Trigger(lists[s][0], now))
  }

  ghost predicate InRange(lists: seq<seq<Item>>, now: nat) {
    forall s, k :: 0 <= s < |lists| && 0 <= k < |lists[s]| ==> -INT64_MAX <= Delay(lists[s][k], now) < INT64_MAX
  }

  ghost predicate PendingFront(lists: seq<seq<Item>>, now: nat, s: nat) {
    s < |lists| && lists[s] != [] && Delay(lists[s][0], now) >= 0
  }

  ghost predicate Covers(from: set<nat>, n: nat) {
    forall s: nat :: s < n ==> s in from
  }

  /** The slot that the loop of `GetNextTimeout` visits in round `i`. */
  function SlotAt(cur: nat, i: nat, slots: nat): nat
    requires slots > 0
  {
    (cur + i) % slots
  }

  /** The modular scan visits every slot. */
  lemma EverySlotVisited(cur: nat, slots: nat, from: set<nat>)
    requires cur < slots
    requires forall i :: 0 <= i < slots ==> SlotAt(cur, i, slots) in from
    ensures Covers(from, slots)
  {
    forall s: nat | s < slots ensures s in from {
      var i := if s >= cur then s - cur else s - cur + slots;
      assert SlotAt(cur, i, slots) == s by { if s < cur { DivModUnique(cur + i, slots, 1, s); } }
    }
  }

  /** The value of `GetNextTimeout`, from the least front over all slots. */
  function NextTimeout(d: nat): nat {
    if d == INT64_MAX then 0 else d
  }

  /** Overdue fronts do not count; the answer is the least delay of the other fronts, and 0 if there
      are none. So 0 is also the answer when a front is due at this moment. */
  lemma NextTimeoutIsLeastFront(lists: seq<seq<Item>>, from: set<nat>, now: nat, d: nat)
    requires InRange(lists, now) && LeastFront(lists, from, now, d) && Covers(from, |lists|)
    ensures (exists s: nat :: PendingFront(lists, now, s)) ==>
              && (exists s: nat :: PendingFront(lists, now, s) && NextTimeout(d) == Delay(lists[s][0], now))
              && (forall s: nat :: PendingFront(lists, now, s) ==> NextTimeout(d) <= Delay(lists[s][0], now))
    ensures !(exists s: nat :: PendingFront(lists, now, s)) ==> NextTimeout(d) == 0
  {
    forall s: nat | s < |lists| && lists[s] != []
      ensures if PendingFront(lists, now, s) then Trigger(lists[s][0], now) == Delay(lists[s][0], now) < INT64_MAX
              else Trigger(lists[s][0], now) > INT64_MAX
    {
      var x := Delay(lists[s][0], now);
      if x < 0 { assert (x + UINT64_RANGE) % UINT64_RANGE == x % UINT64_RANGE; }
    }
  }

  /** With nothing overdue the answer is never below the least delay in the whole wheel, and it is
      that delay exactly if the front of some slot has it. */
  lemma NextTimeoutBound(lists: seq<seq<Item>>, from: set<nat>, now: nat, d: nat, s0: nat, k0: nat)
    requires InRange(lists, now) && LeastFront(lists, from, now, d) && Covers(from, |lists|)
    requires forall s, k :: 0 <= s < |lists| && 0 <= k < |lists[s]| ==> 0 <= Delay(lists[s][k], now)
    requires s0 < |lists| && k0 < |lists[s0]|
    requires forall s, k :: 0 <= s < |lists| && 0 <= k < |lists[s]| ==>
        Delay(lists[s0][k0], now) <= Delay(lists[s][k], now)
    ensures NextTimeout(d) >= Delay(lists[s0][k0], now)
    ensures NextTimeout(d) == Delay(lists[s0][k0], now) <==>
            exists s :: 0 <= s < |lists| && lists[s] != [] && Delay(lists[s][0], now) == Delay(lists[s0][k0], now)
  {
    assert PendingFront(lists, now, s0);
    NextTimeoutIsLeastFront(lists, from, now, d);
  }

  /** The header says that 0 means an empty wheel. It means exactly that no front is pending, be it that the
      wheel is empty or that all fronts are overdue, or that a front is due at this moment. */
  lemma NextTimeoutZeroExactly(lists: seq<seq<Item>>, from: set<nat>, now: nat, d: nat)
    requires InRange(lists, now) && LeastFront(lists, from, now, d) && Covers(from, |lists|)
    ensures NextTimeout(d) == 0 <==>
            || (forall s: nat :: !PendingFront(lists, now, s))
            || (exists s: nat :: PendingFront(lists, now, s) && Delay(lists[s][0], now) == 0)
  {
    NextTimeoutIsLeastFront(lists, from, now, d);
  }

  /** Two wheels that are not empty and answer 0: a front due now, and a front overdue by 5. */
  lemma ZeroForNonEmptyWheels()
    ensures var due, overdue := [[Item(1, 0, 0, 7, 1)]], [[Item(1, 0, 2, 0, 1)]];
            && LeastFront(due, {0}, 7, 0) && NextTimeout(0) == 0
            && LeastFront(overdue, {0}, 7, INT64_MAX) && NextTimeout(INT64_MAX) == 0
  {
    var due, overdue := Item(1, 0, 0, 7, 1), Item(1, 0, 2, 0, 1);
    assert Trigger(due, 7) == 0 && [[due]][0] == [due];
    assert Trigger(overdue, 7) == UINT64_RANGE - 5 && [[overdue]][0] == [overdue];
  }
}
