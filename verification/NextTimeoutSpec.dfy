/**
  What `GetNextTimeout` (src/timewheel.cc:67-82) says about the timers that were added: the answer in terms of
  the timeouts and the times of the `AddTimer` calls of a run.
 */
module NextTimeoutSpec {
  import opened Arithmetic
  import MoverSpec
  import RearmSpec
  import opened TimeWheelSpec

  /** The timer in front of the list of slot `s` has a timeout that ends at `end`. */
  ghost predicate FrontEnds(lists: seq<seq<Item>>, s: nat, end: nat) {
    s < |lists| && lists[s] != [] && lists[s][0].registered + lists[s][0].interval == end
  }

  /** `r` is the time from `now` to the earliest end of a timeout among the timers in front of the slot lists
      whose timeout has not ended yet, and 0 if there is none. */
  ghost predicate IsNextTimeout(lists: seq<seq<Item>>, now: nat, r: nat) {
    && (forall s: nat, end: nat :: FrontEnds(lists, s, end) && end >= now ==> now + r <= end)
    && ((exists s: nat, end: nat :: FrontEnds(lists, s, end) && end >= now) ==>
          exists s: nat, end: nat :: FrontEnds(lists, s, end) && end == now + r)
    && ((forall s: nat, end: nat :: FrontEnds(lists, s, end) ==> end < now) ==> r == 0)
  }

  /** Times and timeouts that 64-bit arithmetic can tell apart. */
  ghost predicate Near(lists: seq<seq<Item>>, now: nat) {
    forall s, k :: 0 <= s < |lists| && 0 <= k < |lists[s]| ==>
      && lists[s][k].registered + lists[s][k].interval < now + INT64_MAX
      && now <= lists[s][k].registered + lists[s][k].interval + INT64_MAX
  }

  lemma LeastFrontIsNext(lists: seq<seq<Item>>, from: set<nat>, now: nat, d: nat)
    requires Near(lists, now) && LeastFront(lists, from, now, d) && Covers(from, |lists|)
    ensures IsNextTimeout(lists, now, NextTimeout(d))
  {
    assert InRange(lists, now);
    NextTimeoutIsLeastFront(lists, from, now, d);
    forall s: nat, end: nat | FrontEnds(lists, s, end)
      ensures PendingFront(lists, now, s) <==> end >= now
      ensures Delay(lists[s][0], now) == end - now
    {
    }
    if s: nat, end: nat :| FrontEnds(lists, s, end) && end >= now {
      assert PendingFront(lists, now, s);
      var t: nat :| PendingFront(lists, now, t) && NextTimeout(d) == Delay(lists[t][0], now);
      assert FrontEnds(lists, t, now + NextTimeout(d));
    } else {
      forall s: nat ensures !PendingFront(lists, now, s) {
        if s < |lists| && lists[s] != [] {
          assert FrontEnds(lists, s, lists[s][0].registered + lists[s][0].interval);
        }
      }
    }
  }

  // ----- timers that have been added, and not fired yet -----

  ghost predicate OnlyAdds(ops: seq<Op>) {
    forall i :: 0 <= i < |ops| ==> ops[i].Add?
  }

  /** The slot of a timer added when the wheel is at `cur`. */
  function SlotFor(timeout: nat, cur: nat, g: nat, slots: nat): nat
    requires g > 0 && slots > 0
  {
    (cur + timeout / g) % slots
  }

  /** What the calls append to the list of slot `s`. */
  function Appended(ops: seq<Op>, s: nat, cur: nat, g: nat, slots: nat): seq<Item>
    requires g > 0 && slots > 0
  {
    if ops == [] then [] else
    var rest := Appended(ops[1..], s, cur, g, slots);
    match ops[0]
    case Exec(_) => rest
    case Add(id, timeout, times, at) =>
      if SlotFor(timeout, cur, g, slots) != s then rest
      else [Item(id, timeout / g / slots, timeout, at, times)] + rest
  }

  lemma {:induction false} AddsAppend(w: Wheel, ops: seq<Op>, s: nat)
    requires Ok(w) && OnlyAdds(ops) && s < |w.lists|
    ensures Run(w, ops).0.lists[s] == w.lists[s] + Appended(ops, s, w.cur, w.granularity, |w.lists|)
    decreases |ops|
  {
    if ops == [] {
      assert w.lists[s] + [] == w.lists[s];
    } else {
      var op := ops[0];
      assert op.Add?;
      var w' := AddTimer(w, op.id, op.timeout, op.times, op.at);
      assert w'.cur == w.cur && w'.granularity == w.granularity;
      var rest := Appended(ops[1..], s, w.cur, w.granularity, |w.lists|);
      assert w'.lists[s] == w.lists[s] || exists it :: w'.lists[s] == w.lists[s] + [it];
      hide AddTimer;
      AddsAppend(w', ops[1..], s);
      var it := Item(op.id, op.timeout / w.granularity / |w.lists|, op.timeout, op.at, op.times);
      AddedItem(w, op.id, op.timeout, op.times, op.at, s);
      assert (w.lists[s] + [it]) + rest == w.lists[s] + ([it] + rest);
    }
  }

  lemma AddedItem(w: Wheel, id: nat, timeout: nat, times: int, at: nat, s: nat)
    requires Ok(w) && s < |w.lists|
    ensures AddTimer(w, id, timeout, times, at).lists[s] ==
            w.lists[s] + if SlotFor(timeout, w.cur, w.granularity, |w.lists|) != s then []
            else [Item(id, timeout / w.granularity / |w.lists|, timeout, at, times)]
  {
    assert w.lists[s] + [] == w.lists[s];
  }

  /** No call before number `i` has put a timer into its slot. */
  ghost predicate FirstOfSlot(ops: seq<Op>, i: nat, cur: nat, g: nat, slots: nat)
    requires g > 0 && slots > 0
  {
    && i < |ops| && ops[i].Add?
    && forall j :: 0 <= j < i && ops[j].Add? ==>
         SlotFor(ops[j].timeout, cur, g, slots) != SlotFor(ops[i].timeout, cur, g, slots)
  }

  lemma {:induction false} FrontIsFirst(ops: seq<Op>, i: nat, cur: nat, g: nat, slots: nat)
    requires g > 0 && slots > 0 && FirstOfSlot(ops, i, cur, g, slots)
    ensures var list := Appended(ops, SlotFor(ops[i].timeout, cur, g, slots), cur, g, slots);
            list != [] && list[0].registered == ops[i].at && list[0].interval == ops[i].timeout
  {
    hide SlotFor;
    if i > 0 {
      assert forall j :: 0 <= j < i - 1 ==> ops[1..][j] == ops[j + 1];
      FrontIsFirst(ops[1..], i - 1, cur, g, slots);
    }
  }

  lemma {:induction false} FirstIsThere(ops: seq<Op>, s: nat, cur: nat, g: nat, slots: nat) returns (i: nat)
    requires g > 0 && slots > 0 && Appended(ops, s, cur, g, slots) != []
    ensures FirstOfSlot(ops, i, cur, g, slots) && SlotFor(ops[i].timeout, cur, g, slots) == s
  {
    hide SlotFor;
    if ops[0].Add? && SlotFor(ops[0].timeout, cur, g, slots) == s {
      return 0;
    }
    i := FirstIsThere(ops[1..], s, cur, g, slots);
    i := i + 1;
    assert forall j :: 0 < j < i ==> ops[j] == ops[1..][j - 1];
  }

  /** Call number `i` has put the first timer into its slot, with a timeout that ends at `end`. */
  ghost predicate FirstEnds(ops: seq<Op>, i: nat, end: nat, cur: nat, g: nat, slots: nat)
    requires g > 0 && slots > 0
  {
    FirstOfSlot(ops, i, cur, g, slots) && ops[i].at + ops[i].timeout == end
  }

  lemma FirstIsFront(w: Wheel, ops: seq<Op>, i: nat, end: nat)
    requires RearmSpec.Empty(w) && OnlyAdds(ops) && FirstEnds(ops, i, end, w.cur, w.granularity, |w.lists|)
    ensures FrontEnds(Run(w, ops).0.lists, SlotFor(ops[i].timeout, w.cur, w.granularity, |w.lists|), end)
  {
    var s := SlotFor(ops[i].timeout, w.cur, w.granularity, |w.lists|);
    AddsAppend(w, ops, s);
    FrontIsFirst(ops, i, w.cur, w.granularity, |w.lists|);
    assert w.lists[s] == [];
  }

  lemma FrontIsAdded(w: Wheel, ops: seq<Op>, s: nat, end: nat) returns (i: nat)
    requires RearmSpec.Empty(w) && OnlyAdds(ops) && FrontEnds(Run(w, ops).0.lists, s, end)
    ensures FirstEnds(ops, i, end, w.cur, w.granularity, |w.lists|)
  {
    AddsAppend(w, ops, s);
    assert w.lists[s] == [];
    var list := Appended(ops, s, w.cur, w.granularity, |w.lists|);
    assert [] + list == list;
    i := FirstIsThere(ops, s, w.cur, w.granularity, |w.lists|);
    FrontIsFirst(ops, i, w.cur, w.granularity, |w.lists|);
  }

  /** In a wheel built by `AddTimer` calls alone, the next timeout is the least `at + timeout - now` of the timers
      that were the first in their slot, overdue ones left aside, and 0 if all those are overdue. */
  lemma NextTimeoutOfAdds(w: Wheel, ops: seq<Op>, now: nat, r: nat)
    requires RearmSpec.Empty(w) && OnlyAdds(ops) && IsNextTimeout(Run(w, ops).0.lists, now, r)
    ensures var cur, g, slots := w.cur, w.granularity, |w.lists|;
            && (forall i: nat, end: nat :: FirstEnds(ops, i, end, cur, g, slots) && end >= now ==> now + r <= end)
            && ((exists i: nat, end: nat :: FirstEnds(ops, i, end, cur, g, slots) && end >= now) ==>
                  exists i: nat, end: nat :: FirstEnds(ops, i, end, cur, g, slots) && end == now + r)
            && ((forall i: nat, end: nat :: FirstEnds(ops, i, end, cur, g, slots) ==> end < now) ==> r == 0)
  {
    var lists, cur, g, slots := Run(w, ops).0.lists, w.cur, w.granularity, |w.lists|;
    hide Run, FirstEnds, FrontEnds;
    forall i: nat, end: nat | FirstEnds(ops, i, end, cur, g, slots)
      ensures exists s: nat :: FrontEnds(lists, s, end)
    {
      FirstIsFront(w, ops, i, end);
      var s := SlotFor(ops[i].timeout, cur, g, slots);
      assert FrontEnds(lists, s, end);
    }
    forall s: nat, end: nat | FrontEnds(lists, s, end)
      ensures exists i: nat :: FirstEnds(ops, i, end, cur, g, slots)
    {
      var i := FrontIsAdded(w, ops, s, end);
    }
  }

  /** In a wheel with a single timer that has not ended yet, it is the rest of its timeout. */
  lemma NextTimeoutOfOne(w: Wheel, id: nat, timeout: nat, times: int, at: nat, now: nat, r: nat)
    requires RearmSpec.Empty(w) && at <= now <= at + timeout
    requires IsNextTimeout(AddTimer(w, id, timeout, times, at).lists, now, r)
    ensures r == at + timeout - now
  {
    var ops := [Add(id, timeout, times, at)];
    assert ops[1..] == [] && Run(w, ops).0 == AddTimer(w, id, timeout, times, at);
    NextTimeoutOfAdds(w, ops, now, r);
    assert FirstEnds(ops, 0, at + timeout, w.cur, w.granularity, |w.lists|);
    var i: nat, end: nat :| FirstEnds(ops, i, end, w.cur, w.granularity, |w.lists|) && end == now + r;
    assert i == 0;
  }

  // ----- any run -----

  /** The item is that of an `AddTimer` call: re-arming changes neither timeout nor time of registration. */
  ghost predicate AddedBy(ops: seq<Op>, it: Item) {
    exists i :: 0 <= i < |ops| && ops[i].Add? && ops[i].id == it.id && ops[i].timeout == it.interval && ops[i].at == it.registered
  }

  ghost predicate AllAddedBy(ops: seq<Op>, lists: seq<seq<Item>>) {
    forall s, k :: 0 <= s < |lists| && 0 <= k < |lists[s]| ==> AddedBy(ops, lists[s][k])
  }

  lemma SameOrigin(ops: seq<Op>, it: Item, it': Item)
    requires AddedBy(ops, it) && it'.id == it.id && it'.interval == it.interval && it'.registered == it.registered
    ensures AddedBy(ops, it')
  {
  }

  lemma VisitKeepsOrigin(item: Item, cur: nat, g: nat, slots: nat)
    requires g > 0 && cur < slots
    ensures var v := Visit(item, cur, g, slots);
            v != Erase ==> v.it.id == item.id && v.it.interval == item.interval && v.it.registered == item.registered
  {
    hide RoundsOf;
  }

  lemma {:induction false} ScanKeepsOrigins(lists: seq<seq<Item>>, s: nat, cur: nat, g: nat, k: nat, o: nat, ops: seq<Op>)
    requires s < |lists| && cur == (s + 1) % |lists| && g > 0 && TailOk(lists[s], k, o) && AllAddedBy(ops, lists)
    ensures AllAddedBy(ops, Scan(lists, s, cur, g, k, o).0)
    decreases o, |lists[s]| - k
  {
    if k < |lists[s]| {
      ScanUnfolds(lists, s, cur, g, k, o);
      VisitKeepsOrigin(lists[s][k], cur, g, |lists|);
      var n := ScanNext(lists, s, cur, g, k, o);
      hide AddedBy;
      forall t, j | 0 <= t < |n.0| && 0 <= j < |n.0[t]| ensures AddedBy(ops, n.0[t][j]) {
        MoverSpec.ItemAfter(lists, s, cur, g, k, o, t, j);
        var v := Visit(lists[s][k], cur, g, |lists|);
        hide Visit, Scan, ScanNext;
        if v != Erase { SameOrigin(ops, lists[s][k], v.it); }
      }
      hide Scan, ScanNext, AllAddedBy, Visit;
      ScanKeepsOrigins(n.0, s, cur, g, n.1, n.2, ops);
    }
  }

  lemma {:induction false} TicksKeepOrigins(w: Wheel, n: nat, ops: seq<Op>)
    requires Ok(w) && AllAddedBy(ops, w.lists)
    ensures AllAddedBy(ops, Ticks(w, n).0.lists)
    decreases n
  {
    if n > 0 {
      ScanKeepsOrigins(w.lists, w.cur, (w.cur + 1) % |w.lists|, w.granularity, 0, |w.lists[w.cur]|, ops);
      MoverSpec.TickIs(w);
      hide Tick, Scan, AllAddedBy;
      TicksKeepOrigins(Tick(w).0, n - 1, ops);
    }
  }

  lemma AddKeepsOrigins(w: Wheel, done: seq<Op>, op: Op)
    requires Ok(w) && op.Add? && AllAddedBy(done, w.lists)
    ensures AllAddedBy(done + [op], AddTimer(w, op.id, op.timeout, op.times, op.at).lists)
  {
    var w', all := AddTimer(w, op.id, op.timeout, op.times, op.at), done + [op];
    forall s, k | 0 <= s < |w'.lists| && 0 <= k < |w'.lists[s]| ensures AddedBy(all, w'.lists[s][k]) {
      if k < |w.lists[s]| {
        MoreOps(done, op, w.lists[s][k]);
      } else {
        assert all[|done|] == op;
      }
    }
  }

  lemma MoreOps(done: seq<Op>, op: Op, it: Item)
    requires AddedBy(done, it)
    ensures AddedBy(done + [op], it)
  {
    var i :| 0 <= i < |done| && done[i].Add? && done[i].id == it.id && done[i].timeout == it.interval && done[i].at == it.registered;
    assert (done + [op])[i] == done[i];
  }

  lemma {:induction false} RunKeepsOrigins(w: Wheel, done: seq<Op>, ops: seq<Op>)
    requires Ok(w) && AllAddedBy(done, w.lists)
    ensures AllAddedBy(done + ops, Run(w, ops).0.lists)
    decreases |ops|
  {
    if ops == [] {
      assert done + ops == done;
    } else {
      assert done + ops == (done + [ops[0]]) + ops[1..];
      match ops[0]
      case Add(id, timeout, times, at) =>
        AddKeepsOrigins(w, done, ops[0]);
        RunKeepsOrigins(AddTimer(w, id, timeout, times, at), done + [ops[0]], ops[1..]);
      case Exec(now) =>
        if now > w.last { TicksKeepOrigins(w, (now - w.last) / w.granularity, done); }
        var w' := Execute(w, now).0;
        hide Execute, AddedBy;
        forall s, k | 0 <= s < |w'.lists| && 0 <= k < |w'.lists[s]| ensures AddedBy(done + [ops[0]], w'.lists[s][k]) {
          MoreOps(done, ops[0], w'.lists[s][k]);
        }
        RunKeepsOrigins(w', done + [ops[0]], ops[1..]);
    }
  }

  /** After any run from an empty wheel, fires and moves included, the next timeout is 0 or the rest of a timeout
      that was asked for: a repeating timer counts from its registration for ever, and no more once its
      first timeout has ended. */
  lemma NextTimeoutOfRuns(w: Wheel, ops: seq<Op>, now: nat, r: nat)
    requires RearmSpec.Empty(w) && IsNextTimeout(Run(w, ops).0.lists, now, r)
    ensures r == 0 || exists i :: 0 <= i < |ops| && ops[i].Add? && now + r == ops[i].at + ops[i].timeout
  {
    RunKeepsOrigins(w, [], ops);
    assert [] + ops == ops;
    if r != 0 {
      var lists: seq<seq<Item>> := Run(w, ops).0.lists;
      var s: nat, end: nat :| FrontEnds(lists, s, end) && end == now + r;
      assert AddedBy(ops, lists[s][0]);
    }
  }
}
