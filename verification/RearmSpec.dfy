/**
  When repeating timers fire (src/timewheel.cc:43-57): the ticks of a timer that has the wheel to itself, from
  its timeout and the size of the wheel alone, and how far they are from the timeout asked for.
 */
module RearmSpec {
  import opened Arithmetic
  import MoverSpec
  import opened TimeWheelSpec

  /** The ticks from one fire to the next. The new slot is counted from the slot after the one that fired,
      by the rounds instead of the timeout; and a timer spliced to the end of its own list loses a round to
      the scan that fired it. */
  function Period(timeout: nat, g: nat, slots: nat): int
    requires g > 0 && slots > 0
  {
    var r := timeout / g / slots;
    var q := r % slots;
    if q == 0 then (r + 1) * slots
    else if q < slots - 1 then r * slots + q + 1
    else r * slots
  }

  /** Tick `j` is one of those in which a timer fires that is due in tick `first`, fires every `period` ticks,
      and has `times` fires left; fewer than none stand for infinitely many, and 0 counts as 1. */
  predicate FiresAt(j: nat, first: nat, period: int, times: int)
    requires period > 0
  {
    && j >= first && (j - first) % period == 0
    && (times < 0 || (j - first) / period < if times == 0 then 1 else times)
  }

  // ----- the life of a timer -----

  /** What is still to come: nothing, or `count` fires, the first of them in `due` ticks. */
  datatype Life = Over | Next(due: nat, count: int)

  predicate FiresNow(life: Life) {
    life.Next? && life.due == 0
  }

  function Left(count: int): int {
    if count > 0 then count - 1 else count
  }

  /** One tick later. */
  function Later(life: Life, period: int): Life
    requires period > 0
  {
    if life == Over then Over
    else if life.due > 0 then Next(life.due - 1, life.count)
    else if life.count == 0 || life.count == 1 then Over
    else Next(period - 1, Left(life.count))
  }

  function After(life: Life, n: nat, period: int): Life
    requires period > 0
    decreases n
  {
    if n == 0 then life else After(Later(life, period), n - 1, period)
  }

  function Traced(id: nat, life: Life, n: nat, period: int): (r: seq<seq<nat>>)
    requires period > 0
    ensures |r| == n
    decreases n
  {
    if n == 0 then [] else [if FiresNow(life) then [id] else []] + Traced(id, Later(life, period), n - 1, period)
  }

  lemma {:induction false} TracedConcat(id: nat, life: Life, a: nat, b: nat, period: int)
    requires period > 0
    ensures Traced(id, life, a + b, period) == Traced(id, life, a, period) + Traced(id, After(life, a, period), b, period)
    decreases a
  {
    if a > 0 {
      TracedConcat(id, Later(life, period), a - 1, b, period);
    }
  }

  lemma {:induction false} TracedAt(id: nat, life: Life, n: nat, period: int, j: nat)
    requires period > 0 && j < n
    ensures var fires := life.Next? && FiresAt(j, life.due, period, life.count);
            Traced(id, life, n, period)[j] == if fires then [id] else []
    decreases n
  {
    if j == 0 {
      assert life.Next? && life.due == 0 ==> FiresAt(0, 0, period, life.count);
    } else {
      TracedAt(id, Later(life, period), n - 1, period, j - 1);
      if FiresNow(life) { NextFire(j - 1, period, life.count); }
    }
  }

  /** The fires after the first. */
  lemma NextFire(j: nat, period: int, count: int)
    requires period > 0
    ensures if count == 0 || count == 1 then !FiresAt(j + 1, 0, period, count)
            else FiresAt(j + 1, 0, period, count) <==> FiresAt(j, period - 1, period, Left(count))
  {
    var x := j + 1;
    if x < period {
      DivModUnique(x, period, 0, x);
    } else {
      DivModUnique(x - period, period, x / period - 1, x % period) by { Distribute(x / period - 1, 1, period); }
      assert x / period >= 1;
    }
  }

  // ----- one timer in an empty wheel -----

  ghost predicate Empty(w: Wheel) {
    Ok(w) && forall t :: 0 <= t < |w.lists| ==> w.lists[t] == []
  }

  ghost predicate Alone(w: Wheel, s: nat, it: Item) {
    && Ok(w) && s < |w.lists| && w.lists[s] == [it] && it.remaining >= 0
    && forall t :: 0 <= t < |w.lists| && t != s ==> w.lists[t] == []
  }

  /** Timer `id`, with `count` fires left, is the only one in the wheel, and due in `due` ticks. */
  ghost predicate DueAlone(w: Wheel, id: nat, timeout: nat, due: nat, count: int, s: nat, it: Item) {
    && Alone(w, s, it) && it.id == id && it.interval == timeout && it.count == count
    && due == MoverSpec.Due(w.cur, |w.lists|, s, it)
  }

  ghost predicate Lives(w: Wheel, id: nat, timeout: nat, life: Life) {
    match life
    case Over => Empty(w)
    case Next(due, count) => exists s: nat, it: Item :: DueAlone(w, id, timeout, due, count, s, it)
  }

  lemma PeriodPositive(timeout: nat, g: nat, slots: nat)
    requires g > 0 && slots > 0
    ensures Period(timeout, g, slots) > 0
  {
    var r := timeout / g / slots;
    Distribute(r, 1, slots);
    Multiple(r, slots);
    if r > 0 {
      Distribute(r - 1, 1, slots);
      Multiple(r - 1, slots);
    }
  }

  // ----- one tick -----

  lemma EmptyTick(w: Wheel)
    requires Empty(w)
    ensures Empty(Tick(w).0) && Tick(w).1 == []
  {
  }

  lemma OtherSlotTick(w: Wheel, s: nat, it: Item)
    requires Alone(w, s, it) && s != w.cur
    ensures Tick(w) == (w.(cur := (w.cur + 1) % |w.lists|), [])
  {
  }

  lemma WaitingTick(w: Wheel, it: Item)
    requires Alone(w, w.cur, it) && it.remaining > 0
    ensures var it' := it.(remaining := it.remaining - 1);
            Alone(Tick(w).0, w.cur, it') && Tick(w).0.cur == (w.cur + 1) % |w.lists| && Tick(w).1 == []
  {
    var it' := it.(remaining := it.remaining - 1);
    assert [it][0 := it'] == [it'];
    var lists := w.lists[w.cur := [it']];
    assert lists[w.cur] == [it'];
    assert Scan(lists, w.cur, (w.cur + 1) % |w.lists|, w.granularity, 1, 1) == (lists, []);
  }

  lemma LastTick(w: Wheel, it: Item)
    requires Alone(w, w.cur, it) && it.remaining == 0 && (it.count == 0 || it.count == 1)
    ensures Empty(Tick(w).0) && Tick(w).1 == [it.id]
  {
    var lists := w.lists[w.cur := []];
    assert Without([it], 0) == [];
    assert Scan(lists, w.cur, (w.cur + 1) % |w.lists|, w.granularity, 0, 0) == (lists, []);
  }

  function Rearmed(it: Item, remaining: int): Item {
    it.(remaining := remaining, count := Left(it.count))
  }

  /** `q` slots ahead of `cur` on the ring. */
  function Ahead(cur: nat, q: nat, slots: nat): (s: nat)
    requires cur < slots && q < slots
    ensures s < slots
  {
    if cur + q < slots then cur + q else cur + q - slots
  }

  function NextSlot(s: nat, slots: nat): (t: nat)
    requires s < slots
    ensures t < slots
  {
    if s + 1 == slots then 0 else s + 1
  }

  lemma NextSlotIs(s: nat, slots: nat)
    requires s < slots
    ensures (s + 1) % slots == NextSlot(s, slots)
  {
    DivModUnique(s + 1, slots, if s + 1 == slots then 1 else 0, NextSlot(s, slots));
  }

  lemma AheadOfTurns(cur: nat, r: nat, slots: nat)
    requires cur < slots
    ensures SlotAt(cur, r, slots) == Ahead(cur, Rem(r, slots), slots)
  {
    var k, q := Quot(r, slots), Rem(r, slots);
    QuotRem(r, slots);
    hide Quot, Rem, Times;
    TimesAdd(k, 1, slots);
    if cur + q < slots {
      RemIs(cur + r, slots, k, cur + q);
    } else {
      RemIs(cur + r, slots, k + 1, cur + q - slots);
    }
  }

  lemma RemIs(x: nat, n: nat, q: nat, r: nat)
    requires r < n && x == Times(q, n) + r
    ensures x % n == r
  {
    DivModUnique(x, n, q, r);
  }

  lemma NoRounds(r: nat, slots: nat)
    requires slots > 0
    ensures Rem(r, slots) > 0 ==> r > 0
  {
  }

  /** Where a timer of slot `s` is re-armed with `r` rounds: in its own slot, ahead, or, for a remainder of one
      less than the slots, in its own slot by way of the splice. */
  lemma RearmVisit(it: Item, s: nat, g: nat, slots: nat)
    requires s < slots && g > 0 && it.remaining == 0 && it.count != 0 && it.count != 1
    ensures var cur, r := NextSlot(s, slots), RoundsOf(it.interval, g, slots);
            var slot := Ahead(cur, Rem(r, slots), slots);
            Visit(it, cur, g, slots) == if slot == cur then Stay(Rearmed(it, r)) else Move(Rearmed(it, r), slot)
  {
    var cur, r := NextSlot(s, slots), RoundsOf(it.interval, g, slots);
    AheadOfTurns(cur, r, slots);
    assert SlotAt(cur, r, slots) == (cur + r) % slots;
    hide RoundsOf, Ahead, Rem, SlotAt;
  }

  lemma StayScan(lists: seq<seq<Item>>, s: nat, cur: nat, g: nat, it: Item, next: Item)
    requires s < |lists| && cur == (s + 1) % |lists| && g > 0 && lists[s] == [it] && it.remaining == 0
    requires Visit(it, cur, g, |lists|) == Stay(next)
    ensures Scan(lists, s, cur, g, 0, 1) == (lists[s := [next]], [it.id])
  {
    hide Visit;
    ScanUnfolds(lists, s, cur, g, 0, 1);
    assert [it][0 := next] == [next];
    var lists' := lists[s := [next]];
    assert lists'[s] == [next] && ScanNext(lists, s, cur, g, 0, 1) == (lists', 1, 1, [it.id]);
    assert Scan(lists', s, cur, g, 1, 1) == (lists', []);
    assert [it.id] + [] == [it.id];
  }

  /** The scan starts again; at the end of its own list it meets the timer at once. */
  lemma MoveScan(lists: seq<seq<Item>>, s: nat, cur: nat, g: nat, it: Item, next: Item, slot: nat)
    requires s < |lists| && cur == (s + 1) % |lists| && g > 0 && lists[s] == [it] && it.remaining == 0
    requires slot < |lists| && Visit(it, cur, g, |lists|) == Move(next, slot)
    requires if slot == s then next.remaining > 0 else lists[slot] == []
    ensures Scan(lists, s, cur, g, 0, 1) ==
            (if slot == s then lists[s := [next.(remaining := next.remaining - 1)]] else lists[s := []][slot := [next]],
             [it.id])
  {
    hide Visit;
    ScanUnfolds(lists, s, cur, g, 0, 1);
    assert Without([it], 0) == [] && [] + [next] == [next];
    var lists' := Spliced(lists, s, 0, next, slot);
    assert ScanNext(lists, s, cur, g, 0, 1) == (lists', 0, 0, [it.id]);
    if slot == s {
      assert lists[s := []][s := [next]] == lists[s := [next]];
      SplicedBack(lists', s, cur, g, next);
      var waits := next.(remaining := next.remaining - 1);
      assert lists'[s := [waits]] == lists[s := [waits]];
    } else {
      assert Scan(lists', s, cur, g, 0, 0) == (lists', []);
    }
    assert [it.id] + [] == [it.id];
  }

  lemma SplicedBack(lists: seq<seq<Item>>, s: nat, cur: nat, g: nat, next: Item)
    requires s < |lists| && cur == (s + 1) % |lists| && g > 0 && lists[s] == [next] && next.remaining > 0
    ensures Scan(lists, s, cur, g, 0, 0) == (lists[s := [next.(remaining := next.remaining - 1)]], [])
  {
    var waits := next.(remaining := next.remaining - 1);
    ScanUnfolds(lists, s, cur, g, 0, 0);
    assert Visit(next, cur, g, |lists|) == Wait(waits);
    hide Visit;
    assert [next][0 := waits] == [waits];
    var done := lists[s := [waits]];
    assert done[s] == [waits] && ScanNext(lists, s, cur, g, 0, 0) == (done, 1, 0, []);
    assert Scan(done, s, cur, g, 1, 0) == (done, []);
  }

  /** The tick in which a timer fires and is re-armed. */
  lemma RearmingTick(w: Wheel, it: Item) returns (s: nat, next: Item)
    requires Alone(w, w.cur, it) && it.remaining == 0 && it.count != 0 && it.count != 1
    ensures var slots := |w.lists|;
            var r := RoundsOf(it.interval, w.granularity, slots);
            var q := Rem(r, slots);
            var cur, w' := NextSlot(w.cur, slots), Tick(w).0;
            && Tick(w).1 == [it.id] && w'.cur == cur && |w'.lists| == slots && w'.granularity == w.granularity
            && Alone(w', s, next)
            && if q == 0 then s == w.cur && next == Rearmed(it, r)
               else if q < slots - 1 then s == Ahead(cur, q, slots) && next == Rearmed(it, r)
               else r > 0 && s == w.cur && next == Rearmed(it, r - 1)
  {
    var slots, g, cur := |w.lists|, w.granularity, NextSlot(w.cur, |w.lists|);
    var r := RoundsOf(it.interval, g, slots);
    var q := Rem(r, slots);
    NoRounds(r, slots);
    hide RoundsOf, Rem;
    NextSlotIs(w.cur, slots);
    RearmVisit(it, w.cur, g, slots);
    MoverSpec.TickIs(w);
    hide Tick, Visit, NextSlot;
    s, next := w.cur, Rearmed(it, r);
    if q == 0 {
      StayScan(w.lists, s, cur, g, it, next);
    } else {
      var slot := Ahead(cur, q, slots);
      MoveScan(w.lists, w.cur, cur, g, it, next, slot);
      if slot == w.cur {
        next := Rearmed(it, r - 1);
      } else {
        s := slot;
      }
    }
    hide Scan;
  }

  // ----- due times -----

  lemma PeriodInTimes(timeout: nat, g: nat, slots: nat)
    requires g > 0 && slots > 0
    ensures var r := RoundsOf(timeout, g, slots);
            var q := Rem(r, slots);
            Period(timeout, g, slots) ==
            Times(r, slots) + if q == 0 then slots else if q < slots - 1 then q + 1 else 0
  {
    Distribute(timeout / g / slots, 1, slots);
  }

  lemma DueFromNext(s: nat, slots: nat, r: nat, q: nat, it: Item)
    requires s < slots && q < slots && (q > 0 ==> r > 0)
    ensures var cur := NextSlot(s, slots);
            && MoverSpec.Due(cur, slots, s, Rearmed(it, r)) == Times(r, slots) + slots - 1
            && MoverSpec.Due(cur, slots, Ahead(cur, q, slots), Rearmed(it, r)) == Times(r, slots) + q
            && (q > 0 ==> MoverSpec.Due(cur, slots, s, Rearmed(it, r - 1)) == Times(r, slots) - 1)
  {
    if q > 0 { TimesAdd(r - 1, 1, slots); }
    hide Times;
  }

  /** A timer that fires and repeats is due again one period later. */
  lemma RearmedIsDue(w: Wheel, id: nat, timeout: nat, it: Item)
    requires Alone(w, w.cur, it) && it.remaining == 0 && it.count != 0 && it.count != 1
    requires it.id == id && it.interval == timeout
    ensures var due := Period(timeout, w.granularity, |w.lists|) - 1;
            due >= 0 && Lives(Tick(w).0, id, timeout, Next(due, Left(it.count))) && Tick(w).1 == [id]
  {
    var slots := |w.lists|;
    PeriodPositive(timeout, w.granularity, slots);
    PeriodInTimes(timeout, w.granularity, slots);
    var r := RoundsOf(timeout, w.granularity, slots);
    var q := Rem(r, slots);
    NoRounds(r, slots);
    hide RoundsOf, Period, Rem, Tick;
    var s, next := RearmingTick(w, it);
    DueFromNext(w.cur, slots, r, q, it);
    hide Times, MoverSpec.Due, Ahead, NextSlot, Alone;
    var w' := Tick(w).0;
    assert MoverSpec.Due(w'.cur, slots, s, next) == Period(timeout, w.granularity, slots) - 1 by {
      if q == 0 { } else if q < slots - 1 { } else { }
    }
    assert Alone(w', s, next) && next.id == id && next.interval == timeout && next.count == Left(it.count);
    assert DueAlone(Tick(w).0, id, timeout, Period(timeout, w.granularity, slots) - 1, Left(it.count), s, next);
  }

  lemma WaitTick(w: Wheel, id: nat, timeout: nat, life: Life, s: nat, it: Item)
    requires life.Next? && DueAlone(w, id, timeout, life.due, life.count, s, it) && (s != w.cur || it.remaining > 0)
    ensures life.due > 0 && Lives(Tick(w).0, id, timeout, Next(life.due - 1, life.count)) && Tick(w).1 == []
  {
    var slots := |w.lists|;
    if s != w.cur {
      OtherSlotTick(w, s, it);
      MoverSpec.NextDue(w.cur, slots, s, it);
      hide MoverSpec.Due, Tick;
      assert DueAlone(Tick(w).0, id, timeout, life.due - 1, life.count, s, it);
    } else {
      var it' := it.(remaining := it.remaining - 1);
      WaitingTick(w, it);
      MoverSpec.OwnDue(w.cur, slots, it);
      MoverSpec.LaterDue(w.cur, slots, it, it.remaining - 1);
      hide MoverSpec.Due, Tick;
      assert DueAlone(Tick(w).0, id, timeout, life.due - 1, life.count, s, it');
    }
  }

  /** Over one tick: who fires, and what is to come. */
  lemma LifeTick(w: Wheel, id: nat, timeout: nat, life: Life)
    requires Ok(w) && Lives(w, id, timeout, life)
    ensures var period := Period(timeout, w.granularity, |w.lists|);
            && period > 0 && Tick(w).1 == (if FiresNow(life) then [id] else [])
            && Lives(Tick(w).0, id, timeout, Later(life, period)) && Tick(w).0.granularity == w.granularity
  {
    PeriodPositive(timeout, w.granularity, |w.lists|);
    if life == Over {
      EmptyTick(w);
    } else {
      var s: nat, it: Item :| DueAlone(w, id, timeout, life.due, life.count, s, it);
      if s != w.cur || it.remaining > 0 {
        WaitTick(w, id, timeout, life, s, it);
      } else {
        MoverSpec.OwnDue(w.cur, |w.lists|, it);
        if life.count == 0 || life.count == 1 {
          LastTick(w, it);
        } else {
          RearmedIsDue(w, id, timeout, it);
        }
      }
      hide Scan, Lives, Period, Alone;
    }
  }

  // ----- runs -----

  lemma {:induction false} LifeTicks(w: Wheel, id: nat, timeout: nat, life: Life, n: nat)
    requires Ok(w) && Lives(w, id, timeout, life)
    ensures var period := Period(timeout, w.granularity, |w.lists|);
            && period > 0 && Ticks(w, n).1 == Traced(id, life, n, period)
            && Lives(Ticks(w, n).0, id, timeout, After(life, n, period))
    decreases n
  {
    LifeTick(w, id, timeout, life);
    hide Tick, Lives, Period, Later, FiresNow;
    if n > 0 {
      LifeTicks(Tick(w).0, id, timeout, Later(life, Period(timeout, w.granularity, |w.lists|)), n - 1);
    }
  }

  /** The run only calls `ExecuteTimeout`. */
  ghost predicate Polls(ops: seq<Op>) {
    forall i :: 0 <= i < |ops| ==> ops[i].Exec?
  }

  lemma LifeExecute(w: Wheel, id: nat, timeout: nat, life: Life, now: nat)
    requires Ok(w) && Lives(w, id, timeout, life)
    ensures var period, r := Period(timeout, w.granularity, |w.lists|), Execute(w, now);
            && period > 0 && r.1 == Traced(id, life, |r.1|, period)
            && Lives(r.0, id, timeout, After(life, |r.1|, period))
  {
    PeriodPositive(timeout, w.granularity, |w.lists|);
    if now > w.last {
      var n := (now - w.last) / w.granularity;
      LifeTicks(w, id, timeout, life, n);
      hide Lives, Period;
      StampKeepsLife(Ticks(w, n).0, id, timeout, After(life, n, Period(timeout, w.granularity, |w.lists|)), now);
    }
  }

  lemma StampKeepsLife(w: Wheel, id: nat, timeout: nat, life: Life, now: nat)
    requires Lives(w, id, timeout, life)
    ensures Lives(w.(last := now), id, timeout, life)
  {
    if life.Next? {
      var s: nat, it: Item :| DueAlone(w, id, timeout, life.due, life.count, s, it);
      assert DueAlone(w.(last := now), id, timeout, life.due, life.count, s, it);
    }
  }

  lemma {:induction false} LifeRun(w: Wheel, id: nat, timeout: nat, life: Life, ops: seq<Op>)
    requires Ok(w) && Lives(w, id, timeout, life) && Polls(ops)
    ensures var period, trace := Period(timeout, w.granularity, |w.lists|), Run(w, ops).1;
            period > 0 && trace == Traced(id, life, |trace|, period)
    decreases |ops|
  {
    PeriodPositive(timeout, w.granularity, |w.lists|);
    if ops != [] {
      assert ops[0].Exec?;
      var period, now := Period(timeout, w.granularity, |w.lists|), ops[0].now;
      LifeExecute(w, id, timeout, life, now);
      var first := Execute(w, now);
      hide Execute, Lives, Period, Traced, After;
      LifeRun(first.0, id, timeout, After(life, |first.1|, period), ops[1..]);
      TracedConcat(id, life, |first.1|, |Run(first.0, ops[1..]).1|, period);
    }
  }

  /** A timer that has the wheel to itself, with any timeout and any number of fires: over any polling, it fires
      for the first time in the tick with index `timeout / granularity` after its registration, then once
      every `Period` ticks, until it has fired as often as asked for, and in no other tick. */
  lemma RepeatingTimerFires(w: Wheel, id: nat, timeout: nat, times: int, at: nat, ops: seq<Op>)
    requires Empty(w) && Polls(ops)
    ensures var period, trace := Period(timeout, w.granularity, |w.lists|), Run(AddTimer(w, id, timeout, times, at), ops).1;
            && period > 0
            && forall j :: 0 <= j < |trace| ==>
                 trace[j] == if FiresAt(j, timeout / w.granularity, period, times) then [id] else []
  {
    var slots, ticks := |w.lists|, timeout / w.granularity;
    var w', s := AddTimer(w, id, timeout, times, at), (w.cur + ticks) % slots;
    var it := Item(id, ticks / slots, timeout, at, times);
    assert [] + [it] == [it];
    MoverSpec.DueOfTicks(w.cur, slots, ticks, it);
    hide MoverSpec.Due;
    assert DueAlone(w', id, timeout, ticks, times, s, it);
    hide AddTimer;
    LifeRun(w', id, timeout, Next(ticks, times), ops);
    var period, trace := Period(timeout, w.granularity, slots), Run(w', ops).1;
    forall j | 0 <= j < |trace| ensures trace[j] == if FiresAt(j, ticks, period, times) then [id] else [] {
      TracedAt(id, Next(ticks, times), |trace|, period, j);
    }
  }

  /** The repeat interval that was asked for, `timeout / granularity` ticks, is kept if and only if the rounds
      modulo the slots are one less than what the timeout has beyond whole turns, and not 0; or the
      timeout is a number of whole turns, and the rounds are one less than a multiple of the slots. */
  lemma PeriodIsTimeoutExactly(timeout: nat, g: nat, slots: nat)
    requires g > 0 && slots > 0
    ensures var ticks := timeout / g;
            var q, m := ticks / slots % slots, ticks % slots;
            Period(timeout, g, slots) == ticks <==>
              (0 < q < slots - 1 && m == q + 1) || (0 < q == slots - 1 && m == 0)
  {
    var ticks := timeout / g;
    var r := ticks / slots;
    assert ticks == r * slots + ticks % slots;
    Distribute(r, 1, slots);
  }

  /** In particular, a timeout of less than one turn repeats once a turn. */
  lemma ShortTimeoutsRepeatEveryTurn(timeout: nat, g: nat, slots: nat)
    requires g > 0 && slots > 0 && timeout / g < slots
    ensures Period(timeout, g, slots) == slots
  {
    DivModUnique(timeout / g, slots, 0, timeout / g);
  }
}
