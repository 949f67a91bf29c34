/**
  What repeating timers that change their slot do to one-shot timers (src/timewheel.cc:34-62): the exact
  condition under which the restart of the scan takes an extra round from one, over any run.
 */
module MoverSpec {
  import opened Arithmetic
  import opened Common
  import opened TimeWheelSpec

  predicate OneShot(it: Item) {
    it.remaining >= 0 && (it.count == 0 || it.count == 1)
  }

  ghost predicate Absent(lists: seq<seq<Item>>, x: nat) {
    forall t, j :: 0 <= t < |lists| && 0 <= j < |lists[t]| ==> lists[t][j].id != x
  }

  /** Timer `x` is the item at one place only. */
  ghost predicate Only(lists: seq<seq<Item>>, x: nat, s: nat, i: nat) {
    && s < |lists| && i < |lists[s]| && lists[s][i].id == x
    && forall t, j :: 0 <= t < |lists| && 0 <= j < |lists[t]| && lists[t][j].id == x ==> t == s && j == i
  }

  /** Some item from index `from` on fires at its next visit and gets a new slot. */
  ghost predicate MoverFrom(list: seq<Item>, from: nat, cur: nat, g: nat, slots: nat)
    requires g > 0 && cur < slots
  {
    exists j :: from <= j < |list| && Visit(list[j], cur, g, slots).Move?
  }

  // ----- one scan -----

  lemma {:induction false} ScanAbsent(lists: seq<seq<Item>>, s: nat, cur: nat, g: nat, k: nat, o: nat, x: nat)
    requires s < |lists| && cur == (s + 1) % |lists| && g > 0 && TailOk(lists[s], k, o)
    requires Absent(lists, x)
    ensures var r := Scan(lists, s, cur, g, k, o); Absent(r.0, x) && multiset(r.1)[x] == 0
    decreases o, |lists[s]| - k
  {
    if k < |lists[s]| {
      ScanUnfolds(lists, s, cur, g, k, o);
      NextAbsent(lists, s, cur, g, k, o, x);
      hide Scan, ScanNext, Absent, TailOk;
      var n := ScanNext(lists, s, cur, g, k, o);
      ScanAbsent(n.0, s, cur, g, n.1, n.2, x);
    }
  }

  lemma NextAbsent(lists: seq<seq<Item>>, s: nat, cur: nat, g: nat, k: nat, o: nat, x: nat)
    requires s < |lists| && cur < |lists| && g > 0 && k < |lists[s]| && (o == 0 ==> lists[s][k].remaining > 0)
    requires Absent(lists, x)
    ensures var n := ScanNext(lists, s, cur, g, k, o); Absent(n.0, x) && multiset(n.3)[x] == 0
  {
    VisitId(lists[s][k], cur, g, |lists|);
    hide Visit;
    assert lists[s][k].id != x;
    var n := ScanNext(lists, s, cur, g, k, o);
    forall t, j | 0 <= t < |n.0| && 0 <= j < |n.0[t]| ensures n.0[t][j].id != x {
      ItemAfter(lists, s, cur, g, k, o, t, j);
    }
  }

  /** Where an item stood before a round of the scan: it is the visited one, or an unchanged one. */
  lemma ItemAfter(lists: seq<seq<Item>>, s: nat, cur: nat, g: nat, k: nat, o: nat, t: nat, j: nat)
    requires s < |lists| && cur < |lists| && g > 0 && k < |lists[s]| && (o == 0 ==> lists[s][k].remaining > 0)
    requires var n := ScanNext(lists, s, cur, g, k, o); t < |n.0| && j < |n.0[t]|
    ensures var n, v := ScanNext(lists, s, cur, g, k, o), Visit(lists[s][k], cur, g, |lists|);
            && |n.0| == |lists|
            && var gone := v.Erase? || v.Move?;
            if t == s && gone && j < |lists[s]| - 1 then n.0[t][j] == lists[s][if j < k then j else j + 1]
            else if t == s && !gone then j < |lists[s]| && n.0[t][j] == if j == k then v.it else lists[s][j]
            else if t != s && j < |lists[t]| then n.0[t][j] == lists[t][j]
            else v.Move? && t == v.slot && n.0[t][j] == v.it
  {
    hide Visit;
  }

  predicate Leaves(lists: seq<seq<Item>>, s: nat, cur: nat, g: nat, k: nat)
    requires s < |lists| && cur < |lists| && g > 0 && k < |lists[s]|
  {
    var v := Visit(lists[s][k], cur, g, |lists|);
    v.Erase? || v.Move?
  }

  /** Where the item at index `i` of list `t` stands after the round. */
  function Shifted(lists: seq<seq<Item>>, s: nat, cur: nat, g: nat, k: nat, t: nat, i: nat): nat
    requires s < |lists| && cur < |lists| && g > 0 && k < |lists[s]|
  {
    if t == s && i > k && Leaves(lists, s, cur, g, k) then i - 1 else i
  }

  lemma ItemKept(lists: seq<seq<Item>>, s: nat, cur: nat, g: nat, k: nat, o: nat, t: nat, i: nat)
    requires s < |lists| && cur < |lists| && g > 0 && k < |lists[s]| && (o == 0 ==> lists[s][k].remaining > 0)
    requires t < |lists| && i < |lists[t]| && !(t == s && i == k)
    ensures var n, i' := ScanNext(lists, s, cur, g, k, o), Shifted(lists, s, cur, g, k, t, i);
            |n.0| == |lists| && i' < |n.0[t]| && n.0[t][i'] == lists[t][i]
  {
    hide Visit;
  }

  /** A round that visits another item leaves timer `x` as it is. */
  lemma OtherVisited(lists: seq<seq<Item>>, s: nat, cur: nat, g: nat, k: nat, o: nat, x: nat, t: nat, i: nat)
    requires s < |lists| && cur < |lists| && g > 0 && k < |lists[s]| && (o == 0 ==> lists[s][k].remaining > 0)
    requires Only(lists, x, t, i) && !(t == s && i == k)
    ensures var n, i' := ScanNext(lists, s, cur, g, k, o), Shifted(lists, s, cur, g, k, t, i);
            Only(n.0, x, t, i') && n.0[t][i'] == lists[t][i] && multiset(n.3)[x] == 0
  {
    VisitId(lists[s][k], cur, g, |lists|);
    ItemKept(lists, s, cur, g, k, o, t, i);
    assert lists[s][k].id != x;
    var n, i' := ScanNext(lists, s, cur, g, k, o), Shifted(lists, s, cur, g, k, t, i);
    forall u, j | 0 <= u < |n.0| && 0 <= j < |n.0[u]| && n.0[u][j].id == x ensures u == t && j == i' {
      ItemAfter(lists, s, cur, g, k, o, u, j);
    }
    hide Visit;
  }

  /** The movers behind index `from` stay behind it in a round that visits an item before it. */
  lemma MoversBehind(lists: seq<seq<Item>>, s: nat, cur: nat, g: nat, k: nat, o: nat, from: nat)
    requires s < |lists| && cur == (s + 1) % |lists| && g > 0 && k < |lists[s]| && (o == 0 ==> lists[s][k].remaining > 0)
    requires k < from <= |lists[s]|
    ensures var n := ScanNext(lists, s, cur, g, k, o);
            && |n.0| == |lists|
            && var from' := if Leaves(lists, s, cur, g, k) then from - 1 else from;
            MoverFrom(n.0[s], from', cur, g, |lists|) <==> MoverFrom(lists[s], from, cur, g, |lists|)
  {
    var n, leaves := ScanNext(lists, s, cur, g, k, o), Leaves(lists, s, cur, g, k);
    var from' := if leaves then from - 1 else from;
    assert MovedWaits(lists[s][k], cur, g, |lists|);
    hide Visit;
    if MoverFrom(lists[s], from, cur, g, |lists|) {
      var j :| from <= j < |lists[s]| && Visit(lists[s][j], cur, g, |lists|).Move?;
      ItemKept(lists, s, cur, g, k, o, s, j);
      assert from' <= (if leaves then j - 1 else j) < |n.0[s]|;
    }
    if MoverFrom(n.0[s], from', cur, g, |lists|) {
      var j :| from' <= j < |n.0[s]| && Visit(n.0[s][j], cur, g, |lists|).Move?;
      ItemAfter(lists, s, cur, g, k, o, s, j);
    }
  }

  /** An item moved to the list that is being scanned has a round to go. */
  ghost predicate MovedWaits(item: Item, cur: nat, g: nat, slots: nat)
    requires g > 0 && cur < slots
  {
    var v := Visit(item, cur, g, slots);
    v.Move? && (v.slot + 1) % slots == cur ==> Visit(v.it, cur, g, slots).Wait?
  }

  /** What a scan does to a one-shot timer with `rounds` rounds left that it may still take one from: the
      timer has fired once, or it is still in its list, with at most as many rounds. */
  datatype Fate = Fired | Left(i: nat, rounds: int)

  ghost predicate FateOk(r: (seq<seq<Item>>, seq<nat>), x: nat, s: nat, it: Item, fate: Fate) {
    match fate
    case Fired => Absent(r.0, x) && multiset(r.1)[x] == 1
    case Left(i, rounds) =>
      Only(r.0, x, s, i) && rounds >= 0 && r.0[s][i] == it.(remaining := rounds) && multiset(r.1)[x] == 0
  }

  /** The scan at index `k`, with timer `x` at index `i`. Unless the scan has to pass it again, the timer
      keeps its rounds exactly if no mover is still to be visited; else it loses exactly one exactly
      if no mover stands behind it. It never keeps more. */
  lemma {:induction false} ScanOne(lists: seq<seq<Item>>, s: nat, cur: nat, g: nat, k: nat, o: nat, x: nat, i: nat) returns (fate: Fate)
    requires s < |lists| && cur == (s + 1) % |lists| && g > 0 && TailOk(lists[s], k, o)
    requires Only(lists, x, s, i) && OneShot(lists[s][i])
    ensures FateOk(Scan(lists, s, cur, g, k, o), x, s, lists[s][i], fate)
    ensures var low := lists[s][i].remaining - if k <= i then 1 else 0;
            && (fate.Left? ==> fate.rounds <= low)
            && (fate.Left? && fate.rounds == low <==>
                  low >= 0 && !MoverFrom(lists[s], if k <= i then i + 1 else k, cur, g, |lists|))
    decreases o, |lists[s]| - k
  {
    var it := lists[s][i];
    if k == |lists[s]| {
      return Left(i, it.remaining);
    }
    ScanUnfolds(lists, s, cur, g, k, o);
    var n := ScanNext(lists, s, cur, g, k, o);
    if k == i {
      fate := ScanAtTimer(lists, s, cur, g, k, o, x);
    } else {
      fate := ScanElsewhere(lists, s, cur, g, k, o, x, i);
    }
  }

  lemma {:induction false} ScanAtTimer(lists: seq<seq<Item>>, s: nat, cur: nat, g: nat, k: nat, o: nat, x: nat) returns (fate: Fate)
    requires s < |lists| && cur == (s + 1) % |lists| && g > 0 && TailOk(lists[s], k, o)
    requires Only(lists, x, s, k) && OneShot(lists[s][k])
    ensures FateOk(Scan(lists, s, cur, g, k, o), x, s, lists[s][k], fate)
    ensures var low := lists[s][k].remaining - 1;
            && (fate.Left? ==> fate.rounds <= low)
            && (fate.Left? && fate.rounds == low <==> low >= 0 && !MoverFrom(lists[s], k + 1, cur, g, |lists|))
    decreases o, |lists[s]| - k, 0
  {
    var it := lists[s][k];
    ScanUnfolds(lists, s, cur, g, k, o);
    var n := ScanNext(lists, s, cur, g, k, o);
    if it.remaining > 0 {
      assert n == (lists[s := lists[s][k := it.(remaining := it.remaining - 1)]], k + 1, o, []);
      MoversBehind(lists, s, cur, g, k, o, k + 1);
      hide Scan, Visit, MoverFrom;
      fate := ScanOne(n.0, s, cur, g, k + 1, o, x, k);
      assert [] + Scan(n.0, s, cur, g, k + 1, o).1 == Scan(n.0, s, cur, g, k + 1, o).1;
    } else {
      assert Visit(it, cur, g, |lists|).Erase?;
      assert n == (lists[s := Without(lists[s], k)], k, o - 1, [x]);
      assert Absent(n.0, x);
      hide Scan, Visit;
      ScanAbsent(n.0, s, cur, g, k, o - 1, x);
      fate := Fired;
    }
  }

  lemma {:induction false} ScanElsewhere(lists: seq<seq<Item>>, s: nat, cur: nat, g: nat, k: nat, o: nat, x: nat, i: nat) returns (fate: Fate)
    requires s < |lists| && cur == (s + 1) % |lists| && g > 0 && TailOk(lists[s], k, o)
    requires Only(lists, x, s, i) && OneShot(lists[s][i]) && k < |lists[s]| && k != i
    ensures FateOk(Scan(lists, s, cur, g, k, o), x, s, lists[s][i], fate)
    ensures var low := lists[s][i].remaining - if k <= i then 1 else 0;
            && (fate.Left? ==> fate.rounds <= low)
            && (fate.Left? && fate.rounds == low <==>
                  low >= 0 && !MoverFrom(lists[s], if k <= i then i + 1 else k, cur, g, |lists|))
    decreases o, |lists[s]| - k, 0
  {
    ScanUnfolds(lists, s, cur, g, k, o);
    OtherVisited(lists, s, cur, g, k, o, x, s, i);
    var n, i' := ScanNext(lists, s, cur, g, k, o), Shifted(lists, s, cur, g, k, s, i);
    if k < i {
      MoversBehind(lists, s, cur, g, k, o, i + 1);
    } else if !Visit(lists[s][k], cur, g, |lists|).Move? {
      MoversBehind(lists, s, cur, g, k, o, k + 1);
      assert MoverFrom(lists[s], k, cur, g, |lists|) <==> MoverFrom(lists[s], k + 1, cur, g, |lists|);
    } else {
      assert MoverFrom(lists[s], k, cur, g, |lists|);
    }
    assert n.1 == if Visit(lists[s][k], cur, g, |lists|).Move? then 0 else if Leaves(lists, s, cur, g, k) then k else k + 1;
    hide Scan, ScanNext, Visit, MoverFrom, Only, TailOk;
    fate := ScanOne(n.0, s, cur, g, n.1, n.2, x, i');
  }

  /** The exact effect of a mover in one scan: a one-shot timer with rounds to go loses exactly one of them
      if and only if no item behind it in its list fires and gets a new slot at its next visit. */
  lemma LosesOneRoundExactly(lists: seq<seq<Item>>, s: nat, cur: nat, g: nat, x: nat, i: nat)
    requires s < |lists| && cur == (s + 1) % |lists| && g > 0
    requires Only(lists, x, s, i) && OneShot(lists[s][i]) && lists[s][i].remaining > 0
    ensures var r, it := Scan(lists, s, cur, g, 0, |lists[s]|).0, lists[s][i];
            (exists j: nat :: Only(r, x, s, j) && r[s][j] == it.(remaining := it.remaining - 1))
            <==> !MoverFrom(lists[s], i + 1, cur, g, |lists|)
  {
    var fate := ScanOne(lists, s, cur, g, 0, |lists[s]|, x, i);
    var r, it := Scan(lists, s, cur, g, 0, |lists[s]|), lists[s][i];
    hide Scan, MoverFrom;
    FateIsWhere(r, x, s, it, fate);
  }

  lemma FateIsWhere(r: (seq<seq<Item>>, seq<nat>), x: nat, s: nat, it: Item, fate: Fate)
    requires FateOk(r, x, s, it, fate) && it.remaining > 0
    ensures (exists j: nat :: Only(r.0, x, s, j) && r.0[s][j] == it.(remaining := it.remaining - 1))
            <==> fate.Left? && fate.rounds == it.remaining - 1
  {
    if j: nat :| Only(r.0, x, s, j) && r.0[s][j] == it.(remaining := it.remaining - 1) {
      assert r.0[s][j].id == x;
    }
  }

  lemma {:induction false} ScanOther(lists: seq<seq<Item>>, s: nat, cur: nat, g: nat, k: nat, o: nat, x: nat, t: nat, i: nat)
    requires s < |lists| && cur == (s + 1) % |lists| && g > 0 && TailOk(lists[s], k, o)
    requires Only(lists, x, t, i) && t != s
    ensures var r := Scan(lists, s, cur, g, k, o); Only(r.0, x, t, i) && r.0[t][i] == lists[t][i] && multiset(r.1)[x] == 0
    decreases o, |lists[s]| - k
  {
    if k < |lists[s]| {
      ScanUnfolds(lists, s, cur, g, k, o);
      OtherVisited(lists, s, cur, g, k, o, x, t, i);
      var n := ScanNext(lists, s, cur, g, k, o);
      hide Scan, ScanNext, Only, TailOk;
      ScanOther(n.0, s, cur, g, n.1, n.2, x, t, i);
    }
  }

  // ----- ticks -----

  /** The ticks until the scan meets an item of slot `s` with no round to go. */
  function Due(cur: nat, slots: nat, s: nat, it: Item): (d: nat)
    requires cur < slots && s < slots && it.remaining >= 0
  {
    (if s >= cur then s - cur else s - cur + slots) + Times(it.remaining, slots)
  }

  /** One-shot timer `x` is in the wheel, due in `d` ticks. */
  ghost predicate DueIn(w: Wheel, x: nat, d: int) {
    Ok(w) && exists s: nat, i: nat :: Standing(w, x, s, i) && d == Due(w.cur, |w.lists|, s, w.lists[s][i])
  }

  ghost predicate Standing(w: Wheel, x: nat, s: nat, i: nat) {
    Only(w.lists, x, s, i) && OneShot(w.lists[s][i])
  }

  /** The next tick takes more than a round from one-shot timer `x`: in the slot that is scanned next it has
      rounds to go, and an item behind it fires and moves. */
  ghost predicate Disturbed(w: Wheel, x: nat)
    requires Ok(w)
  {
    exists i :: 0 <= i < |w.lists[w.cur]| && w.lists[w.cur][i].id == x && w.lists[w.cur][i].remaining > 0
      && MoverFrom(w.lists[w.cur], i + 1, (w.cur + 1) % |w.lists|, w.granularity, |w.lists|)
  }

  /** What becomes of a one-shot timer: it fires in a tick, or is still due in some ticks. */
  datatype Course = Fires(tick: nat) | Waits(due: nat)

  ghost predicate CourseOk(w: Wheel, trace: seq<seq<nat>>, x: nat, c: Course) {
    match c
    case Fires(tick) =>
      Absent(w.lists, x) && tick < |trace| && FiresOnlyIn(trace, x, tick)
    case Waits(due) => DueIn(w, x, due) && FiresOnlyIn(trace, x, |trace|)
  }

  ghost predicate FiresOnlyIn(trace: seq<seq<nat>>, x: nat, tick: nat) {
    forall j :: 0 <= j < |trace| ==> multiset(trace[j])[x] == if j == tick then 1 else 0
  }

  /** The course of a timer due in `d` ticks, over `n` ticks: never late, and on time exactly if it was
      not disturbed. */
  predicate Bounds(d: nat, n: nat, c: Course) {
    match c case Fires(tick) => tick <= d case Waits(due) => due + n <= d
  }

  predicate Punctual(d: nat, n: nat, c: Course) {
    match c case Fires(tick) => tick == d case Waits(due) => due + n == d
  }

  lemma OneTick(w: Wheel, x: nat, d: nat) returns (c: Course)
    requires DueIn(w, x, d)
    ensures CourseOk(Tick(w).0, [Tick(w).1], x, c) && Bounds(d, 1, c) && (Punctual(d, 1, c) <==> !Disturbed(w, x))
  {
    var s: nat, i: nat :| Standing(w, x, s, i) && d == Due(w.cur, |w.lists|, s, w.lists[s][i]);
    if s == w.cur {
      c := OwnTick(w, x, i);
    } else {
      c := OtherTick(w, x, s, i);
    }
  }

  lemma OtherTick(w: Wheel, x: nat, s: nat, i: nat) returns (c: Course)
    requires Ok(w) && Standing(w, x, s, i) && s != w.cur
    ensures var d := Due(w.cur, |w.lists|, s, w.lists[s][i]);
            CourseOk(Tick(w).0, [Tick(w).1], x, c) && Bounds(d, 1, c) && Punctual(d, 1, c) && !Disturbed(w, x)
  {
    var slots, cur := |w.lists|, (w.cur + 1) % |w.lists|;
    ScanOther(w.lists, w.cur, cur, w.granularity, 0, |w.lists[w.cur]|, x, s, i);
    NextDue(w.cur, slots, s, w.lists[s][i]);
    TickIs(w);
    hide Scan, MoverFrom, Tick, Due;
    var w' := Tick(w).0;
    assert Standing(w', x, s, i);
    c := Waits(Due(w.cur, slots, s, w.lists[s][i]) - 1);
  }

  lemma OwnTick(w: Wheel, x: nat, i: nat) returns (c: Course)
    requires Ok(w) && Standing(w, x, w.cur, i)
    ensures var d := Due(w.cur, |w.lists|, w.cur, w.lists[w.cur][i]);
            && CourseOk(Tick(w).0, [Tick(w).1], x, c) && Bounds(d, 1, c)
            && (Punctual(d, 1, c) <==> !Disturbed(w, x))
  {
    var s, it, slots, cur := w.cur, w.lists[w.cur][i], |w.lists|, (w.cur + 1) % |w.lists|;
    var fate := ScanOne(w.lists, s, cur, w.granularity, 0, |w.lists[s]|, x, i);
    assert Disturbed(w, x) <==> it.remaining > 0 && MoverFrom(w.lists[s], i + 1, cur, w.granularity, slots);
    OwnDue(w.cur, slots, it);
    TickIs(w);
    hide Scan, Times, MoverFrom, Disturbed, Due, Tick;
    var w' := Tick(w).0;
    match fate
    case Fired => c := Fires(0);
    case Left(j, rounds) =>
      assert Standing(w', x, s, j);
      c := Waits(Due(w'.cur, slots, s, w'.lists[s][j]));
      LaterDue(w.cur, slots, it, rounds);
  }

  lemma TickIs(w: Wheel)
    requires Ok(w)
    ensures var cur, r := (w.cur + 1) % |w.lists|, Tick(w);
            var scan := Scan(w.lists, w.cur, cur, w.granularity, 0, |w.lists[w.cur]|);
            r.0 == w.(lists := scan.0, cur := cur) && r.1 == scan.1
  {
  }

  lemma OwnDue(cur: nat, slots: nat, it: Item)
    requires cur < slots && it.remaining >= 0
    ensures Due(cur, slots, cur, it) == 0 <==> it.remaining == 0
  {
    TimesMono(0, it.remaining, slots);
    TimesAdd(0, 0, slots);
    if it.remaining > 0 {
      TimesMono(1, it.remaining, slots);
    }
  }

  lemma LaterDue(cur: nat, slots: nat, it: Item, rounds: nat)
    requires cur < slots && rounds < it.remaining
    ensures var d, d' := Due(cur, slots, cur, it), Due((cur + 1) % slots, slots, cur, it.(remaining := rounds));
            d' + 1 <= d && (d' + 1 == d <==> rounds + 1 == it.remaining)
  {
    hide Times;
    assert (cur + 1) % slots == if cur + 1 == slots then 0 else cur + 1;
    TimesAdd(rounds, 1, slots);
    TimesMono(rounds + 1, it.remaining, slots);
    if rounds + 1 < it.remaining {
      TimesAdd(rounds + 1, 1, slots);
      TimesMono(rounds + 2, it.remaining, slots);
    }
  }

  lemma NextDue(cur: nat, slots: nat, s: nat, it: Item)
    requires cur < slots && s < slots && s != cur && it.remaining >= 0
    ensures Due((cur + 1) % slots, slots, s, it) + 1 == Due(cur, slots, s, it)
  {
    hide Times;
    assert (cur + 1) % slots == if cur + 1 == slots then 0 else cur + 1;
  }

  /** No tick of the next `n` takes more than a round from timer `x`. */
  ghost predicate CalmTicks(w: Wheel, n: nat, x: nat)
    requires Ok(w)
    decreases n
  {
    n > 0 ==> !Disturbed(w, x) && CalmTicks(Tick(w).0, n - 1, x)
  }

  lemma {:induction false} TicksAbsent(w: Wheel, n: nat, x: nat)
    requires Ok(w) && Absent(w.lists, x)
    ensures var r := Ticks(w, n); Absent(r.0.lists, x) && FiresOnlyIn(r.1, x, n) && CalmTicks(w, n, x)
    decreases n
  {
    if n > 0 {
      ScanAbsent(w.lists, w.cur, (w.cur + 1) % |w.lists|, w.granularity, 0, |w.lists[w.cur]|, x);
      assert !Disturbed(w, x);
      TickIs(w);
      hide Tick, Scan, Absent, Disturbed;
      TicksAbsent(Tick(w).0, n - 1, x);
    }
  }

  function Delayed(n: nat, c: Course): Course {
    match c case Fires(tick) => Fires(n + tick) case Waits(due) => c
  }

  /** A piece of a run after another. */
  lemma CourseAfter(w: Wheel, a: seq<seq<nat>>, b: seq<seq<nat>>, x: nat, c: Course)
    requires FiresOnlyIn(a, x, |a|) && CourseOk(w, b, x, c)
    ensures CourseOk(w, a + b, x, Delayed(|a|, c))
  {
    hide DueIn, Absent;
    forall j | 0 <= j < |a + b|
      ensures multiset((a + b)[j])[x] == if j < |a| then 0 else multiset(b[j - |a|])[x]
    {
    }
  }

  lemma CourseEnded(w: Wheel, a: seq<seq<nat>>, b: seq<seq<nat>>, x: nat, tick: nat)
    requires tick < |a| && FiresOnlyIn(a, x, tick) && FiresOnlyIn(b, x, |b|) && Absent(w.lists, x)
    ensures CourseOk(w, a + b, x, Fires(tick))
  {
    forall j | 0 <= j < |a + b|
      ensures multiset((a + b)[j])[x] == if j < |a| then multiset(a[j])[x] else multiset(b[j - |a|])[x]
    {
    }
  }

  lemma {:induction false} ManyTicks(w: Wheel, x: nat, d: nat, n: nat) returns (c: Course)
    requires DueIn(w, x, d)
    ensures CourseOk(Ticks(w, n).0, Ticks(w, n).1, x, c) && Bounds(d, n, c) && (Punctual(d, n, c) <==> CalmTicks(w, n, x))
    decreases n
  {
    if n == 0 {
      return Waits(d);
    }
    var first := OneTick(w, x, d);
    var w1, t1 := Tick(w).0, [Tick(w).1];
    var rest := Ticks(w1, n - 1);
    assert Ticks(w, n) == (rest.0, t1 + rest.1);
    hide Tick, Ticks, Disturbed, DueIn;
    match first
    case Fires(tick) =>
      TicksAbsent(w1, n - 1, x);
      CourseEnded(rest.0, t1, rest.1, x, tick);
      c := first;
    case Waits(due) =>
      var c2 := ManyTicks(w1, x, due, n - 1);
      CourseAfter(rest.0, t1, rest.1, x, c2);
      c := Delayed(1, c2);
  }

  // ----- runs -----

  function TicksOf(w: Wheel, now: nat): nat
    requires Ok(w)
  {
    if now <= w.last then 0 else (now - w.last) / w.granularity
  }

  /** No tick of the run takes more than a round from timer `x`: whenever the slot of the timer is scanned
      before its last round, no item behind it fires and moves. */
  ghost predicate Calm(w: Wheel, ops: seq<Op>, x: nat)
    requires Ok(w)
    decreases |ops|
  {
    if ops == [] then true else
    match ops[0]
    case Add(id, timeout, times, at) => Calm(AddTimer(w, id, timeout, times, at), ops[1..], x)
    case Exec(now) => CalmTicks(w, TicksOf(w, now), x) && Calm(Execute(w, now).0, ops[1..], x)
  }

  lemma ExecuteIsTicks(w: Wheel, now: nat)
    requires Ok(w)
    ensures var n := TicksOf(w, now);
            Execute(w, now).1 == Ticks(w, n).1 && exists last :: Execute(w, now).0 == Ticks(w, n).0.(last := last)
  {
    assert w.(last := w.last) == w && Ticks(w, 0) == (w, []);
    if now > w.last {
      assert Execute(w, now).0 == Ticks(w, TicksOf(w, now)).0.(last := now);
    } else {
      assert Execute(w, now).0 == Ticks(w, 0).0.(last := w.last);
    }
  }

  lemma AddOther(w: Wheel, id: nat, timeout: nat, times: int, at: nat, x: nat)
    requires Ok(w) && id != x
    ensures var w' := AddTimer(w, id, timeout, times, at);
            (Absent(w.lists, x) ==> Absent(w'.lists, x)) && forall d :: DueIn(w, x, d) ==> DueIn(w', x, d)
  {
    var w' := AddTimer(w, id, timeout, times, at);
    forall s: nat, i: nat | Standing(w, x, s, i) ensures Standing(w', x, s, i) && w'.lists[s][i] == w.lists[s][i] {
    }
    hide AddTimer, Due;
  }

  lemma LastIgnored(w: Wheel, last: nat, x: nat)
    requires Ok(w)
    ensures forall d :: DueIn(w, x, d) ==> DueIn(w.(last := last), x, d)
  {
    forall s: nat, i: nat | Standing(w, x, s, i) ensures Standing(w.(last := last), x, s, i) {
    }
    hide Due;
  }

  lemma {:induction false} RunAbsent(w: Wheel, ops: seq<Op>, x: nat)
    requires Ok(w) && Absent(w.lists, x) && NotAdded(ops, x)
    ensures var r := Run(w, ops); Absent(r.0.lists, x) && FiresOnlyIn(r.1, x, |r.1|) && Calm(w, ops, x)
    decreases |ops|
  {
    if ops != [] {
      match ops[0]
      case Add(id, timeout, times, at) =>
        assert ops[0].Add? && id != x;
        AddOther(w, id, timeout, times, at, x);
        hide AddTimer, Absent;
        RunAbsent(AddTimer(w, id, timeout, times, at), ops[1..], x);
      case Exec(now) =>
        var first := Execute(w, now);
        TicksAbsent(w, TicksOf(w, now), x);
        ExecuteIsTicks(w, now);
        hide Execute, Ticks, TicksOf, CalmTicks, Absent;
        RunAbsent(first.0, ops[1..], x);
        assert forall j :: 0 <= j < |first.1 + Run(first.0, ops[1..]).1| ==>
            multiset((first.1 + Run(first.0, ops[1..]).1)[j])[x] == 0;
    }
  }

  lemma {:induction false} RunCourse(w: Wheel, ops: seq<Op>, x: nat, d: nat) returns (c: Course)
    requires DueIn(w, x, d) && NotAdded(ops, x)
    ensures var r := Run(w, ops);
            CourseOk(r.0, r.1, x, c) && Bounds(d, |r.1|, c) && (Punctual(d, |r.1|, c) <==> Calm(w, ops, x))
    decreases |ops|, 0
  {
    if ops == [] {
      return Waits(d);
    }
    match ops[0]
    case Add(id, timeout, times, at) =>
      assert ops[0].Add? && id != x;
      AddOther(w, id, timeout, times, at, x);
      hide AddTimer, DueIn;
      c := RunCourse(AddTimer(w, id, timeout, times, at), ops[1..], x, d);
    case Exec(now) =>
      c := ExecCourse(w, now, ops[1..], x, d);
      assert ops == [Exec(now)] + ops[1..];
  }

  lemma ExecuteCourse(w: Wheel, now: nat, x: nat, d: nat) returns (c: Course)
    requires DueIn(w, x, d)
    ensures var r, n := Execute(w, now), TicksOf(w, now);
            && |r.1| == n && CourseOk(r.0, r.1, x, c) && Bounds(d, n, c)
            && (Punctual(d, n, c) <==> CalmTicks(w, n, x))
  {
    var n := TicksOf(w, now);
    c := ManyTicks(w, x, d, n);
    ExecuteIsTicks(w, now);
    var r := Execute(w, now);
    LastIgnored(Ticks(w, n).0, r.0.last, x);
    hide Execute, Ticks, TicksOf, CalmTicks, DueIn, FiresOnlyIn;
  }

  lemma {:induction false} ExecCourse(w: Wheel, now: nat, ops: seq<Op>, x: nat, d: nat) returns (c: Course)
    requires DueIn(w, x, d) && NotAdded(ops, x)
    ensures var first := Execute(w, now);
            var r := Run(first.0, ops);
            && CourseOk(r.0, first.1 + r.1, x, c) && Bounds(d, |first.1 + r.1|, c)
            && (Punctual(d, |first.1 + r.1|, c) <==> CalmTicks(w, TicksOf(w, now), x) && Calm(first.0, ops, x))
    decreases |ops|, 1
  {
    var c1 := ExecuteCourse(w, now, x, d);
    var first := Execute(w, now);
    var r := Run(first.0, ops);
    hide Execute, TicksOf, CalmTicks, DueIn, Calm, Run, FiresOnlyIn, Absent, NotAdded;
    match c1
    case Fires(tick) =>
      RunAbsent(first.0, ops, x);
      CourseEnded(r.0, first.1, r.1, x, tick);
      c := c1;
    case Waits(due) =>
      var c2 := RunCourse(first.0, ops, x, due);
      CourseAfter(r.0, first.1, r.1, x, c2);
      c := Delayed(|first.1|, c2);
  }

  lemma AddedStands(w: Wheel, id: nat, timeout: nat, times: int, at: nat)
    requires Ok(w) && Absent(w.lists, id) && (times == 0 || times == 1)
    ensures var ticks, w' := timeout / w.granularity, AddTimer(w, id, timeout, times, at);
            var s := (w.cur + ticks) % |w.lists|;
            && w'.cur == w.cur && |w'.lists| == |w.lists| && Standing(w', id, s, |w.lists[s]|)
            && w'.lists[s][|w.lists[s]|].remaining == ticks / |w.lists|
  {
  }

  lemma AddedIsDue(w: Wheel, id: nat, timeout: nat, times: int, at: nat)
    requires Ok(w) && Absent(w.lists, id) && (times == 0 || times == 1)
    ensures DueIn(AddTimer(w, id, timeout, times, at), id, timeout / w.granularity)
  {
    var ticks, slots := timeout / w.granularity, |w.lists|;
    var s := (w.cur + ticks) % slots;
    var w' := AddTimer(w, id, timeout, times, at);
    AddedStands(w, id, timeout, times, at);
    hide AddTimer, Due, Absent;
    DueOfTicks(w.cur, slots, ticks, w'.lists[s][|w.lists[s]|]);
  }

  lemma DueOfTicks(cur: nat, slots: nat, ticks: nat, it: Item)
    requires cur < slots && it.remaining == ticks / slots
    ensures Due(cur, slots, (cur + ticks) % slots, it) == ticks
  {
    var q, r := ticks / slots, ticks % slots;
    assert ticks == q * slots + r;
    if cur + r < slots {
      DivModUnique(cur + ticks, slots, q, cur + r);
    } else {
      Distribute(q, 1, slots);
      DivModUnique(cur + ticks, slots, q + 1, cur + r - slots);
    }
  }

  /** A one-shot timer among timers of any kind: in every run it fires at most once, and never later than in
      the tick with index `timeout / granularity` after its registration. It keeps to that tick if
      and only if the run is calm for it. */
  lemma OneShotAmongMovers(w: Wheel, id: nat, timeout: nat, times: int, at: nat, ops: seq<Op>)
    requires Ok(w) && Absent(w.lists, id) && NotAdded(ops, id) && (times == 0 || times == 1)
    ensures var w', t := AddTimer(w, id, timeout, times, at), timeout / w.granularity;
            var trace := Run(w', ops).1;
            && (|trace| > t ==> exists j :: 0 <= j <= t && FiresOnlyIn(trace, id, j))
            && (|trace| > t ==> (FiresOnlyIn(trace, id, t) <==> Calm(w', ops, id)))
            && (|trace| <= t && Calm(w', ops, id) ==> FiresOnlyIn(trace, id, t))
  {
    var w', t := AddTimer(w, id, timeout, times, at), timeout / w.granularity;
    AddedIsDue(w, id, timeout, times, at);
    hide AddTimer, Absent, DueIn, Calm, Run;
    var c := RunCourse(w', ops, id, t);
    var trace := Run(w', ops).1;
    if |trace| > t {
      assert c.Fires?;
      assert FiresOnlyIn(trace, id, t) ==> multiset(trace[t])[id] == 1;
    }
  }
}
