/**
  `TimeoutItem` and `TimeWheel` (src/timewheel.cc, src/include/timewheel.hh) as objects that are
  updated in place, proved against `TimeWheelSpec`. A callback (or the resumption of a coroutine)
  appends the timer's number to the trace that `ExecuteTimeout` returns.
 */
module TimeWheels {
  import opened NextTimeoutSpec
  import opened TimeWheelSpec

  class TimeoutItem {
    const id: nat
    const repeatInterval: nat
    const registerTime: nat
    var remainingTicks: int
    var repeatCount: int

    constructor (id: nat, remainingTicks: int, repeatInterval: nat, registerTime: nat, repeatCount: int)
      ensures Val() == Item(id, remainingTicks, repeatInterval, registerTime, repeatCount)
    {
      this.id, this.repeatInterval, this.registerTime := id, repeatInterval, registerTime;
      this.remainingTicks, this.repeatCount := remainingTicks, repeatCount;
    }

    function Val(): Item
      reads this
    {
      Item(id, remainingTicks, repeatInterval, registerTime, repeatCount)
    }
  }

  class TimeWheel {
    var wheel: seq<seq<TimeoutItem>>
    const slots: nat
    const granularity: nat
    var lastTrigger: nat
    var currentSlot: nat
    /** The value that the objects represent. */
    ghost var view: Wheel

    ghost predicate ListOk(s: nat)
      requires s < |wheel|
      reads this, wheel[s]
    {
      && s < |view.lists| && |view.lists[s]| == |wheel[s]|
      && forall k :: 0 <= k < |wheel[s]| ==> wheel[s][k].Val() == view.lists[s][k]
    }

    /** Every item is in one list, once. */
    ghost predicate Distinct()
      reads this
    {
      forall s, k, t, j ::
        0 <= s < |wheel| && 0 <= k < |wheel[s]| && 0 <= t < |wheel| && 0 <= j < |wheel[t]|
            && wheel[s][k] == wheel[t][j] ==>
          s == t && k == j
    }

    ghost function Items(): set<object>
      reads this
    {
      set s, k | 0 <= s < |wheel| && 0 <= k < |wheel[s]| :: wheel[s][k]
    }

    ghost predicate Valid()
      reads this, Items()
    {
      && Ok(view) && |wheel| == |view.lists| == slots && view.granularity == granularity
      && view.last == lastTrigger && view.cur == currentSlot
      && (forall s :: 0 <= s < |wheel| ==> ListOk(s))
      && (forall s :: 0 <= s < |wheel| ==> |wheel[s]| == |view.lists[s]|)
      && Distinct()
    }

    constructor (slots: nat, granularity: nat, now: nat)
      requires slots > 0 && granularity > 0
      ensures Valid() && view == Wheel(seq(slots, _ => []), granularity, now, 0) && Items() == {}
    {
      this.slots, this.granularity := slots, granularity;
      lastTrigger, currentSlot := now, 0;
      wheel := seq(slots, _ => []);
      view := Wheel(seq(slots, _ => []), granularity, now, 0);
    }

    method AddTimer(id: nat, timeout: nat, times: int, now: nat)
      requires Valid() && timeout <= 0x7FFF_FFFF
      modifies this`wheel, this`view
      ensures Valid() && view == TimeWheelSpec.AddTimer(old(view), id, timeout, times, now)
      ensures fresh(Items() - old(Items()))
    {
      var item := new TimeoutItem(id, timeout / granularity / slots, timeout, now, times);
      var slot := (currentSlot + timeout / granularity) % slots;
      Append(slot, item);
    }

    /** `list.emplace_back`. */
    method Append(slot: nat, item: TimeoutItem)
      requires Valid() && slot < slots && item !in Items()
      modifies this`wheel, this`view
      ensures Valid() && Items() <= old(Items()) + {item}
      ensures view == old(view).(lists := old(view).lists[slot := old(view).lists[slot] + [item.Val()]])
    {
      assert forall t :: 0 <= t < |wheel| ==> ListOk(t);
      wheel := wheel[slot := wheel[slot] + [item]];
      view := view.(lists := view.lists[slot := view.lists[slot] + [item.Val()]]);
      forall t | 0 <= t < |wheel| ensures ListOk(t) {
        assert old(ListOk(t));
      }
      assert wheel[slot][|wheel[slot]| - 1] == item;
    }

    /** Writes the counters of one item. */
    method SetItem(s: nat, k: nat, remaining: int, count: int)
      requires Valid() && s < slots && k < |wheel[s]|
      modifies this`view, Items()
      ensures Valid() && k < |old(view).lists[s]|
      ensures view == old(view).(lists := old(view).lists[s := old(view).lists[s][k := old(view).lists[s][k].(remaining := remaining, count := count)]])
    {
      assert ListOk(s);
      wheel[s][k].remainingTicks := remaining;
      wheel[s][k].repeatCount := count;
      view := view.(lists := view.lists[s := view.lists[s][k := view.lists[s][k].(remaining := remaining,
          count := count)]]);
      forall t | 0 <= t < |wheel| ensures ListOk(t) {
        assert old(ListOk(t));
      }
    }

    /** `list.erase`. */
    method Erase(s: nat, k: nat)
      requires Valid() && s < slots && k < |wheel[s]|
      modifies this`view, this`wheel
      ensures Valid() && k < |old(view).lists[s]| && Items() <= old(Items())
      ensures |wheel[s]| == old(|wheel[s]|) - 1 && old(wheel[s][k]) !in Items()
      ensures view == old(view).(lists := old(view).lists[s := Without(old(view).lists[s], k)])
    {
      assert ListOk(s);
      wheel := wheel[s := wheel[s][..k] + wheel[s][k + 1..]];
      view := view.(lists := view.lists[s := Without(view.lists[s], k)]);
      forall t | 0 <= t < |wheel| ensures ListOk(t) {
        assert old(ListOk(t));
      }
    }

    /** `list.splice` to the end of the list of `slot`. */
    method Splice(s: nat, k: nat, slot: nat)
      requires Valid() && s < slots && k < |wheel[s]| && slot < slots
      modifies this`view, this`wheel
      ensures Valid() && k < |old(view).lists[s]| && Items() <= old(Items())
      ensures view == old(view).(lists := Spliced(old(view).lists, s, k, old(view).lists[s][k], slot))
    {
      assert ListOk(s);
      var item := wheel[s][k];
      assert item.Val() == view.lists[s][k];
      Erase(s, k);
      Append(slot, item);
    }

    /** The body of the scan for one item, up to the change of the list: counts down, fires and
        re-arms. `newSlot` is where a re-armed item belongs. */
    method VisitItem(s: nat, k: nat) returns (id: nat, fires: bool, erase: bool, newSlot: nat)
      requires Valid() && s < slots && k < |wheel[s]|
      modifies this`view, Items()
      ensures Valid() && k < |old(view).lists[s]|
      ensures var item := old(view).lists[s][k];
              var v := Visit(item, currentSlot, granularity, slots);
              && |view.lists[s]| == |old(view).lists[s]| && id == item.id
              && view == old(view).(lists := old(view).lists[s := old(view).lists[s][k := view.lists[s][k]]])
              && fires == !v.Wait? && erase == v.Erase?
              && (!v.Erase? ==> view.lists[s][k] == v.it)
              && (v.Stay? ==> newSlot == currentSlot) && (v.Move? ==> newSlot == v.slot != currentSlot)
    {
      assert ListOk(s);
      var item := wheel[s][k];
      assert item.Val() == view.lists[s][k];
      id := item.id;
      var remaining, count := item.remainingTicks - 1, item.repeatCount;
      newSlot := currentSlot;
      fires := remaining < 0;
      if fires {
        if count > 0 {
          count := count - 1;
        }
        if count != 0 {
          remaining := item.repeatInterval / granularity / slots;
          newSlot := (currentSlot + remaining) % slots;
        }
      }
      erase := fires && count == 0;
      SetItem(s, k, remaining, count);
    }

    /** One round of the scan: the rest of the scan is that of the new lists from `next` on. */
    method ScanStep(s: nat, it: nat, ghost o: nat) returns (next: nat, fired: seq<nat>, ghost o': nat)
      requires Valid() && s < slots && it < |wheel[s]| && currentSlot == (s + 1) % slots
      requires TailOk(view.lists[s], it, o)
      modifies this`view, this`wheel, Items()
      ensures Valid() && Items() <= old(Items()) && view == old(view).(lists := view.lists)
      ensures (view.lists, next, o', fired) == ScanNext(old(view).lists, s, currentSlot, granularity, it, o)
    {
      hide Visit, ListOk, Distinct, Without, Spliced;
      ghost var lists := view.lists;
      var id, fires, erase, newSlot := VisitItem(s, it);
      next, fired, o' := it + 1, if fires then [id] else [], o;
      TakeOutChanged(lists, s, it, view.lists[s][it], view.lists[s][it], if fires && !erase then newSlot else 0);
      if erase {
        Erase(s, it);
        next, o' := it, o - 1;
      } else if fires && newSlot != currentSlot {
        Splice(s, it, newSlot);
        next, o' := 0, o - 1;
      }
    }

    /** The scan of the list of slot `s`, after `currentSlot` has moved on. */
    method ScanSlot(s: nat) returns (fired: seq<nat>)
      requires Valid() && s < slots && currentSlot == (s + 1) % slots
      modifies this`view, this`wheel, Items()
      ensures Valid() && Items() <= old(Items())
      ensures var r := Scan(old(view).lists, s, currentSlot, granularity, 0, |old(view).lists[s]|);
              view == old(view).(lists := r.0) && fired == r.1
    {
      hide ListOk, Distinct;
      fired := [];
      var it: nat := 0;
      // the items before `o` have not yet been moved to the end of this list
      ghost var o: nat := |view.lists[s]|;
      ghost var total := Scan(view.lists, s, currentSlot, granularity, 0, o);
      while it < |wheel[s]|
        invariant Valid() && Items() <= old(Items()) && it <= |wheel[s]|
        invariant TailOk(view.lists[s], it, o)
        invariant view == old(view).(lists := view.lists)
        invariant total.0 == Scan(view.lists, s, currentSlot, granularity, it, o).0
        invariant total.1 == fired + Scan(view.lists, s, currentSlot, granularity, it, o).1
        decreases o, |wheel[s]| - it
      {
        ScanUnfolds(view.lists, s, currentSlot, granularity, it, o);
        var more;
        it, more, o := ScanStep(s, it, o);
        fired := fired + more;
      }
    }

    /** One round of the loop of `ExecuteTimeout`. */
    method TickOnce() returns (fired: seq<nat>)
      requires Valid()
      modifies this`view, this`wheel, this`currentSlot, Items()
      ensures Valid() && Items() <= old(Items())
      ensures (view, fired) == Tick(old(view))
    {
      var s := currentSlot;
      currentSlot := (currentSlot + 1) % slots;
      view := view.(cur := currentSlot);
      forall t | 0 <= t < |wheel| ensures ListOk(t) {
        assert old(ListOk(t));
      }
      fired := ScanSlot(s);
    }

    /** One tick per granule since the last call. */
    method ExecuteTimeout(now: nat) returns (trace: seq<seq<nat>>)
      requires Valid()
      modifies this`view, this`wheel, this`currentSlot, this`lastTrigger, Items()
      ensures Valid() && Items() <= old(Items())
      ensures (view, trace) == Execute(old(view), now)
    {
      hide Tick, Distinct;
      trace := [];
      if now <= lastTrigger {
        return;
      }
      var dis := (now - lastTrigger) / granularity;
      ghost var total := Ticks(view, dis);
      for i := 0 to dis
        invariant Valid() && Items() <= old(Items())
        invariant total.0 == Ticks(view, dis - i).0
        invariant total.1 == trace + Ticks(view, dis - i).1
      {
        var fired := TickOnce();
        trace := trace + [fired];
      }
      assert Ticks(view, 0) == (view, []) && trace + [] == trace;
      Stamp(now);
    }

    method Stamp(now: nat)
      requires Valid()
      modifies this`view, this`lastTrigger
      ensures Valid() && view == old(view).(last := now)
    {
      lastTrigger := now;
      view := view.(last := now);
      forall t | 0 <= t < |wheel| ensures ListOk(t) {
        assert old(ListOk(t));
      }
    }

    /** `GetNextTimeout`: the least trigger of the fronts, 0 when there is none below the cap. */
    method GetNextTimeout(now: nat) returns (r: nat)
      requires Valid()
      ensures now < lastTrigger ==> r == 0
      ensures now >= lastTrigger ==>
                exists d: nat, from: set<nat> ::
                  LeastFront(view.lists, from, now, d) && Covers(from, slots) && r == NextTimeout(d)
      ensures now >= lastTrigger && InRange(view.lists, now) ==>
                (r == 0 <==>
                   || (forall s: nat :: !PendingFront(view.lists, now, s))
                   || (exists s: nat :: PendingFront(view.lists, now, s) && Delay(view.lists[s][0], now) == 0))
      ensures now >= lastTrigger && Near(view.lists, now) ==> IsNextTimeout(view.lists, now, r)
    {
      if now < lastTrigger {
        return 0;
      }
      var dis: nat := INT64_MAX;
      ghost var from: set<nat> := {};
      for i := 0 to slots
        invariant LeastFront(view.lists, from, now, dis)
        invariant forall j :: 0 <= j < i ==> SlotAt(currentSlot, j, slots) in from
      {
        var sidx := (currentSlot + i) % slots;
        assert ListOk(sidx) && sidx == SlotAt(currentSlot, i, slots);
        if wheel[sidx] != [] {
          var front := wheel[sidx][0];
          assert front.Val() == view.lists[sidx][0];
          var trigger := (front.repeatInterval - (now - front.registerTime)) % UINT64_RANGE;
          if trigger < dis {
            dis := trigger;
          }
        }
        from := from + {sidx};
      }
      EverySlotVisited(currentSlot, slots, from);
      r := if dis == INT64_MAX then 0 else dis;
      if InRange(view.lists, now) {
        NextTimeoutZeroExactly(view.lists, from, now, dis);
      }
      if Near(view.lists, now) {
        LeastFrontIsNext(view.lists, from, now, dis);
      }
    }
  }
}
