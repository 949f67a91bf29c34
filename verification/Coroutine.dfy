/**
  `Coroutine`, `StackMem`, `SharedMem` and `Schedule` (src/coroutine.cc, src/include/coroutine.hh)
  as objects that are updated in place. Every method is proved against the state machine of
  `ScheduleSpec`, so that the theorems there are about these methods.

  A pointer into a stack buffer is its offset in the buffer, and null is `None`. The address of the
  local `dummy` of `SwapContext` is the parameter `sp`.
 */
module Coroutines {
  import opened Common
  import opened ScheduleSpec

  class StackMem {
    /** Names of the model: the position in `Schedule.mems`, and see `ScheduleSpec.Mem`. */
    ghost var id: nat
    ghost var owner: nat
    var occupyCo: Coroutine?
    const size: nat
    const stackBuffer: array<Byte>

    constructor AllocStack(size: nat)
      ensures fresh(this) && fresh(stackBuffer) && stackBuffer.Length == this.size == size
      ensures occupyCo == null
    {
      this.size := size;
      stackBuffer := new Byte[size];
      occupyCo := null;
    }

    ghost function Val(): Mem
      reads this, occupyCo, stackBuffer
    {
      Mem(if occupyCo == null then None else Some(occupyCo.id), stackBuffer[..], owner)
    }
  }

  class SharedMem {
    const count: nat
    const size: nat
    const stackArray: array<StackMem?>
    var idx: nat

    constructor AllocSharedMem(count: nat, size: nat)
      ensures this.count == count && this.size == size && stackArray.Length == count && idx == 0
      ensures fresh(stackArray)
      ensures forall i :: 0 <= i < count ==>
                && stackArray[i] != null && fresh(stackArray[i]) && fresh(stackArray[i].stackBuffer)
                && stackArray[i].occupyCo == null && stackArray[i].stackBuffer.Length == stackArray[i].size == size
      ensures forall i, j :: 0 <= i < j < count ==> stackArray[i].stackBuffer != stackArray[j].stackBuffer
    {
      this.count := count;
      this.size := size;
      idx := 0;
      stackArray := new StackMem?[count](_ => null);
      new;
      for i := 0 to count
        invariant idx == 0
        invariant forall k :: 0 <= k < i ==>
                    && stackArray[k] != null && fresh(stackArray[k]) && fresh(stackArray[k].stackBuffer)
                    && stackArray[k].occupyCo == null && stackArray[k].stackBuffer.Length == stackArray[k].size == size
        invariant forall k, j :: 0 <= k < j < i ==> stackArray[k].stackBuffer != stackArray[j].stackBuffer
      {
        stackArray[i] := new StackMem.AllocStack(size);
      }
    }

    /** Round robin: the k-th call returns buffer k modulo `count`. */
    method GetStackMem() returns (mem: StackMem?)
      requires 0 < count == stackArray.Length
      modifies this`idx
      ensures mem == stackArray[old(idx) % count] && idx == old(idx) + 1
    {
      mem := stackArray[idx % count];
      idx := idx + 1;
    }
  }

  class Coroutine {
    ghost var id: nat
    var coState: CoState
    var isMainCo: bool
    var useSharedStk: bool
    var stackMem: StackMem?
    var savedStack: array?<Byte>
    var savedSize: nat
    var dummy: Option<nat>

    constructor ()
      ensures fresh(this)
      ensures coState == Ready && !useSharedStk && stackMem == null && savedStack == null && savedSize == 0
          && dummy == None
    {
      coState, isMainCo, useSharedStk := Ready, false, false;
      stackMem, savedStack, savedSize, dummy := null, null, 0, None;
    }

    ghost function Val(): Co
      reads this, stackMem, savedStack
    {
      Co(coState, useSharedStk, if stackMem == null then None else Some(stackMem.id), dummy,
         if savedStack == null then [] else savedStack[..], savedSize)
    }

    /** The source also has a branch for a null `dummy_`, which ends in an allocation of the size of
        an address; `EvictionWellDefined` shows that it is never taken. */
    method SaveStack()
      requires stackMem != null && dummy.Some? && dummy.value <= stackMem.stackBuffer.Length == stackMem.size
      modifies this`savedStack, this`savedSize
      ensures savedStack != null && fresh(savedStack)
      ensures savedStack[..] == stackMem.stackBuffer[dummy.value..] && savedSize == savedStack.Length
    {
      var len := stackMem.size - dummy.value;
      var copy := new Byte[len];
      MemCopy(copy, 0, stackMem.stackBuffer, dummy.value, len);
      savedStack := copy;
      savedSize := len;
    }

    method ResumeStack()
      requires stackMem != null && (savedStack != null ==> savedStack != stackMem.stackBuffer)
      requires savedSize > 0 ==>
                 && savedStack != null && savedSize == savedStack.Length
                 && dummy.Some? && dummy.value + savedSize <= stackMem.stackBuffer.Length
      modifies stackMem.stackBuffer
      ensures stackMem.stackBuffer[..] ==
              if savedSize == 0 then old(stackMem.stackBuffer[..])
              else Overwrite(old(stackMem.stackBuffer[..]), dummy.value, savedStack[..])
    {
      if savedSize > 0 {
        MemCopy(stackMem.stackBuffer, dummy.value, savedStack, 0, savedSize);
        assert savedStack[0..savedSize] == savedStack[..];
      }
    }
  }

  /** What a caller asks for: a size, and perhaps a pool of shared stacks. */
  class CoroutineAttr {
    var stackSize: nat
    var sharedMem: SharedMem?

    constructor ()
      ensures fresh(this) && stackSize == 64 * 1024 && sharedMem == null
    {
      stackSize, sharedMem := 64 * 1024, null;
    }
  }

  /** The rounding of `stack_size_` on a 64-bit `size_t`. */
  function RoundStackSize(n: nat): (r: nat)
    requires n < SIZE_LIMIT
    ensures r < SIZE_LIMIT
  {
    if n % 4096 != 0 then (n - n % 4096 + 4096) % SIZE_LIMIT else n
  }

  const SIZE_LIMIT: nat := 0x1_0000_0000_0000_0000

  /** It is the least multiple of the page size that is large enough, except for sizes of the last
      page below 2^64, where the sum wraps round to 0. Attributes used again are not rounded further. */
  lemma RoundStackSizeIsLeast(n: nat)
    requires n < SIZE_LIMIT
    ensures n <= SIZE_LIMIT - 4096 <==> RoundStackSize(n) >= n
    ensures RoundStackSize(RoundStackSize(n)) == RoundStackSize(n)
    ensures n <= SIZE_LIMIT - 4096 ==>
              RoundStackSize(n) % 4096 == 0 && forall k: nat :: n <= 4096 * k ==> RoundStackSize(n) <= 4096 * k
  {
  }

  /** `SaveStack` of one coroutine and `ResumeStack` of another make `s` into `u`. */
  ghost predicate Exchanged(s: Sched, occ: nat, next: nat, u: Sched) {
    && occ < |s.cos| && s.cos[occ].mem.Some? && s.cos[occ].mem.value < |s.mems| && s.cos[occ].dummy.Some?
    && s.cos[occ].dummy.value <= |s.mems[s.cos[occ].mem.value].bytes|
    && var t := SaveStack(s, occ);
    && next < |t.cos| && t.cos[next].mem.Some? && t.cos[next].mem.value < |t.mems|
    && t.cos[next].savedSize == |t.cos[next].saved|
    && (t.cos[next].savedSize > 0 ==>
          && t.cos[next].dummy.Some?
          && t.cos[next].dummy.value + t.cos[next].savedSize <= |t.mems[t.cos[next].mem.value].bytes|)
    && u == ResumeStack(t, next)
  }

  class Schedule {
    /** All coroutines and stack buffers, in order of creation, and the value that the objects
        represent. */
    ghost var cos: seq<Coroutine>
    ghost var mems: seq<StackMem>
    ghost var view: Sched
    var coStack: seq<Coroutine>
    var stackTop: nat
    var runningCo: Coroutine

    ghost predicate Knows(c: Coroutine)
      reads this, c
    {
      c.id < |cos| && cos[c.id] == c
    }

    ghost predicate KnowsMem(m: StackMem)
      reads this, m
    {
      m.id < |mems| && mems[m.id] == m
    }

    ghost predicate CoValid(c: Coroutine)
      reads this, c, c.stackMem, c.savedStack, mems
    {
      && c.id < |view.cos| && c.Val() == view.cos[c.id]
      && (c.stackMem != null ==> KnowsMem(c.stackMem))
      && (c.savedStack != null ==> forall j :: 0 <= j < |mems| ==> mems[j].stackBuffer != c.savedStack)
    }

    ghost predicate MemValid(m: StackMem)
      reads this, m, m.occupyCo, m.stackBuffer
    {
      && m.id < |view.mems| && m.Val() == view.mems[m.id]
      && (m.occupyCo != null ==> Knows(m.occupyCo))
      && m.stackBuffer.Length == m.size
    }

    ghost predicate CoAt(i: nat)
      requires i < |cos|
      reads this, cos[i], cos[i].stackMem, cos[i].savedStack, mems
    {
      cos[i].id == i && CoValid(cos[i])
    }

    ghost predicate MemAt(j: nat)
      requires j < |mems|
      reads this, mems[j], mems[j].occupyCo, mems[j].stackBuffer
    {
      mems[j].id == j && MemValid(mems[j])
    }

    ghost predicate Valid()
      reads this, cos, mems, coStack, runningCo
      reads set c | c in cos :: c.stackMem, set c | c in cos :: c.savedStack
      reads set m | m in mems :: m.occupyCo, set m | m in mems :: m.stackBuffer
    {
      && |view.cos| == |cos| && |view.mems| == |mems| && |view.stack| == |coStack|
      && (forall i :: 0 <= i < |cos| ==> CoAt(i))
      && (forall j :: 0 <= j < |mems| ==> MemAt(j))
      && (forall j, k :: 0 <= j < k < |mems| ==> mems[j].stackBuffer != mems[k].stackBuffer)
      && (forall k :: 0 <= k < |coStack| ==> Knows(coStack[k]) && view.stack[k] == coStack[k].id)
      && Knows(runningCo) && view.running == runningCo.id && view.top == stackTop
    }

    constructor InitThreadSchedule()
      ensures Valid() && fresh(this) && view == INIT
    {
      var mainCo := new Coroutine();
      mainCo.isMainCo := true;
      mainCo.coState := Running;
      mainCo.id := 0;
      coStack := [mainCo];
      stackTop := 1;
      runningCo := mainCo;
      cos := [mainCo];
      mems := [];
      view := INIT;
    }

    method MarkState(c: Coroutine, st: CoState)
      requires Valid() && Knows(c)
      modifies this`view, c`coState
      ensures Valid() && view == SetState(old(view), c.id, st)
    {
      assert CoAt(c.id);
      c.coState := st;
      view := SetState(view, c.id, st);
      forall i | 0 <= i < |cos| ensures CoAt(i) {
        assert old(CoAt(i));
      }
      forall j | 0 <= j < |mems| ensures MemAt(j) {
        assert old(MemAt(j));
      }
    }

    method MarkDummy(c: Coroutine, sp: nat)
      requires Valid() && Knows(c)
      modifies this`view, c`dummy
      ensures Valid() && view == SetDummy(old(view), c.id, sp)
    {
      assert CoAt(c.id);
      c.dummy := Some(sp);
      view := SetDummy(view, c.id, sp);
      forall i | 0 <= i < |cos| ensures CoAt(i) {
        assert old(CoAt(i));
      }
      forall j | 0 <= j < |mems| ensures MemAt(j) {
        assert old(MemAt(j));
      }
    }

    method Occupy(m: StackMem, c: Coroutine)
      requires Valid() && KnowsMem(m) && Knows(c)
      modifies this`view, m`occupyCo
      ensures Valid() && view == SetOccupant(old(view), m.id, c.id)
    {
      assert MemAt(m.id) && CoAt(c.id);
      m.occupyCo := c;
      view := SetOccupant(view, m.id, c.id);
      forall i | 0 <= i < |cos| ensures CoAt(i) {
        assert old(CoAt(i));
      }
      forall j | 0 <= j < |mems| ensures MemAt(j) {
        assert old(MemAt(j));
      }
    }

    method Save(c: Coroutine)
      requires Valid() && Knows(c) && c.stackMem != null
      requires c.dummy.Some? && c.dummy.value <= c.stackMem.size
      modifies this`view, c`savedStack, c`savedSize
      ensures Valid()
      ensures var s := old(view);
              && c.id < |s.cos| && s.cos[c.id].mem.Some? && s.cos[c.id].mem.value < |s.mems| && s.cos[c.id].dummy.Some?
              && s.cos[c.id].dummy.value <= |s.mems[s.cos[c.id].mem.value].bytes| && view == SaveStack(s, c.id)
    {
      assert CoAt(c.id) && MemAt(c.stackMem.id);
      c.SaveStack();
      view := SaveStack(view, c.id);
      forall i | 0 <= i < |cos| ensures CoAt(i) {
        assert old(CoAt(i));
      }
      forall j | 0 <= j < |mems| ensures MemAt(j) {
        assert old(MemAt(j));
      }
    }

    method Restore(c: Coroutine)
      requires Valid() && Knows(c) && c.stackMem != null && view.cos[c.id].savedSize == |view.cos[c.id].saved|
      requires c.savedSize > 0 ==> c.dummy.Some? && c.dummy.value + c.savedSize <= c.stackMem.size
      modifies this`view, c.stackMem.stackBuffer
      ensures Valid()
      ensures var s := old(view);
              && c.id < |s.cos| && s.cos[c.id].mem.Some? && s.cos[c.id].mem.value < |s.mems|
              && (s.cos[c.id].savedSize > 0 ==>
                    && s.cos[c.id].dummy.Some?
                    && s.cos[c.id].dummy.value + s.cos[c.id].savedSize <= |s.mems[s.cos[c.id].mem.value].bytes|)
              && view == ResumeStack(s, c.id)
    {
      assert CoAt(c.id) && MemAt(c.stackMem.id);
      c.ResumeStack();
      view := ResumeStack(view, c.id);
      forall i | 0 <= i < |cos| ensures CoAt(i) {
        assert old(CoAt(i));
      }
      forall j | 0 <= j < |mems| ensures MemAt(j) {
        assert old(MemAt(j));
        if j != c.stackMem.id {
          assert mems[j].stackBuffer[..] == old(mems[j].stackBuffer[..]);
        }
      }
    }

    lemma CoFacts(c: Coroutine)
      requires Valid() && Knows(c)
      ensures c.id < |view.cos| && c.Val() == view.cos[c.id] && (c.stackMem != null ==> KnowsMem(c.stackMem))
    {
      assert CoAt(c.id);
    }

    lemma MemFacts(m: StackMem)
      requires Valid() && KnowsMem(m)
      ensures m.id < |view.mems| && m.Val() == view.mems[m.id] && m.stackBuffer.Length == m.size
      ensures m.occupyCo != null ==> Knows(m.occupyCo)
    {
      assert MemAt(m.id);
    }

    /** The part of `SwapContext` for a shared stack: the occupant saves its bytes and the next coroutine
        gets its own back. */
    method Exchange(occ: Coroutine, next: Coroutine)
      requires Valid() && Knows(occ) && Knows(next) && occ != next && occ.stackMem != null && occ.stackMem == next.stackMem
      requires occ.dummy.Some? && occ.dummy.value <= occ.stackMem.size
      requires next.savedSize == |view.cos[next.id].saved|
      requires next.savedSize > 0 ==> next.dummy.Some? && next.dummy.value + next.savedSize <= next.stackMem.size
      modifies this`view, occ`savedStack, occ`savedSize, next.stackMem.stackBuffer
      ensures Valid() && Exchanged(old(view), occ.id, next.id, view)
    {
      CoFacts(occ);
      CoFacts(next);
      MemFacts(next.stackMem);
      hide CoAt, MemAt, Valid;
      Save(occ);
      CoFacts(next);
      Restore(next);
    }

    /** Static in the source, with the schedule as its only instance. */
    method SwapContext(prev: Coroutine, next: Coroutine, sp: nat)
      requires Valid() && Knows(prev) && Knows(next)
      requires SwapReady(view, prev.id, next.id, sp)
      modifies this`view
      modifies cos`dummy, cos`savedStack, cos`savedSize, mems`occupyCo, set m | m in mems :: m.stackBuffer
      ensures Valid() && view == Swap(old(view), prev.id, next.id, sp)
    {
      hide CoAt, MemAt, Valid;
      CoFacts(prev);
      MarkDummy(prev, sp);
      CoFacts(next);
      if next.useSharedStk {
        MemFacts(next.stackMem);
        var occupyCo := next.stackMem.occupyCo;
        Occupy(next.stackMem, next);
        if occupyCo != null && occupyCo != next {
          CoFacts(occupyCo);
          CoFacts(next);
          MemFacts(next.stackMem);
          Exchange(occupyCo, next);
        }
      }
    }

    method PushTop(next: Coroutine)
      requires Valid() && Knows(next)
      modifies this`view, this`coStack, this`stackTop, this`runningCo
      ensures Valid() && coStack == old(coStack) + [next]
      ensures view == old(view).(stack := old(view).stack + [next.id], top := old(view).top + 1, running := next.id)
    {
      coStack := coStack + [next];
      stackTop := stackTop + 1;
      runningCo := next;
      view := view.(stack := view.stack + [next.id], top := stackTop, running := next.id);
      forall i | 0 <= i < |cos| ensures CoAt(i) {
        assert old(CoAt(i));
      }
      forall j | 0 <= j < |mems| ensures MemAt(j) {
        assert old(MemAt(j));
      }
    }

    method PopTop() returns (running: Coroutine, pending: Coroutine)
      requires Valid() && |coStack| >= 2 && stackTop == |coStack|
      modifies this`view, this`coStack, this`stackTop, this`runningCo
      ensures Valid() && Knows(running) && Knows(pending)
      ensures |old(view).stack| >= 2 && old(view).top == |old(view).stack|
      ensures running.id == old(view).stack[old(view).top - 1] && pending.id == old(view).stack[old(view).top - 2]
      ensures view == old(view).(stack := old(view).stack[..|old(view).stack| - 1], top := old(view).top - 1,
          running := pending.id)
    {
      running, pending := coStack[stackTop - 1], coStack[stackTop - 2];
      coStack := coStack[..|coStack| - 1];
      stackTop := stackTop - 1;
      runningCo := pending;
      view := view.(stack := view.stack[..|coStack|], top := stackTop, running := pending.id);
      forall i | 0 <= i < |cos| ensures CoAt(i) {
        assert old(CoAt(i));
      }
      forall j | 0 <= j < |mems| ensures MemAt(j) {
        assert old(MemAt(j));
      }
    }

    /** `Resume` up to its call of `SwapContext`. */
    method EnterControl(next: Coroutine)
      requires Valid() && StackOk(view) && Knows(next) && CanSwitch(view, Label.Resume(next.id))
      modifies this`view, this`coStack, this`stackTop, this`runningCo, cos`coState
      ensures Valid() && cos == old(cos) && mems == old(mems) && view == Control(old(view), Label.Resume(next.id))
    {
      hide CoAt, MemAt;
      if |coStack| > 1 {
        MarkState(runningCo, Ready);
      }
      MarkState(next, Running);
      PushTop(next);
    }

    /** `Yield` up to its call of `SwapContext`. */
    method YieldControl() returns (running: Coroutine, pending: Coroutine)
      requires Valid() && StackOk(view) && CanSwitch(view, Label.Yield)
      modifies this`view, this`coStack, this`stackTop, this`runningCo, cos`coState
      ensures Valid() && cos == old(cos) && mems == old(mems) && view == Control(old(view), Label.Yield)
      ensures Knows(running) && Knows(pending) && running.id == old(view).running && pending.id == view.running
    {
      YieldIs(view);
      assert |coStack| == |view.stack| && stackTop == |coStack|;
      hide CoAt, MemAt, Control, CanSwitch, SetState, StackOk, Valid;
      running, pending := PopTop();
      HandBack(running, pending);
    }

    method HandBack(running: Coroutine, pending: Coroutine)
      requires Valid() && Knows(running) && Knows(pending)
      modifies this`view, running`coState, pending`coState
      ensures Valid() && view == SetState(SetState(old(view), running.id, Ready), pending.id, Running)
    {
      hide CoAt, MemAt, SetState, Valid;
      MarkState(running, Ready);
      MarkState(pending, Running);
    }

    /** `CoMainFunc` up to its call of `SwapContext`. */
    method FinishControl(co: Coroutine) returns (running: Coroutine, pending: Coroutine)
      requires Valid() && StackOk(view) && CanSwitch(view, Finish) && co == runningCo
      modifies this`view, this`coStack, this`stackTop, this`runningCo, cos`coState
      ensures Valid() && cos == old(cos) && mems == old(mems) && view == Control(old(view), Finish)
      ensures Knows(running) && Knows(pending) && running.id == old(view).running && pending.id == view.running
    {
      hide CoAt, MemAt;
      MarkState(co, Terminal);
      running, pending := PopTop();
    }

    /** `Resume` after its assertions. */
    method Enter(next: Coroutine, sp: nat)
      requires Valid() && Knows(next) && Inv(Machine(view, sp)) && CanSwitch(view, Label.Resume(next.id))
      modifies this`view, this`coStack, this`stackTop, this`runningCo
      modifies cos`coState, cos`dummy, cos`savedStack, cos`savedSize, mems`occupyCo, set m | m in mems :: m.stackBuffer
      ensures Valid()
      ensures Step(Machine(old(view), sp), Label.Resume(next.id)).Next?
      ensures view == Step(Machine(old(view), sp), Label.Resume(next.id)).m.s
    {
      SwitchStep(Machine(view, sp), Label.Resume(next.id));
      InvTop(Machine(view, sp));
      hide CoAt, MemAt, Step, Swap, SwapReady, Inv, Control;
      assert Knows(runningCo) && runningCo.id == view.running && |coStack| == |view.stack|;
      hide Valid, StackOk;
      var prev := runningCo;
      EnterControl(next);
      SwapContext(prev, next, sp);
    }

    /** `Coroutine::Resume`. The answer says whether the assertions held. */
    method Resume(next: Coroutine, sp: nat) returns (asserted: bool)
      requires Valid() && Knows(next) && Inv(Machine(view, sp))
      modifies this`view, this`coStack, this`stackTop, this`runningCo
      modifies cos`coState, cos`dummy, cos`savedStack, cos`savedSize, mems`occupyCo, set m | m in mems :: m.stackBuffer
      ensures Valid()
      ensures match Step(Machine(old(view), sp), Label.Resume(next.id))
              case Next(m') => asserted && view == m'.s
              case _ => !asserted && view == old(view)
    {
      assert CoAt(next.id) && CoAt(runningCo.id);
      assert next.Val() == view.cos[next.id] && runningCo.Val() == view.cos[runningCo.id];
      SwitchStep(Machine(view, sp), Label.Resume(next.id));
      hide Step, Inv, Control, Swap, SwapReady;
      if next.coState == Terminal {
        asserted := true;
      } else if next.coState != Ready || runningCo.coState != Running {
        asserted := false;
      } else {
        Enter(next, sp);
        asserted := true;
      }
    }

    /** `Yield`; it throws when only the main coroutine runs. */
    method Yield(sp: nat) returns (thrown: bool)
      requires Valid() && Inv(Machine(view, sp))
      modifies this`view, this`coStack, this`stackTop, this`runningCo
      modifies cos`coState, cos`dummy, cos`savedStack, cos`savedSize, mems`occupyCo, set m | m in mems :: m.stackBuffer
      ensures Valid()
      ensures match Step(Machine(old(view), sp), Label.Yield)
              case Next(m') => !thrown && view == m'.s
              case _ => thrown && view == old(view)
    {
      SwitchStep(Machine(view, sp), Label.Yield);
      InvTop(Machine(view, sp));
      hide CoAt, MemAt, Step, Swap, SwapReady, Inv, Control;
      assert StackOk(view) && (CanSwitch(view, Label.Yield) <==> |coStack| >= 2);
      assert Knows(runningCo) && runningCo.id == view.running && |coStack| == |view.stack|;
      hide Valid, CanSwitch, StackOk;
      if |coStack| < 2 {
        return true;
      }
      var running, pending := YieldControl();
      SwapContext(running, pending, sp);
      thrown := false;
    }

    /** `CoMainFunc` after the coroutine's function has returned. */
    method CoMainFuncReturns(co: Coroutine, sp: nat)
      requires Valid() && Inv(Machine(view, sp)) && |coStack| >= 2 && co == runningCo
      modifies this`view, this`coStack, this`stackTop, this`runningCo
      modifies cos`coState, cos`dummy, cos`savedStack, cos`savedSize, mems`occupyCo, set m | m in mems :: m.stackBuffer
      ensures Valid()
      ensures Step(Machine(old(view), sp), Finish).Next? && view == Step(Machine(old(view), sp), Finish).m.s
    {
      SwitchStep(Machine(view, sp), Finish);
      InvTop(Machine(view, sp));
      hide CoAt, MemAt, Step, Swap, SwapReady, Inv, Control;
      assert StackOk(view) && CanSwitch(view, Finish);
      assert Knows(runningCo) && runningCo.id == view.running && |coStack| == |view.stack|;
      hide Valid, CanSwitch, StackOk;
      var running, pending := FinishControl(co);
      SwapContext(running, pending, sp);
    }

    /** The buffers of `p` are known here as shared ones. */
    ghost predicate PoolOk(p: SharedMem)
      reads this, p, p.stackArray, set i | 0 <= i < p.stackArray.Length :: p.stackArray[i]
    {
      && 0 < p.count == p.stackArray.Length
      && forall i :: 0 <= i < p.count ==>
           p.stackArray[i] != null && KnowsMem(p.stackArray[i]) && p.stackArray[i].owner == 0
    }

    /** A buffer that the model has not named yet. */
    ghost predicate Unnamed(m: StackMem)
      reads this, m, mems, cos
    {
      && m !in mems && m.occupyCo == null && m.stackBuffer.Length == m.size
      && (forall j :: 0 <= j < |mems| ==> mems[j].stackBuffer != m.stackBuffer)
      && (forall c :: 0 <= c < |cos| ==> cos[c].savedStack != m.stackBuffer)
    }

    /** The model names a buffer that is used for the first time. */
    ghost method Register(m: StackMem, owner: nat)
      requires Valid() && Unnamed(m)
      modifies this`mems, this`view, m`id, m`owner
      ensures Valid() && KnowsMem(m) && m.id == |old(mems)| && m.owner == owner
      ensures mems == old(mems) + [m]
          && view == old(view).(mems := old(view).mems + [Mem(None, m.stackBuffer[..], owner)])
    {
      m.id := |mems|;
      m.owner := owner;
      mems := mems + [m];
      view := view.(mems := view.mems + [Mem(None, m.stackBuffer[..], owner)]);
      forall i | 0 <= i < |cos| ensures CoAt(i) {
        assert old(CoAt(i));
      }
      forall j | 0 <= j < |mems| ensures MemAt(j) {
        if j < |old(mems)| {
          assert old(MemAt(j));
        }
      }
    }

    /** Names the buffers of a pool fresh from `AllocSharedMem`. */
    ghost method RegisterPool(p: SharedMem)
      requires Valid() && 0 < p.count == p.stackArray.Length
      requires forall i :: 0 <= i < p.count ==> p.stackArray[i] != null && Unnamed(p.stackArray[i])
      requires forall i, j :: 0 <= i < j < p.count ==> p.stackArray[i].stackBuffer != p.stackArray[j].stackBuffer
      modifies this`mems, this`view, set i | 0 <= i < p.stackArray.Length :: p.stackArray[i]
      ensures Valid() && PoolOk(p)
      ensures mems == old(mems) + p.stackArray[..]
      ensures |view.mems| == |mems| && view == old(view).(mems := old(view).mems + view.mems[|old(mems)|..])
      ensures forall i :: 0 <= i < p.count ==>
                view.mems[|old(mems)| + i] == Mem(None, p.stackArray[i].stackBuffer[..], 0)
    {
      hide CoAt, MemAt;
      for i := 0 to p.count
        invariant Valid() && mems == old(mems) + p.stackArray[..i]
        invariant forall k :: 0 <= k < i ==> KnowsMem(p.stackArray[k]) && p.stackArray[k].owner == 0
        invariant forall k :: i <= k < p.count ==> Unnamed(p.stackArray[k])
        invariant |view.mems| == |mems| && view == old(view).(mems := old(view).mems + view.mems[|old(mems)|..])
        invariant forall k :: 0 <= k < i ==>
                    view.mems[|old(mems)| + k] == Mem(None, p.stackArray[k].stackBuffer[..], 0)
      {
        hide CoAt, MemAt, Valid;
        Register(p.stackArray[i], 0);
      }
    }

    /** Initialises a new coroutine, and names it for the model. */
    method Prepare(co: Coroutine, mem: StackMem, shared: bool)
      requires Valid() && co !in cos
      modifies co
      ensures Valid() && co.id == |cos| && co.savedStack == null
      ensures co.Val() == FreshCo(shared, mem.id) && co.stackMem == mem
    {
      forall j | 0 <= j < |mems| ensures mems[j].occupyCo != co {
        assert MemAt(j);
      }
      co.id := |cos|;
      co.isMainCo, co.useSharedStk, co.stackMem := false, shared, mem;
      co.coState, co.savedStack, co.savedSize, co.dummy := Ready, null, 0, None;
      forall i | 0 <= i < |cos| ensures CoAt(i) {
        assert old(CoAt(i));
      }
      forall j | 0 <= j < |mems| ensures MemAt(j) {
        assert old(MemAt(j));
      }
    }

    ghost method Adopt(co: Coroutine)
      requires Valid() && co !in cos && co.id == |cos| && co.savedStack == null
      requires co.stackMem != null && KnowsMem(co.stackMem)
      modifies this`cos, this`view
      ensures Valid() && cos == old(cos) + [co] && view == old(view).(cos := old(view).cos + [co.Val()])
    {
      cos := cos + [co];
      view := view.(cos := view.cos + [co.Val()]);
      forall i | 0 <= i < |cos| ensures CoAt(i) {
        if i < |old(cos)| {
          assert old(CoAt(i));
        }
      }
      forall j | 0 <= j < |mems| ensures MemAt(j) {
        assert old(MemAt(j));
      }
    }

    /** The part of `CreateCoroutine` that both kinds of stack share. */
    method NewCoroutine(mem: StackMem, shared: bool) returns (co: Coroutine)
      requires Valid() && KnowsMem(mem)
      modifies this`cos, this`view
      ensures Valid() && fresh(co) && cos == old(cos) + [co] && co.stackMem == mem
      ensures view == old(view).(cos := old(view).cos + [FreshCo(shared, mem.id)])
    {
      hide CoAt, MemAt;
      co := new Coroutine();
      Prepare(co, mem, shared);
      Adopt(co);
    }

    /** `CreateCoroutine` on a shared stack: the buffer comes from the pool, in turn. */
    method CreateShared(pool: SharedMem) returns (co: Coroutine)
      requires Valid() && PoolOk(pool)
      modifies this`cos, this`view, pool`idx
      ensures Valid() && PoolOk(pool) && fresh(co) && cos == old(cos) + [co]
      ensures co.stackMem == pool.stackArray[old(pool.idx) % pool.count] && pool.idx == old(pool.idx) + 1
      ensures co.stackMem != null && co.stackMem.id < |mems| && mems[co.stackMem.id] == co.stackMem
          && co.stackMem.owner == 0
      ensures view == old(view).(cos := old(view).cos + [FreshCo(true, co.stackMem.id)])
    {
      hide CoAt, MemAt;
      var mem := pool.GetStackMem();
      co := NewCoroutine(mem, true);
    }

    /** `CreateCoroutine` on a stack of its own. */
    method CreatePrivate(size: nat) returns (co: Coroutine)
      requires Valid()
      modifies this`cos, this`mems, this`view
      ensures Valid() && fresh(co) && cos == old(cos) + [co]
      ensures co.stackMem != null && fresh(co.stackMem) && co.stackMem.size == size
      ensures mems == old(mems) + [co.stackMem]
      ensures view == old(view).(mems := old(view).mems + [Mem(None, co.stackMem.stackBuffer[..], |old(view).cos|)],
                                 cos := old(view).cos + [FreshCo(false, |old(view).mems|)])
    {
      hide CoAt, MemAt;
      var mem := new StackMem.AllocStack(size);
      Register(mem, |cos|);
      co := NewCoroutine(mem, false);
    }

    /** `CreateCoroutine`: the size asked for is rounded in the attributes of the caller, and a pool
        there goes before a stack of its own. */
    method CreateCoroutine(attr: CoroutineAttr) returns (co: Coroutine)
      requires Valid() && attr.stackSize < SIZE_LIMIT && (attr.sharedMem != null ==> PoolOk(attr.sharedMem))
      modifies this`cos, this`mems, this`view, attr`stackSize, {attr.sharedMem}`idx
      ensures Valid() && fresh(co) && cos == old(cos) + [co] && co.stackMem != null
      ensures attr.stackSize == RoundStackSize(old(attr.stackSize))
      ensures attr.sharedMem != null ==>
                var i := old(attr.sharedMem.idx);
                && PoolOk(attr.sharedMem) && attr.sharedMem.idx == i + 1 && mems == old(mems)
                && co.stackMem == attr.sharedMem.stackArray[i % attr.sharedMem.count] && KnowsMem(co.stackMem)
                && co.stackMem.owner == 0
                && view == old(view).(cos := old(view).cos + [FreshCo(true, co.stackMem.id)])
      ensures attr.sharedMem == null ==>
                && fresh(co.stackMem) && co.stackMem.size == attr.stackSize && mems == old(mems) + [co.stackMem]
                && view == old(view).(mems := old(view).mems + [Mem(None, co.stackMem.stackBuffer[..], |old(view).cos|)],
                                      cos := old(view).cos + [FreshCo(false, |old(view).mems|)])
    {
      hide CoAt, MemAt;
      if attr.stackSize % 4096 != 0 {
        attr.stackSize := (attr.stackSize - attr.stackSize % 4096 + 4096) % SIZE_LIMIT;
      }
      var pool := attr.sharedMem;
      if pool != null {
        co := CreateShared(pool);
      } else {
        co := CreatePrivate(attr.stackSize);
      }
    }
  }
}
