/**
  The coroutine scheduler as a state machine over values: what `Resume`, `Yield`, the end of
  `CoMainFunc` and `SwapContext` do to the scheduler, to the coroutines and to the stack buffers
  (src/coroutine.cc). A coroutine and a stack buffer are named by the order they were created in;
  number 0 is the main coroutine.
 */
module ScheduleSpec {
  import opened Common

  datatype CoState = Ready | Running | Terminal

  /** The fields of `Coroutine` that the scheduler works on. An offset into the buffer stands for
      the pointer `dummy_`, and `None` for null. */
  datatype Co = Co(state: CoState, shared: bool, mem: Option<nat>, dummy: Option<nat>,
                   saved: seq<Byte>, savedSize: nat)

  /** `StackMem`: its occupant and its bytes; `size_` is the number of bytes. The model also notes
      the `owner` of a private stack, and 0 for a buffer of a `SharedMem`. */
  datatype Mem = Mem(occupy: Option<nat>, bytes: seq<Byte>, owner: nat)

  datatype Sched = Sched(cos: seq<Co>, mems: seq<Mem>, stack: seq<nat>, top: nat, running: nat)

  function FreshCo(shared: bool, mem: nat): Co {
    Co(Ready, shared, Some(mem), None, [], 0)
  }

  /** `InitThreadSchedule`: only the main coroutine, running on the thread's own stack. */
  const INIT := Sched([Co(Running, false, None, None, [], 0)], [], [0], 1, 0)

  // ----- names and offsets are in range -----

  /** The control part: the main coroutine is at the bottom of the stack, runs on no buffer and
      stays RUNNING; `stack_top_` counts the stack and `running_co_` is its top. */
  ghost predicate StackOk(s: Sched) {
    && |s.stack| >= 1 && s.top == |s.stack|
    && (forall i :: 0 <= i < |s.stack| ==> s.stack[i] < |s.cos|)
    && s.stack[0] == 0 && s.running == s.stack[|s.stack| - 1]
    && (forall i :: 1 <= i < |s.stack| ==> s.stack[i] != 0)
    && s.cos[0].state == Running
    && (forall c :: 1 <= c < |s.cos| ==> s.cos[c].mem.Some?)
  }

  // ----- what the methods compute -----

  /** `SaveStack`, called with a non-null `dummy_`. */
  function SaveStack(s: Sched, c: nat): Sched
    requires c < |s.cos| && s.cos[c].mem.Some? && s.cos[c].mem.value < |s.mems|
    requires s.cos[c].dummy.Some? && s.cos[c].dummy.value <= |s.mems[s.cos[c].mem.value].bytes|
  {
    var co := s.cos[c];
    var bytes := s.mems[co.mem.value].bytes;
    s.(cos := s.cos[c := co.(saved := bytes[co.dummy.value..], savedSize := |bytes| - co.dummy.value)])
  }

  /** `ResumeStack`; for a coroutine that never ran it copies nothing. */
  function ResumeStack(s: Sched, c: nat): Sched
    requires c < |s.cos| && s.cos[c].mem.Some? && s.cos[c].mem.value < |s.mems|
    requires s.cos[c].savedSize == |s.cos[c].saved|
    requires s.cos[c].savedSize > 0 ==>
               && s.cos[c].dummy.Some?
               && s.cos[c].dummy.value + s.cos[c].savedSize <= |s.mems[s.cos[c].mem.value].bytes|
  {
    var co := s.cos[c];
    if co.savedSize == 0 then s else
    var m := s.mems[co.mem.value];
    s.(mems := s.mems[co.mem.value := m.(bytes := Overwrite(m.bytes, co.dummy.value, co.saved))])
  }

  function SetDummy(s: Sched, c: nat, d: nat): Sched
    requires c < |s.cos|
  {
    s.(cos := s.cos[c := s.cos[c].(dummy := Some(d))])
  }

  function SetOccupant(s: Sched, b: nat, c: nat): Sched
    requires b < |s.mems|
  {
    s.(mems := s.mems[b := s.mems[b].(occupy := Some(c))])
  }

  function SetState(s: Sched, c: nat, st: CoState): Sched
    requires c < |s.cos|
  {
    s.(cos := s.cos[c := s.cos[c].(state := st)])
  }

  /** When `SwapContext` may be called: the coroutine that has to give way (`SaveStack`) has a
      `dummy_`, and what was saved for `next` fits. `SwapIsReady` below shows that this holds
      whenever the scheduler calls it. */
  ghost predicate SwapReady(s: Sched, prev: nat, next: nat, d: nat)
  {
    && prev < |s.cos| && next < |s.cos|
    && (s.cos[prev].mem.Some? ==>
          s.cos[prev].mem.value < |s.mems| && d <= |s.mems[s.cos[prev].mem.value].bytes|)
    && (s.cos[next].shared ==>
          && s.cos[next].mem.Some? && s.cos[next].mem.value < |s.mems|
          && var b := s.cos[next].mem.value;
             var occ := s.mems[b].occupy;
             (occ.Some? && occ.value != next ==>
                && occ.value < |s.cos| && s.cos[occ.value].mem == Some(b)
                && (occ.value == prev || s.cos[occ.value].dummy.Some?)
                && (occ.value != prev ==> s.cos[occ.value].dummy.value <= |s.mems[b].bytes|)
                && s.cos[next].savedSize == |s.cos[next].saved|
                && (s.cos[next].savedSize > 0 ==>
                      && next != prev && s.cos[next].dummy.Some?
                      && s.cos[next].dummy.value + s.cos[next].savedSize <= |s.mems[b].bytes|)))
  }

  /** `SwapContext(prev, next)` called at stack offset `d` of `prev`. */
  function Swap(s: Sched, prev: nat, next: nat, d: nat): (u: Sched)
    requires SwapReady(s, prev, next, d)
    ensures |u.cos| == |s.cos|
  {
    var s1 := SetDummy(s, prev, d);
    if !s.cos[next].shared then s1 else
    var b := s.cos[next].mem.value;
    var occ := s.mems[b].occupy;
    var s2 := SetOccupant(s1, b, next);
    if occ.Some? && occ.value != next then ResumeStack(SaveStack(s2, occ.value), next) else s2
  }

  /** `Resume` up to the call of `SwapContext`. */
  function Enter(s: Sched, c: nat): Sched
    requires c < |s.cos| && s.running < |s.cos|
  {
    var s1 := if |s.stack| > 1 then SetState(s, s.running, Ready) else s;
    SetState(s1, c, Running).(stack := s.stack + [c], top := s.top + 1, running := c)
  }

  /** `Yield` and the end of `CoMainFunc`, up to the call of `SwapContext`: the top gives way to
      the coroutine below it. Only `Yield` marks the latter as running. */
  function Leave(s: Sched, finished: bool): Sched
    requires StackOk(s) && |s.stack| >= 2
  {
    var co, back := s.stack[s.top - 1], s.stack[s.top - 2];
    var s1 := if finished then SetState(s, co, Terminal) else SetState(SetState(s, co, Ready), back, Running);
    s1.(stack := s.stack[..|s.stack| - 1], top := s.top - 1, running := back)
  }

  // ----- runs -----

  /** The scheduler together with the stack pointer of the running coroutine: its live frame is
      `[sp, end)` of its buffer. */
  datatype Machine = Machine(s: Sched, sp: nat)

  /** One step of a run: a buffer or a coroutine is created, or the running coroutine pushes, pops
      or overwrites bytes of its frame, resumes a coroutine, yields or returns from its function. */
  datatype Label =
    | AddBuffer(bytes: seq<Byte>)
    | CreateShared(mem: nat)
    | CreatePrivate(bytes: seq<Byte>)
    | Push(data: seq<Byte>)
    | Pop(n: nat)
    | Poke(i: nat, b: Byte)
    | Resume(c: nat)
    | Yield
    | Finish

  /** `Impossible`: no program can do this step here (a buffer of somebody else, a stack overflow).
      `Aborted`: an assertion of `Resume` fails. `Thrown`: `Yield` with only main running. */
  datatype Result = Next(m: Machine) | Impossible | Aborted | Thrown

  predicate HasFrame(s: Sched) {
    s.running < |s.cos| && s.cos[s.running].mem.Some? && s.cos[s.running].mem.value < |s.mems|
  }

  function RunningMem(s: Sched): (b: nat)
    requires HasFrame(s)
  {
    s.cos[s.running].mem.value
  }

  function SetByte(bytes: seq<Byte>, i: nat, v: Byte): seq<Byte>
    requires i < |bytes|
  {
    bytes[i := v]
  }

  function SetBytes(s: Sched, b: nat, bytes: seq<Byte>): Sched
    requires b < |s.mems|
  {
    s.(mems := s.mems[b := s.mems[b].(bytes := bytes)])
  }

  /** A buffer that `GetStackMem` may hand out: no coroutine has it as its own private stack. */
  predicate PoolBuffer(s: Sched, b: nat) {
    b < |s.mems| && s.mems[b].owner == 0
  }

  /** The stack pointer that comes back with the context of `c`: where it called `SwapContext`, or
      the end of the buffer for a context fresh from `makecontext`. */
  function RestoredSp(s: Sched, c: nat): nat
    requires c < |s.cos|
  {
    if s.cos[c].dummy.Some? then s.cos[c].dummy.value
    else if s.cos[c].mem.Some? && s.cos[c].mem.value < |s.mems| then |s.mems[s.cos[c].mem.value].bytes|
    else 0
  }

  function SwapTo(s: Sched, prev: nat, next: nat, d: nat): Machine
    requires SwapReady(s, prev, next, d)
  {
    var u := Swap(s, prev, next, d);
    Machine(u, RestoredSp(u, next))
  }

  // ----- the invariant of the buffers -----

  /** A coroutine whose live bytes are in `saved_stack_`: it has run, and its shared buffer has
      another occupant. */
  ghost predicate Evicted(s: Sched, c: nat)
    requires c < |s.cos|
  {
    && s.cos[c].shared && s.cos[c].mem.Some? && s.cos[c].mem.value < |s.mems|
    && s.cos[c].dummy.Some? && c != s.running
    && s.mems[s.cos[c].mem.value].occupy != Some(c)
  }

  /** Names and offsets of a coroutine are in range, its buffer is of the right kind, and if it is
      evicted, `saved_size_` is the size of the buffer minus the offset of `dummy_`. */
  ghost predicate CoOk(s: Sched, c: nat)
    requires c < |s.cos|
  {
    var co := s.cos[c];
    && (co.mem.Some? ==>
          && co.mem.value < |s.mems|
          && s.mems[co.mem.value].owner == (if co.shared then 0 else c)
          && (co.dummy.Some? ==> co.dummy.value <= |s.mems[co.mem.value].bytes|))
    && (co.mem == None ==> !co.shared) && (c == 0 ==> co.mem == None)
    && co.savedSize == |co.saved|
    && (co.dummy == None ==> co.savedSize == 0)
    && (Evicted(s, c) ==>
          && s.mems[co.mem.value].occupy.Some?
          && co.savedSize == |s.mems[co.mem.value].bytes| - co.dummy.value)
  }

  /** Whoever occupies a buffer uses it as a shared stack, and has run. */
  ghost predicate OccupantOk(s: Sched, b: nat)
    requires b < |s.mems|
  {
    var occ := s.mems[b].occupy;
    occ.Some? ==>
      && occ.value < |s.cos| && s.cos[occ.value].mem == Some(b) && s.cos[occ.value].shared
      && (occ.value != s.running ==> s.cos[occ.value].dummy.Some?)
  }

  ghost predicate BuffersOk(m: Machine) {
    var s := m.s;
    && s.running < |s.cos|
    && (forall c :: 0 <= c < |s.cos| ==> CoOk(s, c))
    && (forall b :: 0 <= b < |s.mems| ==> OccupantOk(s, b))
    && CoOk(s, s.running)
    && (s.cos[s.running].shared ==> s.mems[s.cos[s.running].mem.value].occupy == Some(s.running))
    && (s.cos[s.running].mem.Some? ==> m.sp <= |s.mems[s.cos[s.running].mem.value].bytes|)
  }

  /** The live frame of a coroutine, wherever the scheduler currently keeps it. */
  ghost function FrameOf(m: Machine, c: nat): seq<Byte>
    requires c < |m.s.cos| && CoOk(m.s, c)
    requires c == m.s.running && m.s.cos[c].mem.Some? ==> m.sp <= |m.s.mems[m.s.cos[c].mem.value].bytes|
  {
    var co := m.s.cos[c];
    if co.mem == None then []
    else
      var mem := m.s.mems[co.mem.value];
      if c == m.s.running then mem.bytes[m.sp..]
      else if co.dummy == None then []
      else if co.shared && mem.occupy != Some(c) then co.saved
      else mem.bytes[co.dummy.value..]
  }

  ghost predicate SameButControl(s: Sched, t: Sched) {
    && s.mems == t.mems && |s.cos| == |t.cos|
    && forall c :: 0 <= c < |s.cos| ==> t.cos[c] == s.cos[c].(state := t.cos[c].state)
  }

  lemma SwapIsReady(s: Sched, sp: nat, t: Sched, next: nat)
    requires BuffersOk(Machine(s, sp)) && SameButControl(s, t)
    requires next < |s.cos| && t.running == next
    ensures SwapReady(t, s.running, next, sp)
  {
    assert t.cos[next] == s.cos[next].(state := t.cos[next].state);
    assert t.cos[s.running].mem == s.cos[s.running].mem;
    assert CoOk(s, next);
    if s.cos[next].shared {
      var b := s.cos[next].mem.value;
      var occ := s.mems[b].occupy;
      if occ.Some? && occ.value != next {
        assert OccupantOk(s, b);
        assert t.cos[occ.value].mem == s.cos[occ.value].mem == Some(b);
        assert CoOk(s, occ.value);
      }
    }
  }

  /** `c` holds the shared buffer that `next` needs. */
  ghost predicate GivesWay(s: Sched, next: nat, c: nat) {
    && next < |s.cos| && s.cos[next].shared && s.cos[next].mem.Some? && s.cos[next].mem.value < |s.mems|
    && s.mems[s.cos[next].mem.value].occupy == Some(c) && c != next
  }

  /** What a switch does to a coroutine: `prev` notes its stack offset, and the one that gives way
      takes a copy of its live bytes. */
  ghost predicate CoSwapped(s: Sched, prev: nat, next: nat, d: nat, u: Sched, c: nat)
    requires c < |s.cos| == |u.cos|
  {
    var o, n := s.cos[c], u.cos[c];
    && n.state == o.state && n.shared == o.shared && n.mem == o.mem
    && n.dummy == (if c == prev then Some(d) else o.dummy)
    && if GivesWay(s, next, c)
       then var bytes := s.mems[s.cos[next].mem.value].bytes;
            n.dummy.Some? && n.dummy.value <= |bytes| && n.saved == bytes[n.dummy.value..] && n.savedSize == |n.saved|
       else n.saved == o.saved && n.savedSize == o.savedSize
  }

  /** What a switch does to a buffer: `next` moves into its own, with its saved bytes if somebody
      else was there; every other buffer stays. */
  ghost predicate MemSwapped(s: Sched, next: nat, u: Sched, b: nat)
    requires b < |s.mems| == |u.mems| && next < |s.cos|
  {
    var o, n := s.mems[b], u.mems[b];
    var co := s.cos[next];
    if co.shared && co.mem == Some(b) then
      && n.occupy == Some(next) && n.owner == o.owner && |n.bytes| == |o.bytes|
      && if o.occupy.Some? && o.occupy.value != next && co.savedSize > 0
         then co.dummy.Some? && co.dummy.value + |co.saved| <= |o.bytes|
             && n.bytes == Overwrite(o.bytes, co.dummy.value, co.saved)
         else n.bytes == o.bytes
    else n == o
  }

  ghost predicate Swapped(s: Sched, prev: nat, next: nat, d: nat, u: Sched) {
    && |u.cos| == |s.cos| && |u.mems| == |s.mems| && next < |s.cos|
    && u.stack == s.stack && u.top == s.top && u.running == s.running
    && (forall c :: 0 <= c < |s.cos| ==> CoSwapped(s, prev, next, d, u, c))
    && (forall b :: 0 <= b < |s.mems| ==> MemSwapped(s, next, u, b))
  }

  lemma SwapEffect(s: Sched, prev: nat, next: nat, d: nat)
    requires SwapReady(s, prev, next, d)
    ensures Swapped(s, prev, next, d, Swap(s, prev, next, d))
  {
  }

  lemma SwapKeepsCo(s: Sched, sp: nat, t: Sched, next: nat, u: Sched, c: nat)
    requires BuffersOk(Machine(s, sp)) && SameButControl(s, t)
    requires next < |s.cos| && t.running == next && c < |s.cos|
    requires Swapped(t, s.running, next, sp, u)
    ensures CoOk(u, c)
  {
    assert t.cos[c] == s.cos[c].(state := t.cos[c].state);
    assert CoOk(s, c) && CoSwapped(t, s.running, next, sp, u, c);
    if s.cos[c].mem.Some? {
      assert MemSwapped(t, next, u, s.cos[c].mem.value);
      assert OccupantOk(s, s.cos[c].mem.value);
    }
    if t.cos[next].shared {
      assert CoOk(s, next);
      assert OccupantOk(s, s.cos[next].mem.value);
    }
  }

  lemma SwapKeepsOccupant(s: Sched, sp: nat, t: Sched, next: nat, u: Sched, b: nat)
    requires BuffersOk(Machine(s, sp)) && SameButControl(s, t)
    requires next < |s.cos| && t.running == next && b < |s.mems|
    requires Swapped(t, s.running, next, sp, u)
    ensures OccupantOk(u, b)
  {
    assert OccupantOk(s, b) && MemSwapped(t, next, u, b);
    assert CoOk(s, next);
    if u.mems[b].occupy.Some? {
      assert CoSwapped(t, s.running, next, sp, u, u.mems[b].occupy.value);
    }
  }

  lemma SwapKeepsBuffers(s: Sched, sp: nat, t: Sched, next: nat, u: Sched)
    requires BuffersOk(Machine(s, sp)) && SameButControl(s, t)
    requires next < |s.cos| && t.running == next
    requires Swapped(t, s.running, next, sp, u)
    ensures BuffersOk(Machine(u, RestoredSp(u, next)))
  {
    forall c | 0 <= c < |s.cos| ensures CoOk(u, c) {
      SwapKeepsCo(s, sp, t, next, u, c);
    }
    forall b | 0 <= b < |s.mems| ensures OccupantOk(u, b) {
      SwapKeepsOccupant(s, sp, t, next, u, b);
    }
    assert CoOk(u, next) && CoSwapped(t, s.running, next, sp, u, next);
    if u.cos[next].mem.Some? {
      assert MemSwapped(t, next, u, u.cos[next].mem.value);
    }
  }

  lemma SwapKeepsFrame(s: Sched, sp: nat, t: Sched, next: nat, u: Sched, c: nat)
    requires BuffersOk(Machine(s, sp)) && SameButControl(s, t)
    requires next < |s.cos| && t.running == next && c < |s.cos|
    requires Swapped(t, s.running, next, sp, u) && BuffersOk(Machine(u, RestoredSp(u, next)))
    ensures CoOk(u, c) && CoOk(s, c)
    ensures FrameOf(Machine(u, RestoredSp(u, next)), c) == FrameOf(Machine(s, sp), c)
  {
    assert t.cos[c] == s.cos[c].(state := t.cos[c].state);
    assert CoOk(s, c) && CoOk(u, c) && CoOk(s, next) && CoOk(u, next);
    assert CoSwapped(t, s.running, next, sp, u, c);
    if s.cos[c].mem.Some? {
      var b := s.cos[c].mem.value;
      assert OccupantOk(s, b) && OccupantOk(u, b) && MemSwapped(t, next, u, b);
      if c == next && Evicted(s, c) {
        var bytes, d := u.mems[b].bytes, s.cos[c].dummy.value;
        assert s.cos[c].savedSize > 0 ==> bytes[d..] == s.cos[c].saved;
        assert s.cos[c].savedSize == 0 ==> bytes[d..] == [] == s.cos[c].saved;
      } else if c == next {
      } else if GivesWay(t, next, c) {
        assert OccupantOk(s, s.cos[next].mem.value);
      } else if c == s.running {
      } else {
        assert u.cos[c].dummy == s.cos[c].dummy;
      }
    }
  }

  /** The one lemma about `SwapContext`: called after the control part has been updated, it is well
      defined (in particular `SaveStack` never meets a null `dummy_`), keeps the invariant of the
      buffers, and changes nobody's frame. */
  lemma SwapKeepsFrames(m: Machine, t: Sched, next: nat)
    requires BuffersOk(m) && SameButControl(m.s, t)
    requires next < |t.cos| && t.running == next
    ensures SwapReady(t, m.s.running, next, m.sp)
    ensures Swapped(t, m.s.running, next, m.sp, Swap(t, m.s.running, next, m.sp))
    ensures BuffersOk(SwapTo(t, m.s.running, next, m.sp))
    ensures forall c :: 0 <= c < |t.cos| ==>
              && CoOk(m.s, c) && CoOk(Swap(t, m.s.running, next, m.sp), c)
              && FrameOf(SwapTo(t, m.s.running, next, m.sp), c) == FrameOf(m, c)
  {
    SwapIsReady(m.s, m.sp, t, next);
    var u := Swap(t, m.s.running, next, m.sp);
    SwapEffect(t, m.s.running, next, m.sp);
    SwapKeepsBuffers(m.s, m.sp, t, next, u);
    forall c | 0 <= c < |t.cos|
      ensures CoOk(m.s, c) && CoOk(u, c) && FrameOf(SwapTo(t, m.s.running, next, m.sp), c) == FrameOf(m, c)
    {
      SwapKeepsFrame(m.s, m.sp, t, next, u, c);
    }
  }

  // ----- steps -----

  ghost predicate Inv(m: Machine) {
    BuffersOk(m) && StackOk(m.s)
  }

  /** The new bytes of the running coroutine's buffer and its new stack pointer. */
  function Written(bytes: seq<Byte>, sp: nat, l: Label): (r: (seq<Byte>, nat))
    requires match l case Push(data) => |data| <= sp <= |bytes| case Pop(n) => sp + n <= |bytes|
        case Poke(i, _) => sp + i < |bytes| case _ => false
    ensures |r.0| == |bytes| && r.1 <= |bytes|
    ensures r.0[r.1..] == match l case Push(data) => data + bytes[sp..] case Pop(n) => bytes[sp..][n..]
        case Poke(i, v) => SetByte(bytes[sp..], i, v)
  {
    match l
    case Push(data) =>
      assert Overwrite(bytes, sp - |data|, data)[sp - |data|..] == data + bytes[sp..];
      (Overwrite(bytes, sp - |data|, data), sp - |data|)
    case Pop(n) => (bytes, sp + n)
    case Poke(i, v) =>
      assert SetByte(bytes, sp + i, v)[sp..] == SetByte(bytes[sp..], i, v);
      (SetByte(bytes, sp + i, v), sp)
  }

  function Write(m: Machine, l: Label): Result
    requires HasFrame(m.s) && m.sp <= |m.s.mems[RunningMem(m.s)].bytes|
    requires match l case Push(data) => |data| <= m.sp
        case Pop(n) => m.sp + n <= |m.s.mems[RunningMem(m.s)].bytes|
        case Poke(i, _) => m.sp + i < |m.s.mems[RunningMem(m.s)].bytes| case _ => false
  {
    var b := RunningMem(m.s);
    var w := Written(m.s.mems[b].bytes, m.sp, l);
    Next(Machine(SetBytes(m.s, b, w.0), w.1))
  }

  ghost function Step(m: Machine, l: Label): Result
    requires Inv(m)
  {
    var s := m.s;
    match l
    case AddBuffer(bytes) => Next(m.(s := s.(mems := s.mems + [Mem(None, bytes, 0)])))
    case CreateShared(b) =>
      if PoolBuffer(s, b) then Next(m.(s := s.(cos := s.cos + [FreshCo(true, b)]))) else Impossible
    case CreatePrivate(bytes) =>
      Next(m.(s := s.(mems := s.mems + [Mem(None, bytes, |s.cos|)], cos := s.cos + [FreshCo(false, |s.mems|)])))
    case Push(data) => if HasFrame(s) && |data| <= m.sp then Write(m, l) else Impossible
    case Pop(n) =>
      if HasFrame(s) && m.sp + n <= |s.mems[RunningMem(s)].bytes| then Write(m, l) else Impossible
    case Poke(i, _) =>
      if HasFrame(s) && m.sp + i < |s.mems[RunningMem(s)].bytes| then Write(m, l) else Impossible
    case Resume(c) =>
      if c >= |s.cos| then Impossible
      else if s.cos[c].state == Terminal then Next(m)
      else if !CanSwitch(s, l) then Aborted
      else SwitchTo(m, Control(s, l))
    case Yield => if CanSwitch(s, l) then SwitchTo(m, Control(s, l)) else Thrown
    case Finish => if CanSwitch(s, l) then SwitchTo(m, Control(s, l)) else Impossible
  }

  /** The checks before a switch: the two assertions of `Resume`, and a coroutine to return to. */
  predicate CanSwitch(s: Sched, l: Label) {
    match l
    case Resume(c) => c < |s.cos| && s.running < |s.cos| && s.cos[c].state == Ready && s.cos[s.running].state == Running
    case Yield => |s.stack| >= 2
    case Finish => |s.stack| >= 2
    case _ => false
  }

  lemma EnterOk(s: Sched, c: nat)
    requires StackOk(s) && CanSwitch(s, Resume(c))
    ensures SameButControl(s, Enter(s, c)) && StackOk(Enter(s, c))
  {
  }

  lemma LeaveOk(s: Sched, finished: bool)
    requires StackOk(s) && |s.stack| >= 2
    ensures SameButControl(s, Leave(s, finished)) && StackOk(Leave(s, finished))
  {
  }

  /** The scheduler when `Resume`, `Yield` or `CoMainFunc` calls `SwapContext`. */
  function Control(s: Sched, l: Label): (t: Sched)
    requires StackOk(s) && CanSwitch(s, l)
    ensures SameButControl(s, t) && StackOk(t)
  {
    match l
    case Resume(c) => EnterOk(s, c); Enter(s, c)
    case Yield => LeaveOk(s, false); Leave(s, false)
    case Finish => LeaveOk(s, true); Leave(s, true)
  }

  /** `Control` for `Yield`, in the order of the method: first the stack, then the states. */
  lemma YieldIs(s: Sched)
    requires StackOk(s) && |s.stack| >= 2
    ensures var co, back := s.stack[s.top - 1], s.stack[s.top - 2];
            var s1 := s.(stack := s.stack[..|s.stack| - 1], top := s.top - 1, running := back);
            Control(s, Yield) == SetState(SetState(s1, co, Ready), back, Running)
  {
  }

  ghost function SwitchTo(m: Machine, t: Sched): Result
    requires BuffersOk(m) && SameButControl(m.s, t) && t.running < |t.cos|
  {
    SwapIsReady(m.s, m.sp, t, t.running);
    Next(SwapTo(t, m.s.running, t.running, m.sp))
  }

  predicate IsSwitch(l: Label) {
    l.Resume? || l.Yield? || l.Finish?
  }

  /** `Step` for the three methods of the scheduler, in the terms in which they compute it. */
  lemma SwitchStep(m: Machine, l: Label)
    requires Inv(m) && IsSwitch(l) && (l.Resume? ==> l.c < |m.s.cos|)
    ensures if CanSwitch(m.s, l) then
              var t := Control(m.s, l);
              && SwapReady(t, m.s.running, t.running, m.sp) && Step(m, l).Next?
              && Step(m, l).m.s == Swap(t, m.s.running, t.running, m.sp)
            else if l.Resume? && m.s.cos[l.c].state == Terminal then Step(m, l) == Next(m)
            else !Step(m, l).Next?
  {
    if CanSwitch(m.s, l) { SwapIsReady(m.s, m.sp, Control(m.s, l), Control(m.s, l).running); }
  }

  /** The simple machine that the scheduler must agree with: every coroutine owns a byte sequence
      that nobody else can touch, and a switch copies nothing. Resuming a coroutine in `done` does
      nothing; `Yield` takes the two coroutines it marks READY and RUNNING out of `done`, as the code does. */
  datatype Private = Private(frames: seq<seq<Byte>>, stack: seq<nat>, done: set<nat>)

  function Top(stack: seq<nat>): nat {
    if stack == [] then 0 else stack[|stack| - 1]
  }

  function DropTop(stack: seq<nat>): seq<nat> {
    if stack == [] then [] else stack[..|stack| - 1]
  }

  function PrivateStep(p: Private, l: Label): Private {
    var top := Top(p.stack);
    match l
    case AddBuffer(_) => p
    case CreateShared(_) => p.(frames := p.frames + [[]])
    case CreatePrivate(_) => p.(frames := p.frames + [[]])
    case Push(data) => if top < |p.frames| then p.(frames := p.frames[top := data + p.frames[top]]) else p
    case Pop(n) =>
      if top < |p.frames| && n <= |p.frames[top]| then p.(frames := p.frames[top := p.frames[top][n..]]) else p
    case Poke(i, v) =>
      if top < |p.frames| && i < |p.frames[top]| then p.(frames := p.frames[top := SetByte(p.frames[top], i, v)]) else p
    case Resume(c) => if c in p.done then p else p.(stack := p.stack + [c])
    case Yield => p.(stack := DropTop(p.stack), done := p.done - {top, Top(DropTop(p.stack))})
    case Finish => p.(stack := DropTop(p.stack), done := p.done + {top})
  }

  ghost predicate Agrees(m: Machine, p: Private) {
    && Inv(m)
    && p.stack == m.s.stack && |p.frames| == |m.s.cos|
    && (forall c :: 0 <= c < |m.s.cos| ==> p.frames[c] == FrameOf(m, c))
    && (forall c: nat :: c in p.done <==> c < |m.s.cos| && m.s.cos[c].state == Terminal)
  }

  lemma CreateAgrees(m: Machine, s': Sched, p: Private, co: Co, extra: seq<Mem>)
    requires Agrees(m, p)
    requires s' == m.s.(mems := m.s.mems + extra, cos := m.s.cos + [co])
    requires forall b :: 0 <= b < |extra| ==> extra[b].occupy == None
    requires co.state == Ready && co.mem.Some? && co.mem.value < |s'.mems| && co.dummy == None
        && co.savedSize == |co.saved| == 0
    requires s'.mems[co.mem.value].owner == (if co.shared then 0 else |m.s.cos|)
    ensures Agrees(Machine(s', m.sp), p.(frames := p.frames + [[]]))
  {
    var s := m.s;
    forall c | 0 <= c < |s'.cos| ensures CoOk(s', c) {
      if c < |s.cos| { assert CoOk(s, c); }
    }
    forall b | 0 <= b < |s'.mems| ensures OccupantOk(s', b) {
      if b < |s.mems| { assert OccupantOk(s, b); }
    }
    forall c | 0 <= c < |s'.cos| ensures (p.frames + [[]])[c] == FrameOf(Machine(s', m.sp), c) {
      if c < |s.cos| {
        assert CoOk(s, c);
        assert p.frames[c] == FrameOf(m, c);
        if s.cos[c].mem.Some? { assert s'.mems[s.cos[c].mem.value] == s.mems[s.cos[c].mem.value]; }
      }
    }
  }

  lemma BufferAgrees(m: Machine, p: Private, x: Mem)
    requires Agrees(m, p) && x.occupy == None
    ensures Agrees(m.(s := m.s.(mems := m.s.mems + [x])), p)
  {
    var s, s' := m.s, m.s.(mems := m.s.mems + [x]);
    forall c | 0 <= c < |s.cos|
      ensures CoOk(s', c) && FrameOf(Machine(s', m.sp), c) == FrameOf(m, c)
    {
      assert CoOk(s, c);
      if s.cos[c].mem.Some? { assert s'.mems[s.cos[c].mem.value] == s.mems[s.cos[c].mem.value]; }
    }
    forall b | 0 <= b < |s'.mems| ensures OccupantOk(s', b) {
      if b < |s.mems| { assert OccupantOk(s, b); }
    }
  }

  /** The running coroutine writes its own buffer: nobody else's frame is there. */
  lemma WriteAgrees(m: Machine, p: Private, bytes: seq<Byte>, sp: nat)
    requires Agrees(m, p) && HasFrame(m.s)
    requires |bytes| == |m.s.mems[RunningMem(m.s)].bytes| && sp <= |bytes|
    ensures Agrees(Machine(SetBytes(m.s, RunningMem(m.s), bytes), sp),
        p.(frames := p.frames[Top(p.stack) := bytes[sp..]]))
  {
    var s, b := m.s, RunningMem(m.s);
    var m' := Machine(SetBytes(s, b, bytes), sp);
    forall c | 0 <= c < |s.cos|
      ensures CoOk(m'.s, c) && (c != s.running ==> FrameOf(m', c) == FrameOf(m, c))
    {
      assert CoOk(s, c) && CoOk(s, s.running);
      if s.cos[c].mem.Some? {
        assert OccupantOk(s, s.cos[c].mem.value);
      }
    }
    forall b' | 0 <= b' < |s.mems| ensures OccupantOk(m'.s, b') {
      assert OccupantOk(s, b');
    }
  }

  lemma SwitchAgrees(m: Machine, p: Private, t: Sched, p': Private)
    requires Agrees(m, p)
    requires SameButControl(m.s, t) && StackOk(t)
    requires p'.frames == p.frames && p'.stack == t.stack
    requires forall c: nat :: c in p'.done <==> c < |t.cos| && t.cos[c].state == Terminal
    ensures SwitchTo(m, t).Next? && Agrees(SwitchTo(m, t).m, p')
  {
    SwapKeepsFrames(m, t, t.running);
    var u := Swap(t, m.s.running, t.running, m.sp);
    forall c | 0 <= c < |t.cos| ensures u.cos[c].state == t.cos[c].state && u.cos[c].mem == t.cos[c].mem {
      assert CoSwapped(t, m.s.running, t.running, m.sp, u, c);
    }
  }

  lemma ControlAgrees(s: Sched, l: Label, p: Private)
    requires StackOk(s) && CanSwitch(s, l)
    requires p.stack == s.stack
    requires forall c: nat :: c in p.done <==> c < |s.cos| && s.cos[c].state == Terminal
    ensures var t, p' := Control(s, l), PrivateStep(p, l);
            && p'.frames == p.frames && p'.stack == t.stack
            && (forall c: nat :: c in p'.done <==> c < |t.cos| && t.cos[c].state == Terminal)
  {
  }

  lemma SwitchStepAgrees(m: Machine, l: Label, p: Private)
    requires Agrees(m, p) && IsSwitch(l) && Step(m, l).Next?
    ensures Agrees(Step(m, l).m, PrivateStep(p, l))
  {
    if CanSwitch(m.s, l) {
      ControlAgrees(m.s, l, p);
      SwitchAgrees(m, p, Control(m.s, l), PrivateStep(p, l));
    }
  }

  lemma CreateStepAgrees(m: Machine, l: Label, p: Private)
    requires Agrees(m, p) && (l.AddBuffer? || l.CreateShared? || l.CreatePrivate?) && Step(m, l).Next?
    ensures Agrees(Step(m, l).m, PrivateStep(p, l))
  {
    assert |p.frames| == |m.s.cos|;
    hide Swap, SwapReady, CoOk, OccupantOk, BuffersOk, StackOk, Inv, Agrees;
    var s := m.s;
    match l
    case AddBuffer(bytes) => BufferAgrees(m, p, Mem(None, bytes, 0));
    case CreateShared(b) => CreateAgrees(m, Step(m, l).m.s, p, FreshCo(true, b), []);
    case CreatePrivate(bytes) =>
      CreateAgrees(m, Step(m, l).m.s, p, FreshCo(false, |s.mems|), [Mem(None, bytes, |s.cos|)]);
  }

  lemma WriteStepAgrees(m: Machine, l: Label, p: Private)
    requires Agrees(m, p) && (l.Push? || l.Pop? || l.Poke?) && Step(m, l).Next?
    ensures Agrees(Step(m, l).m, PrivateStep(p, l))
  {
    var s := m.s;
    assert CoOk(s, s.running) && s.mems[RunningMem(s)].bytes[m.sp..] == FrameOf(m, s.running) == p.frames[Top(p.stack)];
    hide Agrees, Written;
    var w := Written(s.mems[RunningMem(s)].bytes, m.sp, l);
    WriteAgrees(m, p, w.0, w.1);
  }

  /** Every step of the scheduler is the step of the private-stack machine. */
  lemma StepAgrees(m: Machine, l: Label, p: Private)
    requires Agrees(m, p) && Step(m, l).Next?
    ensures Agrees(Step(m, l).m, PrivateStep(p, l))
  {
    match l
    case Push(_) => WriteStepAgrees(m, l, p);
    case Pop(_) => WriteStepAgrees(m, l, p);
    case Poke(_, _) => WriteStepAgrees(m, l, p);
    case Resume(_) => SwitchStepAgrees(m, l, p);
    case Yield => SwitchStepAgrees(m, l, p);
    case Finish => SwitchStepAgrees(m, l, p);
    case _ => CreateStepAgrees(m, l, p);
  }

  /** The private-stack machine in the same situation. */
  ghost function View(m: Machine): (p: Private)
    requires Inv(m)
    ensures Agrees(m, p)
  {
    var done := set c: nat | c < |m.s.cos| && m.s.cos[c].state == Terminal;
    assert forall c: nat :: c < |m.s.cos| ==> CoOk(m.s, c);
    Private(seq(|m.s.cos|, c requires 0 <= c < |m.s.cos| => FrameOf(m, c)), m.s.stack, done)
  }

  lemma StepKeepsInv(m: Machine, l: Label)
    requires Inv(m)
    ensures Step(m, l).Next? ==> Inv(Step(m, l).m)
  {
    if Step(m, l).Next? { StepAgrees(m, l, View(m)); }
  }

  // ----- runs -----

  ghost function Run(m: Machine, ls: seq<Label>): (r: Option<Machine>)
    requires Inv(m)
    ensures r.Some? ==> Inv(r.value)
    decreases |ls|
  {
    if ls == [] then Some(m) else
    StepKeepsInv(m, ls[0]);
    var r := Step(m, ls[0]);
    if r.Next? then Run(r.m, ls[1..]) else None
  }

  function PrivateRun(p: Private, ls: seq<Label>): Private
    decreases |ls|
  {
    if ls == [] then p else PrivateRun(PrivateStep(p, ls[0]), ls[1..])
  }

  lemma {:induction false} RunAgrees(m: Machine, p: Private, ls: seq<Label>)
    requires Agrees(m, p) && Run(m, ls).Some?
    ensures Agrees(Run(m, ls).value, PrivateRun(p, ls))
    decreases |ls|
  {
    assert Inv(m);
    hide Step, PrivateStep, Agrees, Inv;
    if ls != [] {
      StepKeepsInv(m, ls[0]);
      StepAgrees(m, ls[0], p);
      RunAgrees(Step(m, ls[0]).m, PrivateStep(p, ls[0]), ls[1..]);
    }
  }

  const START := Machine(INIT, 0)

  lemma StartOk()
    ensures Inv(START) && Agrees(START, Private([[]], [0], {}))
  {
    assert CoOk(INIT, 0);
  }

  /** Shared stacks refine private stacks: after any run the control stack is that of the
      private-stack machine, and the bytes the running coroutine finds between its stack pointer and
      the end of its buffer are its own private frame, however many coroutines share the buffer. */
  lemma SharedRefinesPrivate(ls: seq<Label>)
    ensures Inv(START)
    ensures Run(START, ls).Some? ==>
              var m, p := Run(START, ls).value, PrivateRun(Private([[]], [0], {}), ls);
              && m.s.stack == p.stack && m.s.running == Top(p.stack) < |p.frames| == |m.s.cos|
              && (HasFrame(m.s) ==>
                    m.sp <= |m.s.mems[RunningMem(m.s)].bytes|
                    && m.s.mems[RunningMem(m.s)].bytes[m.sp..] == p.frames[Top(p.stack)])
  {
    StartOk();
    if Run(START, ls).Some? {
      RunAgrees(START, Private([[]], [0], {}), ls);
      var m := Run(START, ls).value;
      assert CoOk(m.s, m.s.running);
    }
  }

  /** `c` gives up control in the first step and is not the running one again before the last. */
  ghost predicate Away(m: Machine, ls: seq<Label>, c: nat)
    requires Inv(m)
    decreases |ls|
  {
    if ls == [] then true else
      StepKeepsInv(m, ls[0]);
      var r := Step(m, ls[0]);
      r.Next? && (|ls| > 1 ==> r.m.s.running != c) && Away(r.m, ls[1..], c)
  }

  /** `c` has the buffer it had, and that has the size it had. */
  ghost predicate SameBuffer(s: Sched, s': Sched, c: nat)
    requires c < |s.cos|
  {
    && c < |s'.cos| && s'.cos[c].mem == s.cos[c].mem
    && (s.cos[c].mem.Some? ==>
          && s.cos[c].mem.value < |s.mems| && s.cos[c].mem.value < |s'.mems|
          && |s'.mems[s.cos[c].mem.value].bytes| == |s.mems[s.cos[c].mem.value].bytes|)
  }

  lemma SwapKeepsBuffer(m: Machine, t: Sched, c: nat)
    requires BuffersOk(m) && SameButControl(m.s, t) && t.running < |t.cos| && c < |m.s.cos|
    ensures SwapReady(t, m.s.running, t.running, m.sp)
    ensures SameBuffer(m.s, Swap(t, m.s.running, t.running, m.sp), c)
  {
    SwapIsReady(m.s, m.sp, t, t.running);
    SwapEffect(t, m.s.running, t.running, m.sp);
    var u := Swap(t, m.s.running, t.running, m.sp);
    assert CoOk(m.s, c) && CoSwapped(t, m.s.running, t.running, m.sp, u, c);
    assert t.cos[c] == m.s.cos[c].(state := t.cos[c].state);
    if m.s.cos[c].mem.Some? { assert MemSwapped(t, t.running, u, m.s.cos[c].mem.value); }
  }

  lemma StepKeepsBuffer(m: Machine, l: Label, c: nat)
    requires Inv(m) && c < |m.s.cos| && Step(m, l).Next?
    ensures SameBuffer(m.s, Step(m, l).m.s, c)
  {
    if CanSwitch(m.s, l) {
      hide SameBuffer;
      SwapKeepsBuffer(m, Control(m.s, l), c);
    } else {
      assert CoOk(m.s, c);
    }
  }

  /** `c` has the same live bytes in a buffer of the same size, at the same place. */
  ghost predicate SameFrame(m: Machine, m': Machine, c: nat)
    requires Inv(m) && Inv(m')
  {
    var s, s' := m.s, m'.s;
    && c < |s.cos| && SameBuffer(s, s', c) && View(m').frames[c] == View(m).frames[c]
  }

  lemma StepKeepsFrame(m: Machine, l: Label, c: nat)
    requires Inv(m) && c < |m.s.cos| && Step(m, l).Next?
    requires m.s.running == c ==> IsSwitch(l)
    ensures Inv(Step(m, l).m) && SameFrame(m, Step(m, l).m, c)
  {
    var p := View(m);
    assert |p.frames| == |m.s.cos| && p.stack == m.s.stack && m.s.stack != [] && Top(m.s.stack) == m.s.running;
    hide Step, Inv, StackOk, BuffersOk, Agrees, PrivateStep, SameBuffer, IsSwitch, View;
    StepKeepsInv(m, l);
    StepKeepsBuffer(m, l, c);
    StepAgrees(m, l, p);
    var m' := Step(m, l).m;
    OtherFrames(p, l, c);
    AgreedFrame(m', PrivateStep(p, l), c);
  }

  lemma AgreedFrame(m: Machine, p: Private, c: nat)
    requires Inv(m) && Agrees(m, p) && c < |p.frames|
    ensures |View(m).frames| == |p.frames| && View(m).frames[c] == p.frames[c]
  {
    hide Inv;
  }

  lemma OtherFrames(p: Private, l: Label, c: nat)
    requires c < |p.frames| && p.stack != [] && Top(p.stack) < |p.frames|
    requires Top(p.stack) == c ==> IsSwitch(l)
    ensures c < |PrivateStep(p, l).frames| && PrivateStep(p, l).frames[c] == p.frames[c]
  {
  }

  lemma {:induction false} AwayKeepsFrame(m: Machine, ls: seq<Label>, c: nat)
    requires Inv(m) && c < |m.s.cos| && Away(m, ls, c)
    requires m.s.running == c && ls != [] ==> IsSwitch(ls[0])
    ensures Run(m, ls).Some? && SameFrame(m, Run(m, ls).value, c)
    decreases |ls|
  {
    if ls == [] {
      assert c != 0 ==> CoOk(m.s, c);
      assert CoOk(m.s, c);
    } else {
      hide Step, Inv, View;
      StepKeepsFrame(m, ls[0], c);
      AwayKeepsFrame(Step(m, ls[0]).m, ls[1..], c);
    }
  }

  /** Whenever a coroutine gets control back, its stack pointer and all bytes from there to the end
      of its buffer are what they were when it gave control up, whatever ran in between. */
  lemma ControlComesBackIntact(m: Machine, ls: seq<Label>)
    requires Inv(m) && HasFrame(m.s) && ls != [] && IsSwitch(ls[0])
    requires Away(m, ls, m.s.running)
    ensures Run(m, ls).Some?
    ensures var m' := Run(m, ls).value;
            m'.s.running == m.s.running ==>
              && HasFrame(m'.s) && RunningMem(m'.s) == RunningMem(m.s)
              && m'.sp == m.sp <= |m'.s.mems[RunningMem(m'.s)].bytes| == |m.s.mems[RunningMem(m.s)].bytes|
              && m'.s.mems[RunningMem(m'.s)].bytes[m'.sp..] == m.s.mems[RunningMem(m.s)].bytes[m.sp..]
  {
    var c := m.s.running;
    AwayKeepsFrame(m, ls, c);
    var m' := Run(m, ls).value;
    if m'.s.running == c {
      assert CoOk(m.s, c) && CoOk(m'.s, c);
      assert View(m).frames[c] == FrameOf(m, c) == FrameOf(m', c) == View(m').frames[c];
    }
  }

  // ----- the control stack -----

  /** The stack stays deeper than `n` before every step of the run. */
  ghost predicate Deeper(m: Machine, ls: seq<Label>, n: nat)
    requires Inv(m)
    decreases |ls|
  {
    if ls == [] then true else
      StepKeepsInv(m, ls[0]);
      var r := Step(m, ls[0]);
      |m.s.stack| > n && r.Next? && Deeper(r.m, ls[1..], n)
  }

  lemma StepBracket(m: Machine, l: Label, n: nat)
    requires Inv(m) && 1 <= n < |m.s.stack| && Step(m, l).Next?
    ensures var m' := Step(m, l).m; |m'.s.stack| >= n && m'.s.stack[..n] == m.s.stack[..n]
    ensures m.s.running == m.s.stack[|m.s.stack| - 1]
  {
    StepAgrees(m, l, View(m));
    InvTop(m);
    hide Inv, Step;
    assert m.s.stack == View(m).stack && Step(m, l).m.s.stack == PrivateStep(View(m), l).stack;
  }

  /** From any point on, as long as the stack is deeper than `n`, its first `n` entries stay; when
      the depth is `n` again, the running coroutine is the last of them. */
  lemma {:induction false} ResumeReturnBracket(m: Machine, ls: seq<Label>, n: nat)
    requires Inv(m) && 1 <= n <= |m.s.stack| && Deeper(m, ls, n)
    ensures Run(m, ls).Some?
    ensures var s' := Run(m, ls).value.s;
            && |s'.stack| >= n && s'.stack[..n] == m.s.stack[..n]
            && (|s'.stack| == n ==> s'.stack == m.s.stack[..n] && s'.running == m.s.stack[n - 1])
    decreases |ls|
  {
    InvTop(m);
    hide Step, Inv;
    if ls == [] {
      assert m.s.stack[..|m.s.stack|] == m.s.stack;
    } else {
      StepKeepsInv(m, ls[0]);
      StepBracket(m, ls[0], n);
      hide StackOk;
      ResumeReturnBracket(Step(m, ls[0]).m, ls[1..], n);
    }
  }

  /** The lifecycle of a coroutine, for schedulers in which nobody resumes a coroutine that is
      already on the stack. */
  ghost predicate Lifecycle(s: Sched) {
    && StackOk(s)
    && (forall i, j :: 0 <= i < j < |s.stack| ==> s.stack[i] != s.stack[j])
    && (forall c :: 0 <= c < |s.cos| && s.cos[c].state == Terminal ==> c !in s.stack)
    && (forall c :: 0 <= c < |s.cos| && c !in s.stack ==> s.cos[c].state != Running)
    && (forall i :: 1 <= i < |s.stack| - 1 ==> s.cos[s.stack[i]].state == Ready)
  }

  /** A switch leaves the stack and the states as `Control` set them; other steps only add READY
      coroutines. */
  lemma StepControl(m: Machine, l: Label)
    requires Inv(m) && Step(m, l).Next?
    ensures var s, s' := m.s, Step(m, l).m.s;
            var t := if CanSwitch(s, l) then Control(s, l) else s;
            && s'.stack == t.stack && |s'.cos| >= |t.cos| && (CanSwitch(s, l) ==> |s'.cos| == |t.cos|)
            && forall d :: 0 <= d < |s'.cos| ==> s'.cos[d].state == if d < |t.cos| then t.cos[d].state else Ready
  {
    if CanSwitch(m.s, l) {
      var t := Control(m.s, l);
      SwapKeepsFrames(m, t, t.running);
      var u := Swap(t, m.s.running, t.running, m.sp);
      forall d | 0 <= d < |t.cos| ensures u.cos[d].state == t.cos[d].state {
        assert CoSwapped(t, m.s.running, t.running, m.sp, u, d);
      }
    }
  }

  ghost predicate NoReentry(s: Sched, l: Label) {
    l.Resume? ==> l.c !in s.stack
  }

  lemma EnterKeepsLifecycle(s: Sched, c: nat)
    requires Lifecycle(s) && c !in s.stack && CanSwitch(s, Resume(c))
    ensures Lifecycle(Control(s, Resume(c)))
    ensures forall d :: 0 <= d < |s.cos| && s.cos[d].state == Terminal ==>
        Control(s, Resume(c)).cos[d].state == Terminal
  {
    var t := Control(s, Resume(c));
    assert t.stack == s.stack + [c] && |t.cos| == |s.cos|;
    assert forall d :: 0 <= d < |s.cos| ==>
        t.cos[d].state == if d == c then Running else if d == s.running && |s.stack| > 1 then Ready else s.cos[d].state;
    assert s.running == s.stack[|s.stack| - 1] && s.running in s.stack;
    hide Enter, SetState, Control;
    forall d | 0 <= d < |s.cos| && d !in t.stack ensures t.cos[d].state != Running {
      assert d !in s.stack && d != c;
    }
  }

  lemma TopOrBelow(stack: seq<nat>, c: nat)
    requires stack != []
    ensures c in stack <==> c in DropTop(stack) || c == Top(stack)
  {
    assert stack == DropTop(stack) + [Top(stack)];
  }

  /** A shorter stack, with the states that a return of control leaves behind. */
  lemma DropKeepsLifecycle(s: Sched, t: Sched, finished: bool)
    requires Lifecycle(s) && StackOk(t) && |s.stack| >= 2
    requires t.stack == DropTop(s.stack) && |t.cos| == |s.cos|
    requires forall d :: 0 <= d < |s.cos| ==>
               t.cos[d].state ==
               if d == Top(s.stack) then (if finished then Terminal else Ready)
               else if d == Top(t.stack) && !finished then Running
               else s.cos[d].state
    ensures Lifecycle(t)
  {
    var n := |s.stack|;
    assert Top(s.stack) !in t.stack && Top(t.stack) == s.stack[n - 2];
    forall d | 0 <= d < |s.cos|
      ensures t.cos[d].state == Terminal ==> d !in t.stack
      ensures d !in t.stack ==> t.cos[d].state != Running
    {
      TopOrBelow(s.stack, d);
    }
  }

  /** What `Leave` makes of the stack and the states. */
  lemma LeaveStates(s: Sched, finished: bool)
    requires StackOk(s) && |s.stack| >= 2 && Top(s.stack) != Top(DropTop(s.stack))
    ensures var t := Leave(s, finished);
            && t.stack == DropTop(s.stack) && |t.cos| == |s.cos|
            && forall d :: 0 <= d < |s.cos| ==>
                 t.cos[d].state ==
                 if d == Top(s.stack) then (if finished then Terminal else Ready)
                 else if d == Top(t.stack) && !finished then Running
                 else s.cos[d].state
  {
  }

  lemma LeaveKeepsLifecycle(s: Sched, l: Label)
    requires Lifecycle(s) && (l.Yield? || l.Finish?) && CanSwitch(s, l)
    ensures Lifecycle(Control(s, l))
    ensures forall d :: 0 <= d < |s.cos| && s.cos[d].state == Terminal ==> Control(s, l).cos[d].state == Terminal
  {
    var t := Control(s, l);
    assert Top(DropTop(s.stack)) == s.stack[|s.stack| - 2] && Top(s.stack) in s.stack && Top(DropTop(s.stack)) in s.stack;
    LeaveStates(s, l.Finish?);
    hide Leave, SetState, StackOk;
    assert t == Leave(s, l.Finish?);
    hide Control;
    DropKeepsLifecycle(s, t, l.Finish?);
  }

  /** Lifecycle safety: without re-entry every step keeps the stack free of duplicates and of
      finished coroutines, and a finished coroutine stays finished. */
  lemma StepKeepsLifecycle(m: Machine, l: Label)
    requires Inv(m) && Lifecycle(m.s) && NoReentry(m.s, l) && Step(m, l).Next?
    ensures Lifecycle(Step(m, l).m.s)
    ensures forall c :: 0 <= c < |m.s.cos| && m.s.cos[c].state == Terminal ==>
              c < |Step(m, l).m.s.cos| && Step(m, l).m.s.cos[c].state == Terminal
  {
    StepKeepsInv(m, l);
    StepControl(m, l);
    assert StackOk(Step(m, l).m.s);
    if CanSwitch(m.s, l) {
      if l.Resume? { EnterKeepsLifecycle(m.s, l.c); } else { LeaveKeepsLifecycle(m.s, l); }
    }
    var t := if CanSwitch(m.s, l) then Control(m.s, l) else m.s;
    hide Step, Inv, Control, CanSwitch;
    SameLifecycle(t, Step(m, l).m.s);
  }

  lemma SameLifecycle(t: Sched, s: Sched)
    requires Lifecycle(t) && StackOk(s) && s.stack == t.stack && |s.cos| >= |t.cos|
    requires forall d :: 0 <= d < |s.cos| ==> s.cos[d].state == if d < |t.cos| then t.cos[d].state else Ready
    ensures Lifecycle(s)
  {
  }

  /** After a step the running coroutine is READY, so that its next `Resume` aborts, exactly if it
      got control from a coroutine that finished, and is not main; or was READY and still runs. */
  lemma RunningIsReadyExactly(m: Machine, l: Label)
    requires Inv(m) && Lifecycle(m.s) && NoReentry(m.s, l) && Step(m, l).Next?
    ensures var s, s' := m.s, Step(m, l).m.s;
            s'.running < |s'.cos| && s.running < |s.cos| &&
            (s'.cos[s'.running].state == Ready <==>
               if CanSwitch(s, l) then l.Finish? && |s'.stack| > 1 else s.cos[s.running].state == Ready)
  {
    StepKeepsInv(m, l);
    StepControl(m, l);
    InvTop(m);
    InvTop(Step(m, l).m);
    hide Step, Inv;
  }

  /** Both assertions of `Resume` hold whenever main resumes a coroutine other than itself. */
  lemma MainResumesSafely(m: Machine, c: nat)
    requires Inv(m) && Lifecycle(m.s) && |m.s.stack| == 1 && 0 < c < |m.s.cos|
    ensures Step(m, Resume(c)).Next?
  {
  }

  // ----- what holds in every reachable state -----

  /** `stack_top_` is the depth, main is at the bottom and nowhere else and stays RUNNING, and
      `running_co_` is the top. */
  lemma ReachableControl(ls: seq<Label>)
    ensures Inv(START)
    ensures Run(START, ls).Some? ==>
              var s := Run(START, ls).value.s;
              && 1 <= |s.stack| == s.top && s.running == s.stack[s.top - 1] < |s.cos|
              && s.stack[0] == 0 && s.cos[0].state == Running
              && forall i :: 1 <= i < |s.stack| ==> s.stack[i] != 0
  {
    StartOk();
  }

  /** Eviction is well defined in every reachable state: a running shared-stack coroutine occupies
      its buffer; an evicted one has saved exactly the bytes from `dummy_` to the end; and whoever a
      switch makes `SaveStack` run on has a `dummy_` in that same buffer by then. */
  lemma EvictionWellDefined(ls: seq<Label>, l: Label)
    ensures Inv(START)
    ensures Run(START, ls).Some? ==>
              var m := Run(START, ls).value;
              var s := m.s;
              && (s.cos[s.running].shared ==> HasFrame(s) && s.mems[RunningMem(s)].occupy == Some(s.running))
              && (forall c :: 0 <= c < |s.cos| && Evicted(s, c) ==>
                    s.cos[c].savedSize == |s.cos[c].saved| == |s.mems[s.cos[c].mem.value].bytes| - s.cos[c].dummy.value)
              && (CanSwitch(s, l) ==>
                    var t := Control(s, l);
                    forall c: nat :: GivesWay(t, t.running, c) ==>
                      && c < |t.cos| && t.cos[c].mem == t.cos[t.running].mem
                      && SetDummy(t, s.running, m.sp).cos[c].dummy.Some?)
  {
    StartOk();
    if Run(START, ls).Some? {
      var m := Run(START, ls).value;
      var s := m.s;
      assert CoOk(s, s.running);
      forall c | 0 <= c < |s.cos| && Evicted(s, c)
        ensures s.cos[c].savedSize == |s.cos[c].saved| == |s.mems[s.cos[c].mem.value].bytes| - s.cos[c].dummy.value
      {
        assert CoOk(s, c);
      }
      if CanSwitch(s, l) {
        var t := Control(s, l);
        forall c: nat | GivesWay(t, t.running, c)
          ensures c < |t.cos| && t.cos[c].mem == t.cos[t.running].mem && SetDummy(t, s.running, m.sp).cos[c].dummy.Some?
        {
          assert OccupantOk(s, t.cos[t.running].mem.value);
        }
      }
    }
  }

  /** Nobody resumes a coroutine that is on the stack, in any step of the run. */
  ghost predicate NoReentryRun(m: Machine, ls: seq<Label>)
    requires Inv(m)
    decreases |ls|
  {
    if ls == [] then true else
      StepKeepsInv(m, ls[0]);
      NoReentry(m.s, ls[0]) && (Step(m, ls[0]).Next? ==> NoReentryRun(Step(m, ls[0]).m, ls[1..]))
  }

  lemma {:induction false} RunKeepsLifecycle(m: Machine, ls: seq<Label>)
    requires Inv(m) && Lifecycle(m.s) && NoReentryRun(m, ls) && Run(m, ls).Some?
    ensures Lifecycle(Run(m, ls).value.s)
    ensures forall c :: 0 <= c < |m.s.cos| && m.s.cos[c].state == Terminal ==>
              c < |Run(m, ls).value.s.cos| && Run(m, ls).value.s.cos[c].state == Terminal
    decreases |ls|
  {
    hide Step, Inv, Lifecycle;
    if ls != [] {
      StepKeepsInv(m, ls[0]);
      StepKeepsLifecycle(m, ls[0]);
      RunKeepsLifecycle(Step(m, ls[0]).m, ls[1..]);
    }
  }

  /** Some step of the run fails an assertion of `Resume`. */
  ghost predicate Aborts(m: Machine, ls: seq<Label>)
    requires Inv(m)
    decreases |ls|
  {
    if ls == [] then false else
      StepKeepsInv(m, ls[0]);
      var r := Step(m, ls[0]);
      r == Aborted || (r.Next? && Aborts(r.m, ls[1..]))
  }

  /** Every `Resume` of the run is called by main, on another coroutine. */
  ghost predicate OnlyMainResumes(m: Machine, ls: seq<Label>)
    requires Inv(m)
    decreases |ls|
  {
    if ls == [] then true else
      StepKeepsInv(m, ls[0]);
      var r := Step(m, ls[0]);
      && (ls[0].Resume? ==> |m.s.stack| == 1 && ls[0].c != 0)
      && (r.Next? ==> OnlyMainResumes(r.m, ls[1..]))
  }

  /** Both assertions of `Resume` hold in every run in which only main resumes coroutines. */
  lemma {:induction false} OnlyMainNeverAborts(m: Machine, ls: seq<Label>)
    requires Inv(m) && Lifecycle(m.s) && OnlyMainResumes(m, ls)
    ensures !Aborts(m, ls)
    decreases |ls|
  {
    if ls != [] {
      StepKeepsInv(m, ls[0]);
      if ls[0].Resume? && ls[0].c < |m.s.cos| { MainResumesSafely(m, ls[0].c); }
      if Step(m, ls[0]).Next? {
        assert NoReentry(m.s, ls[0]);
        StepKeepsLifecycle(m, ls[0]);
        hide Step, Inv, Lifecycle;
        OnlyMainNeverAborts(Step(m, ls[0]).m, ls[1..]);
      }
    }
  }

  lemma StartLifecycle()
    ensures Inv(START) && Lifecycle(START.s)
  {
    StartOk();
  }

  // ----- what the code does not keep -----

  lemma CreateNext(m: Machine, l: Label)
    requires Inv(m) && l.CreatePrivate?
    ensures Step(m, l).Next?
  {
  }

  lemma SwitchNext(m: Machine, l: Label)
    requires Inv(m) && CanSwitch(m.s, l)
    ensures Step(m, l).Next?
  {
  }

  /** A step that keeps to the lifecycle, in one line. */
  lemma CleanStep(m: Machine, l: Label) returns (m': Machine)
    requires Inv(m) && Lifecycle(m.s) && NoReentry(m.s, l) && (l.CreatePrivate? || CanSwitch(m.s, l))
    ensures Step(m, l) == Next(m') && Inv(m') && Lifecycle(m'.s)
    ensures var t := if CanSwitch(m.s, l) then Control(m.s, l) else m.s;
            && m'.s.stack == t.stack && |m'.s.cos| >= |t.cos|
            && forall d :: 0 <= d < |m'.s.cos| ==> m'.s.cos[d].state == if d < |t.cos| then t.cos[d].state else Ready
    ensures m'.s.stack != [] && m'.s.running == Top(m'.s.stack) < |m'.s.cos|
    ensures l.CreatePrivate? ==> |m'.s.cos| == |m.s.cos| + 1
    ensures CanSwitch(m.s, l) ==> |m'.s.cos| == |m.s.cos|
  {
    if l.CreatePrivate? { CreateNext(m, l); } else { SwitchNext(m, l); }
    m' := Step(m, l).m;
    StepKeepsInv(m, l);
    StepControl(m, l);
    StepKeepsLifecycle(m, l);
  }

  lemma {:induction false} RunAppend(m: Machine, ls: seq<Label>, l: Label)
    requires Inv(m) && Run(m, ls).Some?
    ensures Run(m, ls + [l]) == if Step(Run(m, ls).value, l).Next? then Some(Step(Run(m, ls).value, l).m) else None
    decreases |ls|
  {
    hide Step, Inv;
    if ls == [] {
      assert Run(m, []) == Some(m);
      assert ls + [l] == [l] && [l][1..] == [];
      StepKeepsInv(m, l);
      if Step(m, l).Next? { assert Run(Step(m, l).m, []) == Some(Step(m, l).m); }
    } else {
      StepKeepsInv(m, ls[0]);
      RunAppend(Step(m, ls[0]).m, ls[1..], l);
      assert (ls + [l])[1..] == ls[1..] + [l];
    }
  }

  lemma InvTop(m: Machine)
    requires Inv(m)
    ensures StackOk(m.s)
  {
  }

  /** A switch that is appended to a run from the start. */
  lemma AppendSwitch(ls: seq<Label>, m: Machine, l: Label) returns (m': Machine)
    requires Inv(START) && Run(START, ls) == Some(m) && CanSwitch(m.s, l)
    ensures Run(START, ls + [l]) == Some(m') && Inv(m') && StackOk(m'.s) && Step(m, l) == Next(m')
    ensures StackOk(m.s) && m'.s.stack == Control(m.s, l).stack && |m'.s.cos| == |m.s.cos|
    ensures forall d :: 0 <= d < |m.s.cos| ==> m'.s.cos[d].state == Control(m.s, l).cos[d].state
  {
    InvTop(m);
    SwitchNext(m, l);
    RunAppend(START, ls, l);
    StepKeepsInv(m, l);
    StepControl(m, l);
    m' := Step(m, l).m;
    InvTop(m');
  }

  lemma ThreeCreated() returns (ls: seq<Label>, m: Machine)
    ensures Inv(START) && Run(START, ls) == Some(m) && Lifecycle(m.s)
    ensures m.s.stack == [0] && |m.s.cos| == 4 && m.s.cos[0].state == Running
    ensures m.s.cos[1].state == m.s.cos[2].state == m.s.cos[3].state == Ready
  {
    hide Step, Inv, Lifecycle;
    StartLifecycle();
    var create := CreatePrivate([]);
    var m1 := CleanStep(START, create);
    var m2 := CleanStep(m1, create);
    m := CleanStep(m2, create);
    ls := [create, create, create];
    assert Run(m, []) == Some(m);
    assert Run(m2, [create]) == Some(m);
    assert Run(m1, [create, create]) == Some(m);
  }

  /** A reachable state in which coroutine 1 has resumed coroutine 2. */
  lemma NestedResume() returns (ls: seq<Label>, m: Machine)
    ensures Inv(START) && Run(START, ls) == Some(m) && StackOk(m.s)
    ensures m.s.stack == [0, 1, 2] && |m.s.cos| == 4 && m.s.cos[1].state == m.s.cos[3].state == Ready
        && m.s.cos[2].state == Running
  {
    hide Step, Inv, Lifecycle;
    var ls0, m0 := ThreeCreated();
    InvTop(m0);
    var m1 := AppendSwitch(ls0, m0, Resume(1));
    m := AppendSwitch(ls0 + [Resume(1)], m1, Resume(2));
    ls := ls0 + [Resume(1)] + [Resume(2)];
  }

  /** Without the ban on re-entry TERMINAL is not absorbing: in a reachable state coroutine 1 is
      TERMINAL, and a `Yield` of another coroutine makes it RUNNING again. */
  lemma ReentryRevivesTerminal() returns (ls: seq<Label>, m: Machine)
    ensures Inv(START) && Run(START, ls) == Some(m)
    ensures |m.s.cos| == 4 && m.s.cos[1].state == Terminal
    ensures Step(m, Yield).Next? && |Step(m, Yield).m.s.cos| == 4 && Step(m, Yield).m.s.cos[1].state == Running
  {
    hide Step, Inv, Lifecycle;
    var ls0, m0 := NestedResume();
    var m1 := AppendSwitch(ls0, m0, Resume(1));
    assert m1.s.stack == [0, 1, 2, 1];
    m := AppendSwitch(ls0 + [Resume(1)], m1, Finish);
    ls := ls0 + [Resume(1)] + [Finish];
    var m2 := AppendSwitch(ls, m, Yield);
  }

  /** `CoMainFunc` does not mark the parent RUNNING: after a nested coroutine has finished, the
      parent cannot resume another READY one. */
  lemma SecondNestedChildAborts() returns (ls: seq<Label>, m: Machine)
    ensures Inv(START) && Run(START, ls) == Some(m)
    ensures |m.s.cos| == 4 && m.s.cos[3].state == Ready && 3 !in m.s.stack
    ensures Step(m, Resume(3)) == Aborted
  {
    hide Inv, Lifecycle;
    var ls0, m0 := NestedResume();
    m := AppendSwitch(ls0, m0, Finish);
    ls := ls0 + [Finish];
  }
}
