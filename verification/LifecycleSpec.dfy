/**
  The exact conditions over whole runs of the scheduler (src/coroutine.cc) under which finished coroutines
  stay finished, and the running coroutine can resume others.
 */
module LifecycleSpec {
  import opened Common
  import opened ScheduleSpec

  /** The machine after the first `k` steps of a run. */
  ghost function At(m: Machine, ls: seq<Label>, k: nat): (m': Machine)
    requires Inv(m) && Run(m, ls).Some? && k <= |ls|
    ensures Inv(m')
    decreases k
  {
    if k == 0 then m else
      StepKeepsInv(m, ls[0]);
      At(Step(m, ls[0]).m, ls[1..], k - 1)
  }

  lemma {:induction false} AtNext(m: Machine, ls: seq<Label>, k: nat)
    requires Inv(m) && Run(m, ls).Some? && k < |ls|
    ensures Step(At(m, ls, k), ls[k]) == Next(At(m, ls, k + 1))
    decreases k
  {
    StepKeepsInv(m, ls[0]);
    var m1 := Step(m, ls[0]).m;
    assert Step(m, ls[0]) == Next(m1) && Run(m1, ls[1..]).Some?;
    assert ls[k] == if k == 0 then ls[0] else ls[1..][k - 1];
    hide Step, Inv, Run;
    if k == 0 {
      assert At(m1, ls[1..], 0) == m1;
    } else {
      AtNext(m1, ls[1..], k - 1);
    }
  }

  lemma {:induction false} AtEnd(m: Machine, ls: seq<Label>)
    requires Inv(m) && Run(m, ls).Some?
    ensures At(m, ls, |ls|) == Run(m, ls).value
    decreases |ls|
  {
    if ls != [] {
      StepKeepsInv(m, ls[0]);
      hide Step, Inv;
      AtEnd(Step(m, ls[0]).m, ls[1..]);
    }
  }

  // ----- when a finished coroutine stays finished -----

  ghost predicate IsTerminal(s: Sched, c: nat) {
    c < |s.cos| && s.cos[c].state == Terminal
  }

  /** A finished coroutine is on top of the stack, or just below. */
  ghost predicate TerminalNearTop(s: Sched) {
    |s.stack| >= 2 && (IsTerminal(s, Top(s.stack)) || IsTerminal(s, Top(DropTop(s.stack))))
  }

  /** A step takes a coroutine out of TERMINAL exactly if it is a `Yield` and the coroutine is on top of the
      stack, or just below. */
  lemma LeavesTerminalExactly(m: Machine, l: Label, c: nat)
    requires Inv(m) && IsTerminal(m.s, c) && Step(m, l).Next?
    ensures !IsTerminal(Step(m, l).m.s, c) <==>
            l.Yield? && |m.s.stack| >= 2 && (c == Top(m.s.stack) || c == Top(DropTop(m.s.stack)))
  {
    StepKeepsInv(m, l);
    StepControl(m, l);
    InvTop(m);
    if CanSwitch(m.s, l) {
      ControlLeavesTerminal(m.s, l, c);
    }
    hide Inv, Step, StackOk, Control;
    assert l.Yield? <==> l == Yield;
  }

  lemma ControlLeavesTerminal(s: Sched, l: Label, c: nat)
    requires StackOk(s) && CanSwitch(s, l) && IsTerminal(s, c)
    ensures !IsTerminal(Control(s, l), c) <==> l.Yield? && (c == Top(s.stack) || c == Top(DropTop(s.stack)))
  {
  }

  /** Over any run, re-entrant or not: all coroutines that are TERMINAL at some point stay so, if and only if
      no `Yield` of the run meets a TERMINAL coroutine on top of the stack or just below. */
  lemma TerminalStaysExactly(m: Machine, ls: seq<Label>)
    requires Inv(m) && Run(m, ls).Some?
    ensures (forall j, k, c: nat :: 0 <= j <= k <= |ls| && IsTerminal(At(m, ls, j).s, c) ==> IsTerminal(At(m, ls, k).s, c))
            <==> (forall j :: 0 <= j < |ls| && ls[j].Yield? ==> !TerminalNearTop(At(m, ls, j).s))
  {
    hide Step, Inv, At, Run;
    if forall j :: 0 <= j < |ls| && ls[j].Yield? ==> !TerminalNearTop(At(m, ls, j).s) {
      forall j, k, c: nat | 0 <= j <= k <= |ls| && IsTerminal(At(m, ls, j).s, c) ensures IsTerminal(At(m, ls, k).s, c) {
        TerminalUpTo(m, ls, j, k, c);
      }
    } else {
      var j :| 0 <= j < |ls| && ls[j].Yield? && TerminalNearTop(At(m, ls, j).s);
      var s := At(m, ls, j).s;
      var c := if IsTerminal(s, Top(s.stack)) then Top(s.stack) else Top(DropTop(s.stack));
      AtNext(m, ls, j);
      LeavesTerminalExactly(At(m, ls, j), ls[j], c);
      assert IsTerminal(At(m, ls, j).s, c) && !IsTerminal(At(m, ls, j + 1).s, c);
    }
  }

  lemma {:induction false} TerminalUpTo(m: Machine, ls: seq<Label>, j: nat, k: nat, c: nat)
    requires Inv(m) && Run(m, ls).Some? && j <= k <= |ls| && IsTerminal(At(m, ls, j).s, c)
    requires forall i :: 0 <= i < |ls| && ls[i].Yield? ==> !TerminalNearTop(At(m, ls, i).s)
    ensures IsTerminal(At(m, ls, k).s, c)
    decreases k
  {
    if j < k {
      hide Step, Inv, At, Run;
      TerminalUpTo(m, ls, j, k - 1, c);
      AtNext(m, ls, k - 1);
      LeavesTerminalExactly(At(m, ls, k - 1), ls[k - 1], c);
    }
  }

  // ----- when the running coroutine can resume others -----

  lemma {:induction false} AtLifecycle(m: Machine, ls: seq<Label>, k: nat)
    requires Inv(m) && Lifecycle(m.s) && NoReentryRun(m, ls) && Run(m, ls).Some? && k <= |ls|
    ensures Lifecycle(At(m, ls, k).s) && (k < |ls| ==> NoReentry(At(m, ls, k).s, ls[k]))
    decreases k
  {
    if k > 0 {
      StepKeepsInv(m, ls[0]);
      StepKeepsLifecycle(m, ls[0]);
      hide Step, Inv, Lifecycle, NoReentry;
      AtLifecycle(Step(m, ls[0]).m, ls[1..], k - 1);
    }
  }

  /** Step `j` gives control back from a finished coroutine to a parent that is not main, and no switch
      comes after it before step `k`. */
  ghost predicate LastSwitchFinishes(ls: seq<Label>, m: Machine, j: nat, k: nat)
    requires Inv(m) && Run(m, ls).Some? && k <= |ls|
  {
    && j < k && ls[j].Finish? && CanSwitch(At(m, ls, j).s, ls[j]) && |At(m, ls, j + 1).s.stack| > 1
    && forall i :: j < i < k ==> !CanSwitch(At(m, ls, i).s, ls[i])
  }

  /** In a run from the start in which nobody resumes a coroutine on the stack, the running coroutine is READY,
      so that its next `Resume` fails an assertion, if and only if the last switch was the end of a
      coroutine whose parent is not main. */
  lemma {:induction false} RunningIsReadyAt(ls: seq<Label>, k: nat)
    requires Inv(START) && Run(START, ls).Some? && NoReentryRun(START, ls) && k <= |ls|
    ensures var s := At(START, ls, k).s;
            s.running < |s.cos| &&
            (s.cos[s.running].state == Ready <==> exists j: nat :: LastSwitchFinishes(ls, START, j, k))
    decreases k
  {
    if k == 0 {
      ReadyAtStart(ls);
    } else {
      RunningIsReadyAt(ls, k - 1);
      hide *;
      ReadyOneLater(ls, k - 1, k);
    }
  }

  lemma ReadyAtStart(ls: seq<Label>)
    requires Inv(START) && Run(START, ls).Some?
    ensures At(START, ls, 0) == START && forall j: nat :: !LastSwitchFinishes(ls, START, j, 0)
  {
    hide Run, Inv, CanSwitch;
  }

  lemma ReadyOneLater(ls: seq<Label>, i: nat, k: nat)
    requires Inv(START) && Run(START, ls).Some? && NoReentryRun(START, ls) && k == i + 1 <= |ls|
    requires var s := At(START, ls, i).s;
             s.running < |s.cos| &&
             (s.cos[s.running].state == Ready <==> exists j: nat :: LastSwitchFinishes(ls, START, j, i))
    ensures var s := At(START, ls, k).s;
            s.running < |s.cos| &&
            (s.cos[s.running].state == Ready <==> exists j: nat :: LastSwitchFinishes(ls, START, j, k))
  {
    hide Step, Inv, At, Run, Lifecycle, NoReentry, NoReentryRun, LastSwitchFinishes, CanSwitch, Control;
    StartLifecycle();
    var m, l := At(START, ls, i), ls[i];
    AtNext(START, ls, i);
    AtLifecycle(START, ls, i);
    RunningIsReadyExactly(m, l);
    if CanSwitch(m.s, l) {
      LastSwitchNow(ls, START, k);
    } else {
      LastSwitchEarlier(ls, START, i, k);
    }
  }

  lemma LastSwitchNow(ls: seq<Label>, m: Machine, k: nat)
    requires Inv(m) && Run(m, ls).Some? && 1 <= k <= |ls| && CanSwitch(At(m, ls, k - 1).s, ls[k - 1])
    ensures (exists j: nat :: LastSwitchFinishes(ls, m, j, k)) <==> ls[k - 1].Finish? && |At(m, ls, k).s.stack| > 1
  {
    hide Step, Inv, At, Run, CanSwitch;
    if ls[k - 1].Finish? && |At(m, ls, k).s.stack| > 1 {
      assert LastSwitchFinishes(ls, m, k - 1, k);
    }
    forall j: nat | LastSwitchFinishes(ls, m, j, k) ensures j == k - 1 {
    }
  }

  lemma LastSwitchEarlier(ls: seq<Label>, m: Machine, i: nat, k: nat)
    requires Inv(m) && Run(m, ls).Some? && k == i + 1 <= |ls| && !CanSwitch(At(m, ls, i).s, ls[i])
    ensures (exists j: nat :: LastSwitchFinishes(ls, m, j, k)) <==> exists j: nat :: LastSwitchFinishes(ls, m, j, i)
  {
    forall j: nat ensures LastSwitchFinishes(ls, m, j, i) <==> LastSwitchFinishes(ls, m, j, k) {
      SameLastSwitch(ls, m, j, i, k);
    }
  }

  lemma SameLastSwitch(ls: seq<Label>, m: Machine, j: nat, i: nat, k: nat)
    requires Inv(m) && Run(m, ls).Some? && k == i + 1 <= |ls| && !CanSwitch(At(m, ls, i).s, ls[i])
    ensures LastSwitchFinishes(ls, m, j, i) <==> LastSwitchFinishes(ls, m, j, k)
  {
    hide Step, Inv, At, Run, CanSwitch;
  }

  lemma RunningIsReadyAfter(ls: seq<Label>)
    ensures Inv(START)
    ensures Run(START, ls).Some? && NoReentryRun(START, ls) ==>
              var s := Run(START, ls).value.s;
              s.running < |s.cos| &&
              (s.cos[s.running].state == Ready <==> exists j: nat :: LastSwitchFinishes(ls, START, j, |ls|))
  {
    StartLifecycle();
    if Run(START, ls).Some? && NoReentryRun(START, ls) {
      RunningIsReadyAt(ls, |ls|);
      AtEnd(START, ls);
    }
  }

  /** The machine with private stacks after the same run. */
  ghost function PrivateAfter(ls: seq<Label>): Private {
    PrivateRun(Private([[]], [0], {}), ls)
  }

  lemma AgreesAfter(ls: seq<Label>)
    requires Inv(START) && Run(START, ls).Some?
    ensures Agrees(Run(START, ls).value, PrivateAfter(ls))
  {
    StartOk();
    RunAgrees(START, Private([[]], [0], {}), ls);
  }

  /** After every such run, what `Resume` of any coroutine does: nothing to a finished one; and for all others an
      assertion fails if and only if it is main, or the running coroutine itself, or the last switch was the
      end of a coroutine whose parent is not main. */
  lemma ResumeAbortsExactly(ls: seq<Label>, c: nat)
    requires Inv(START) && Run(START, ls).Some? && NoReentryRun(START, ls)
    requires c < |PrivateAfter(ls).frames|
    ensures var m, p := Run(START, ls).value, PrivateAfter(ls);
            if c in p.done then Step(m, Resume(c)) == Next(m)
            else Step(m, Resume(c)) == Aborted <==>
                   c == 0 || c == Top(p.stack) || exists j: nat :: LastSwitchFinishes(ls, START, j, |ls|)
  {
    AgreesAfter(ls);
    StartLifecycle();
    RunKeepsLifecycle(START, ls);
    RunningIsReadyAfter(ls);
    var m := Run(START, ls).value;
    InvTop(m);
    hide Run, Inv, NoReentryRun, LastSwitchFinishes, PrivateAfter;
    StateOf(m.s, c);
  }

  /** Main and the running coroutine are not READY, unless the latter's child has just finished; all others that
      are not finished are. */
  lemma StateOf(s: Sched, c: nat)
    requires Lifecycle(s) && c < |s.cos|
    ensures s.running == Top(s.stack) < |s.cos| && s.cos[0].state == Running
    ensures c != 0 && c != s.running ==> s.cos[c].state == Ready || s.cos[c].state == Terminal
    ensures s.cos[s.running].state != Terminal
  {
    var n := |s.stack| - 1;
    assert s.stack[n] in s.stack;
    if c in s.stack {
      var i :| 0 <= i < |s.stack| && s.stack[i] == c;
      assert s.stack[0] == 0;
    }
  }

  /** After every run, `Yield` throws, and a coroutine's function cannot return, if and only if all the resumed
      ones have given control back, so that main runs. */
  lemma YieldThrowsExactly(ls: seq<Label>)
    requires Inv(START) && Run(START, ls).Some?
    ensures var m, p := Run(START, ls).value, PrivateAfter(ls);
            && (Step(m, Yield) == Thrown <==> |p.stack| == 1) && (Step(m, Finish) == Impossible <==> |p.stack| == 1)
  {
    AgreesAfter(ls);
    var m := Run(START, ls).value;
    InvTop(m);
    hide Run, PrivateAfter;
  }
}
