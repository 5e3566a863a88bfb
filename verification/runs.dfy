/** Repeated calls of `step`, as the driver outside the core makes them,
    and what the step contract implies about such sequences of calls. */
module Runs {
  import opened Results
  import opened Outcomes
  import opened Eval
  import opened Core

  /** The state after `n` calls of `step` from `s`, and what each call returned. */
  function Run<Op, Ext, Mem, Stk>(
    sem: Semantics<Op, Ext, Mem, Stk>, code: seq<bv8>, valids: nat -> bool, s: State<Mem, Stk>, n: nat)
    : (r: (State<Mem, Stk>, seq<StepResult<Ext>>))
    ensures |r.1| == n
    decreases n
  {
    if n == 0 then (s, [])
    else
      var (t, res) := Transition(sem, code, valids, s);
      var (u, rest) := Run(sem, code, valids, t, n - 1);
      (u, [res] + rest)
  }

  /** Calling `step` on a halted machine any number of times changes nothing
      and re-reports the same terminal error every time. */
  lemma {:induction false} HaltedRunRepeats<Op, Ext, Mem, Stk>(
    sem: Semantics<Op, Ext, Mem, Stk>, code: seq<bv8>, valids: nat -> bool, s: State<Mem, Stk>, n: nat)
    requires s.position.Err?
    ensures Run(sem, code, valids, s, n).0 == s
    ensures forall i :: 0 <= i < n ==> Run(sem, code, valids, s, n).1[i] == Err(sem.exitTrap(s.position.error))
    decreases n
  {
    if n > 0 {
      HaltedRunRepeats(sem, code, valids, s, n - 1);
    }
  }

  /** `a + b` calls are `a` calls followed by `b` calls. */
  lemma {:induction false} RunSplit<Op, Ext, Mem, Stk>(
    sem: Semantics<Op, Ext, Mem, Stk>, code: seq<bv8>, valids: nat -> bool, s: State<Mem, Stk>, a: nat, b: nat)
    ensures var mid := Run(sem, code, valids, s, a);
            var last := Run(sem, code, valids, mid.0, b);
            Run(sem, code, valids, s, a + b) == (last.0, mid.1 + last.1)
    decreases a
  {
    if a > 0 {
      var (t, res) := Transition(sem, code, valids, s);
      RunSplit(sem, code, valids, t, a - 1, b);
      var mid := Run(sem, code, valids, t, a - 1);
      var last := Run(sem, code, valids, mid.0, b);
      assert Run(sem, code, valids, s, a) == (mid.0, [res] + mid.1);
      assert Run(sem, code, valids, s, a + b) == (last.0, [res] + (mid.1 + last.1));
      assert [res] + (mid.1 + last.1) == ([res] + mid.1) + last.1;
    } else {
      assert [] + Run(sem, code, valids, s, b).1 == Run(sem, code, valids, s, b).1;
    }
  }

  /** Once a run has halted, every later call leaves the state as it is:
      the terminal reason is produced once and never replaced. */
  lemma HaltIsPermanent<Op, Ext, Mem, Stk>(
    sem: Semantics<Op, Ext, Mem, Stk>, code: seq<bv8>, valids: nat -> bool, s: State<Mem, Stk>, k: nat, m: nat)
    requires Run(sem, code, valids, s, k).0.position.Err?
    ensures Run(sem, code, valids, s, k + m).0 == Run(sem, code, valids, s, k).0
  {
    RunSplit(sem, code, valids, s, k, m);
    HaltedRunRepeats(sem, code, valids, Run(sem, code, valids, s, k).0, m);
  }

  /** A run that starts running and ends halted has reported the terminal
      reason, as an exit trap, from the call that halted it: the machine was
      running before call `i` and halted after it. */
  lemma {:induction false} HaltIsReported<Op, Ext, Mem, Stk>(
    sem: Semantics<Op, Ext, Mem, Stk>, code: seq<bv8>, valids: nat -> bool, s: State<Mem, Stk>, n: nat)
    requires s.position.Ok?
    requires Run(sem, code, valids, s, n).0.position.Err?
    ensures exists i :: 0 <= i < n &&
              Run(sem, code, valids, s, i).0.position.Ok? &&
              Run(sem, code, valids, s, i + 1).0.position.Err? &&
              Run(sem, code, valids, s, n).1[i] == Err(Trap.Exit(Run(sem, code, valids, s, n).0.position.error))
    decreases n
  {
    if n == 0 {
      assert false;
    } else {
      var (t, res) := Transition(sem, code, valids, s);
      var run := Run(sem, code, valids, s, n);
      assert run.1 == [res] + Run(sem, code, valids, t, n - 1).1;
      if t.position.Err? {
        HaltedRunRepeats(sem, code, valids, t, n - 1);
        assert run.1[0] == res;
        assert Run(sem, code, valids, s, 0).0 == s;
        assert Run(sem, code, valids, s, 1).0 == Run(sem, code, valids, t, 0).0 == t;
      } else {
        HaltIsReported(sem, code, valids, t, n - 1);
        var i :| 0 <= i < n - 1 &&
                 Run(sem, code, valids, t, i).0.position.Ok? &&
                 Run(sem, code, valids, t, i + 1).0.position.Err? &&
                 Run(sem, code, valids, t, n - 1).1[i] == Err(Trap.Exit(run.0.position.error));
        assert Run(sem, code, valids, s, i + 1).0 == Run(sem, code, valids, t, i).0;
        assert Run(sem, code, valids, s, i + 2).0 == Run(sem, code, valids, t, i + 1).0;
        assert run.1[i + 1] == Err(Trap.Exit(run.0.position.error));
      }
    }
  }

  /** The instruction at `pc` is known and, whatever the workspace, falls
      through to the next byte. */
  ghost predicate FallsThrough<Op, Ext, Mem(!new), Stk(!new)>(sem: Semantics<Op, Ext, Mem, Stk>, code: seq<bv8>, pc: nat)
  {
    Decodes(sem, code, pc) &&
    forall ws: Workspace<Mem, Stk> :: sem.eval(sem.parse(code[pc]).value, pc, code, ws).0 == Continue(1)
  }

  /** On code whose every instruction falls through, `k` calls from offset
      `j` visit the offsets in order: each succeeds and the machine is at
      offset `j + k`, as long as that is not past the code. */
  lemma {:induction false} FallThroughRun<Op, Ext, Mem(!new), Stk(!new)>(
    sem: Semantics<Op, Ext, Mem, Stk>, code: seq<bv8>, valids: nat -> bool, s: State<Mem, Stk>, k: nat)
    requires forall pc :: 0 <= pc < |code| ==> FallsThrough(sem, code, pc)
    requires s.position.Ok? && s.position.value + k <= |code|
    ensures Run(sem, code, valids, s, k).0.position == Ok(s.position.value + k)
    ensures forall i :: 0 <= i < k ==> Run(sem, code, valids, s, k).1[i] == Ok(())
    decreases k
  {
    if k > 0 {
      var pc := s.position.value;
      assert FallsThrough(sem, code, pc);
      var (t, res) := Transition(sem, code, valids, s);
      assert t.position == Ok(pc + 1) && res == Ok(());
      FallThroughRun(sem, code, valids, t, k - 1);
    }
  }

  /** On code whose every instruction falls through, a run from offset 0
      ends, after one call per byte and one more, in `CodeEnded`, reported
      by that last call. */
  lemma StraightLineEndsInCodeEnded<Op, Ext, Mem(!new), Stk(!new)>(
    sem: Semantics<Op, Ext, Mem, Stk>, code: seq<bv8>, valids: nat -> bool, s: State<Mem, Stk>)
    requires forall pc :: 0 <= pc < |code| ==> FallsThrough(sem, code, pc)
    requires s.position == Ok(0)
    ensures Run(sem, code, valids, s, |code| + 1).0.position == Err(CodeEnded)
    ensures Run(sem, code, valids, s, |code| + 1).1[|code|] == Err(Trap.Exit(CodeEnded))
  {
    FallThroughRun(sem, code, valids, s, |code|);
    RunSplit(sem, code, valids, s, |code|, 1);
  }
}
