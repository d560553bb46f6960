/** A scan does not go on forever and does not get stuck: whatever the threads have done, they can finish, and will. */
module ScanProgress {
  import opened Bytes
  import opened ScanSlices
  import opened ScanProtocol

  /** How much of the table has not been claimed. */
  function Left(t: Table, g: Global): nat {
    if t.bind.None? then if g.position == 0 then 1 else 0
    else if g.position > t.bind.value.max then 0 else t.bind.value.max + 1 - g.position
  }

  function ThreadWork(thread: Thread): nat {
    |thread.pending| + (if thread.done then 0 else 1) + if thread.finished then 0 else 1
  }

  function Work(threads: seq<Thread>): nat {
    if threads == [] then 0 else ThreadWork(threads[0]) + Work(threads[1..])
  }

  lemma {:induction false} WorkUpdate(threads: seq<Thread>, i: nat, next: Thread)
    requires i < |threads|
    ensures Work(threads[i := next]) + ThreadWork(threads[i]) == Work(threads) + ThreadWork(next)
  {
    if i > 0 {
      assert threads[i := next][1..] == threads[1..][i - 1 := next];
      WorkUpdate(threads[1..], i - 1, next);
    } else {
      assert threads[0 := next][1..] == threads[1..];
    }
  }

  ghost predicate AllFinished(threads: seq<Thread>) {
    forall i :: 0 <= i < |threads| ==> threads[i].finished
  }

  lemma ClaimTakes(b: Bind, g: Global, scanCount: nat, t: Table)
    requires t.bind == b && Bounded(b, g) && Progressed(b, g, scanCount)
    ensures var (claim, g') := ClaimNext(b, g, scanCount);
            if claim == Exhausted then g' == g else Left(t, g') < Left(t, g)
  {
    if b.Some? && g.position <= b.value.max {
      ClaimExact(b, g, scanCount);
    }
  }

  /** Every step of a thread takes from what is unclaimed, or leaves that as it is and takes from what is left to do. */
  lemma StepTakes(t: Table, s: Scan, step: Step)
    requires Inv(t, s) && Enabled(t, s, step) && !step.StartThread?
    ensures var s' := Apply(t, s, step);
            Left(t, s'.global) < Left(t, s.global) ||
            (Left(t, s'.global) == Left(t, s.global) && Work(s'.threads) < Work(s.threads))
  {
    hide Work, Conserved, FewSlices, ClaimNext;
    var s' := Apply(t, s, step);
    WorkUpdate(s.threads, step.thread, s'.threads[step.thread]);
    if step.ClaimSlice? {
      ClaimTakes(t.bind, s.global, s.threads[step.thread].scanCount, t);
    }
  }

  lemma {:induction false} Enumerate(rows: set<RowId>) returns (order: seq<RowId>)
    ensures multiset(order) == multiset(rows)
  {
    order := [];
    if r :| r in rows {
      var rest := Enumerate(rows - {r});
      order := [r] + rest;
      assert rows == rows - {r} + {r};
    } else {
      assert forall r :: r !in multiset(rows);
    }
  }

  /** A thread that has not finished can take a step. */
  lemma NotStuck(t: Table, s: Scan, i: nat) returns (step: Step)
    requires Inv(t, s) && i < |s.threads| && !s.threads[i].finished
    ensures Enabled(t, s, step) && !step.StartThread? && step.thread == i
  {
    if s.threads[i].done {
      var order := Enumerate(SliceRows(t, ClaimNext(t.bind, s.global, s.threads[i].scanCount).0));
      step := ClaimSlice(i, order);
    } else {
      step := ReadChunk(i);
    }
  }

  /** One more step at the end of a run. */
  lemma Extend(t: Table, states: seq<Scan>, steps: seq<Step>, step: Step)
    requires IsRun(t, states, steps) && Enabled(t, states[|steps|], step)
    ensures IsRun(t, states + [Apply(t, states[|steps|], step)], steps + [step])
  {
    hide Enabled, Apply, Initial;
  }

  /** The threads of every run can finish, without a new one. */
  lemma {:induction false} CanFinish(t: Table, states: seq<Scan>, steps: seq<Step>)
    returns (allStates: seq<Scan>, allSteps: seq<Step>)
    requires ValidTable(t) && IsRun(t, states, steps)
    ensures IsRun(t, allStates, allSteps) && steps <= allSteps && states <= allStates
    ensures forall i :: |steps| <= i < |allSteps| ==> !allSteps[i].StartThread?
    ensures AllFinished(allStates[|allSteps|].threads)
    decreases Left(t, states[|steps|].global), Work(states[|steps|].threads)
  {
    hide Inv, Enabled, Apply, Left, Work, Initial;
    var s := states[|steps|];
    RunInv(t, states, steps);
    assert Inv(t, s);
    if AllFinished(s.threads) {
      return states, steps;
    }
    var i: nat :| i < |s.threads| && !s.threads[i].finished;
    var step := NotStuck(t, s, i);
    StepTakes(t, s, step);
    Extend(t, states, steps, step);
    allStates, allSteps := CanFinish(t, states + [Apply(t, s, step)], steps + [step]);
  }

  /** Also a scan that has not begun: a thread can start, and then finish. */
  lemma ScanCanFinish(t: Table, states: seq<Scan>, steps: seq<Step>) returns (allStates: seq<Scan>, allSteps: seq<Step>)
    requires ValidTable(t) && IsRun(t, states, steps)
    ensures IsRun(t, allStates, allSteps) && steps <= allSteps && states <= allStates
    ensures allStates[|allSteps|].threads != [] && AllFinished(allStates[|allSteps|].threads)
    ensures allStates[|allSteps|].emitted == multiset(Kept(t))
  {
    hide Apply, Initial, Kept, ClaimNext;
    var s := states[|steps|];
    var order := Enumerate(SliceRows(t, ClaimNext(t.bind, s.global, 1).0));
    var step := StartThread(order);
    Extend(t, states, steps, step);
    StartsOne(t, s, step);
    allStates, allSteps := CanFinish(t, states + [Apply(t, s, step)], steps + [step]);
    KeepsThreads(t, allStates, allSteps, |steps| + 1, |allSteps|);
    assert allStates[|steps| + 1] == Apply(t, s, step);
    ExactlyOnce(t, allStates, allSteps);
  }

  lemma StartsOne(t: Table, s: Scan, step: Step)
    requires Enabled(t, s, step)
    ensures |Apply(t, s, step).threads| == |s.threads| + if step.StartThread? then 1 else 0
  {
  }

  lemma {:induction false} KeepsThreads(t: Table, states: seq<Scan>, steps: seq<Step>, i: nat, j: nat)
    requires IsRun(t, states, steps) && i <= j <= |steps|
    ensures |states[i].threads| <= |states[j].threads|
    decreases j - i
  {
    hide Enabled, Apply, Initial;
    if i < j {
      KeepsThreads(t, states, steps, i, j - 1);
      StartsOne(t, states[j - 1], steps[j - 1]);
    }
  }
}
