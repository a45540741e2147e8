/** The pool makes progress: left to itself it comes to rest after a bounded number of steps,
    however they are scheduled, and at rest every accepted job has been finished. */
module PoolProgress {
  import opened WorkerPool
  import opened PoolSafety
  import opened PoolLedger
  import opened PoolCodes
  import opened PoolRuns
  import opened PoolShutdown

  /** Steps that need nothing from outside: nobody submits, shuts down or wakes a worker for no
      reason; the event loop drains when the pipe is readable, and drain reads it empty. */
  predicate OnItsOwn(s: Pool, step: Step) {
    && Enabled(s, step) && !IsSubmit(step) && !step.FiniStop? && !step.SpuriousWake?
    && (step.DrainStart? ==> s.pipe > 0) && (step.DrainReadEnds? ==> s.pipe == 0)
  }

  ghost predicate RunsOnItsOwn(s: Pool, steps: seq<Step>)
    requires IsRun(s, steps)
    decreases |steps|
  {
    steps == [] || (OnItsOwn(s, steps[0]) && RunsOnItsOwn(Apply(s, steps[0]), steps[1..]))
  }

  // ---------------------------------------------------------------- the bound

  /** Steps that the main thread still has to take, if the workers rest. */
  ghost function MainWork(main: Main, done: nat, pipe: nat): nat {
    match main
    case Free => done + pipe + (if pipe > 0 then 6 else 0)
    case Reading => done + pipe + 5
    case Detaching => done + pipe + 2 + (if pipe > 0 then 8 else 0)
    case Calling(rest, _) => |rest| + 1 + done + pipe + (if done > 0 || pipe > 0 then 8 else 0)
    case Rearming => done + pipe + 8
    case Joining => done + pipe + 2
    case Finishing(rest, _) => |rest| + 1
    case Down => 0
  }

  ghost function Bound(s: Pool): nat {
    10 * Remaining(s) + MainWork(s.main, |s.done|, s.pipe)
  }

  /** A worker step gives the main thread at most nine more steps to take. */
  lemma WorkGrows(main: Main, done: nat, pipe: nat, done': nat, pipe': nat)
    requires done' + pipe' <= done + pipe + 1
    ensures MainWork(main, done', pipe') <= MainWork(main, done, pipe) + 9
  {
  }

  lemma WorkerBound(s: Pool, step: Step)
    requires OnItsOwn(s, step) && IsWorkerStep(step)
    ensures Bound(Apply(s, step)) < Bound(s)
  {
    var t := Apply(s, step);
    WorkGrows(s.main, |s.done|, s.pipe, |t.done|, t.pipe);
    RemainingFalls(s, step);
  }

  lemma MainBound(s: Pool, step: Step)
    requires WhenNoWorkers(s) && Phases(s) && OnItsOwn(s, step) && !IsWorkerStep(step)
    ensures Bound(Apply(s, step)) < Bound(s)
  {
    if step.FiniJoined? {
      JoinedHasNothingPending(s);
    }
  }

  lemma StepBound(s: Pool, step: Step)
    requires WhenNoWorkers(s) && Phases(s) && OnItsOwn(s, step)
    ensures Bound(Apply(s, step)) < Bound(s) && Apply(s, step).accepted == s.accepted
  {
    if IsWorkerStep(step) {
      WorkerBound(s, step);
    } else {
      MainBound(s, step);
    }
  }

  /** However the workers and the main thread are scheduled, only so many steps follow. */
  lemma {:induction false} RestIsNear(s: Pool, steps: seq<Step>)
    requires Invariant(s) && IsRun(s, steps) && RunsOnItsOwn(s, steps)
    ensures |steps| <= Bound(s)
    decreases |steps|
  {
    if steps != [] {
      StepBound(s, steps[0]);
      InvariantStep(s, steps[0]);
      RestIsNear(Apply(s, steps[0]), steps[1..]);
    }
  }

  // ---------------------------------------------------------------- at rest

  ghost predicate AtRest(s: Pool) {
    forall step :: !OnItsOwn(s, step)
  }

  predicate Asleep(w: Worker) {
    w.Waiting? || w.Exited?
  }

  lemma RestingWorkers(s: Pool)
    requires AtRest(s)
    ensures forall i | 0 <= i < |s.workers| :: Asleep(s.workers[i])
  {
    forall i: nat | i < |s.workers| ensures Asleep(s.workers[i]) {
      assert !OnItsOwn(s, WorkerTop(i)) && !OnItsOwn(s, RunFn(i, 0)) && !OnItsOwn(s, AppendDone(i)) && !OnItsOwn(s, Notify(i));
    }
  }

  function NextOfMain(main: Main, pipe: nat): Step {
    match main
    case Free => DrainStart
    case Reading => if pipe > 0 then DrainRead else DrainReadEnds
    case Detaching => DrainDetach
    case Calling(rest, _) => if rest != [] then DrainCall else DrainCheck
    case Rearming => DrainRearm
    case Joining => FiniJoined
    case Finishing(rest, _) => if rest != [] then FiniCall else FiniEnd
    case Down => FiniEnd
  }

  lemma RestingMain(s: Pool)
    requires AtRest(s) && Phases(s)
    ensures s.main.Down? || (s.main.Free? && s.pipe == 0)
  {
    if s.main.Joining? {
      RestingWorkers(s);
      assert AllExited(s.workers);
    }
    assert !OnItsOwn(s, NextOfMain(s.main, s.pipe));
  }

  /** At rest, fn and done have been called once for every accepted job. */
  lemma RestMeansFinished(s: Pool, j: Job)
    requires Invariant(s) && AtRest(s)
    ensures Called(s.ran, j) == Called(s.finished, j) == Count(s.accepted, j)
  {
    RestingWorkers(s);
    RestingMain(s);
    assert s.pending == [] && s.done == [];
    IdleHolders(s.workers, j);
    assert Ledgers(s, j);
  }

  /** From every reachable state the pool can go on by itself until it rests, and then every
      job accepted so far has been finished. */
  lemma {:induction false} EveryJobFinishes(s: Pool) returns (steps: seq<Step>)
    requires Invariant(s)
    ensures IsRun(s, steps) && RunsOnItsOwn(s, steps)
    ensures AtRest(After(s, steps)) && After(s, steps).accepted == s.accepted
    ensures forall j :: Called(After(s, steps).finished, j) == Count(s.accepted, j)
    decreases Bound(s)
  {
    if AtRest(s) {
      steps := [];
      forall j ensures Called(s.finished, j) == Count(s.accepted, j) {
        RestMeansFinished(s, j);
      }
    } else {
      var step :| OnItsOwn(s, step);
      StepBound(s, step);
      InvariantStep(s, step);
      var rest := EveryJobFinishes(Apply(s, step));
      steps := [step] + rest;
      assert steps[1..] == rest;
    }
  }

  /** Every run can be continued until every job accepted in it has had its callback. */
  lemma EveryRunCanFinish(threads: nat, capacity: nat, rearms: bool, steps: seq<Step>) returns (more: seq<Step>)
    requires capacity >= 1 && IsRun(Start(threads, capacity, rearms), steps)
    ensures var s := After(Start(threads, capacity, rearms), steps);
      && IsRun(s, more) && RunsOnItsOwn(s, more) && AtRest(After(s, more))
      && forall j :: Called(After(s, more).finished, j) == Count(s.accepted, j)
  {
    InvariantRun(threads, capacity, rearms, steps);
    more := EveryJobFinishes(After(Start(threads, capacity, rearms), steps));
  }
}
