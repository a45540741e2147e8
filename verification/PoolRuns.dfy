/** The worker pool's guarantees over whole runs: every schedule of the workers, every
    choice of submits and result codes, every number of threads and every pipe size. */
module PoolRuns {
  import opened WorkerPool
  import opened PoolSafety
  import opened PoolLedger
  import opened PoolOrder
  import opened PoolCodes

  ghost predicate Invariant(s: Pool) {
    && Safe(s)
    && StartedInOrder(s)
    && (forall j :: Ledgers(s, j))
    && Carried(s.rc, s.ran, s.finished)
    && CallbackOrder(s)
  }

  lemma InvariantStart(threads: nat, capacity: nat, rearms: bool)
    requires capacity >= 1
    ensures Invariant(Start(threads, capacity, rearms))
  {
    var s := Start(threads, capacity, rearms);
    forall j ensures Ledgers(s, j) {
      IdleHolders(s.workers, j);
    }
  }

  lemma LedgersStep(s: Pool, step: Step, j: Job)
    requires Safe(s) && StartedInOrder(s) && Ledgers(s, j) && Enabled(s, step)
    ensures Ledgers(Apply(s, step), j)
  {
    AcceptedStep(s, step, j);
    RanStep(s, step, j);
    FreedStep(s, step, j);
    IdStep(s, step, j);
  }

  lemma InvariantStep(s: Pool, step: Step)
    requires Invariant(s) && Enabled(s, step)
    ensures Invariant(Apply(s, step))
  {
    PhasesStep(s, step);
    WhenNoWorkersStep(s, step);
    NoLostSignalStep(s, step);
    NoLostWakeupStep(s, step);
    StartedStep(s, step);
    forall j ensures Ledgers(Apply(s, step), j) {
      LedgersStep(s, step, j);
    }
    assert Ledgers(s, s.next);
    CodesStep(s, step);
    CallbackOrderStep(s, step);
  }

  lemma {:induction false} InvariantAfter(s: Pool, steps: seq<Step>)
    requires Invariant(s) && IsRun(s, steps)
    ensures Invariant(After(s, steps))
    decreases |steps|
  {
    if steps != [] {
      InvariantStep(s, steps[0]);
      InvariantAfter(Apply(s, steps[0]), steps[1..]);
    }
  }

  lemma InvariantRun(threads: nat, capacity: nat, rearms: bool, steps: seq<Step>)
    requires capacity >= 1 && IsRun(Start(threads, capacity, rearms), steps)
    ensures Invariant(After(Start(threads, capacity, rearms), steps))
  {
    InvariantStart(threads, capacity, rearms);
    InvariantAfter(Start(threads, capacity, rearms), steps);
  }

  // ---------------------------------------------------------------- main results

  /** How many places hold the job. */
  ghost function Places(s: Pool, j: Job): nat {
    Count(s.pending, j) + Holders(s.workers, j) + Runners(s.workers, j) + Count(s.done, j)
      + Count(InMain(s.main), j) + Called(s.finished, j)
  }

  /** At every moment an accepted job is in exactly one place: queued, with a worker before or
      after fn, on the done queue, detached by the main thread, or past its callback. */
  lemma InOnePlace(threads: nat, capacity: nat, rearms: bool, steps: seq<Step>, j: Job)
    requires capacity >= 1 && IsRun(Start(threads, capacity, rearms), steps)
    ensures var s := After(Start(threads, capacity, rearms), steps);
      Count(s.accepted, j) <= 1 && Places(s, j) == Count(s.accepted, j)
  {
    var s := After(Start(threads, capacity, rearms), steps);
    InvariantRun(threads, capacity, rearms, steps);
    assert Ledgers(s, j);
  }

  /** No wakeup is lost in either direction, with or without the re-arming write. */
  lemma NoWakeupLost(threads: nat, capacity: nat, rearms: bool, steps: seq<Step>)
    requires capacity >= 1 && IsRun(Start(threads, capacity, rearms), steps)
    ensures var s := After(Start(threads, capacity, rearms), steps);
      && (s.pending != [] ==> SomeAwake(s.workers))
      && (s.done != [] ==> s.pipe > 0 || SomeNotifying(s.workers) || s.main.Reading? || s.main.Detaching?)
  {
    InvariantRun(threads, capacity, rearms, steps);
  }

  /** Nothing is stranded: once the workers sleep, the pipe is empty and the main thread is
      back in its loop, every accepted job has had fn and done called once each. */
  lemma AsleepMeansFinished(threads: nat, capacity: nat, rearms: bool, steps: seq<Step>, j: Job)
    requires capacity >= 1 && IsRun(Start(threads, capacity, rearms), steps)
    requires var s := After(Start(threads, capacity, rearms), steps);
      s.main.Free? && s.pipe == 0 && forall i | 0 <= i < |s.workers| :: s.workers[i].Waiting?
    ensures var s := After(Start(threads, capacity, rearms), steps);
      Called(s.ran, j) == Called(s.finished, j) == Count(s.accepted, j)
  {
    var s := After(Start(threads, capacity, rearms), steps);
    InvariantRun(threads, capacity, rearms, steps);
    assert Ledgers(s, j);
    IdleHolders(s.workers, j);
  }

  /** At every moment: fn has run at most once for a job and only if it was accepted, done at
      most once and only after fn, the structure was freed at most once, and each callback
      reported the code that fn stored for that job. */
  lemma AtMostOnce(threads: nat, capacity: nat, rearms: bool, steps: seq<Step>, j: Job, c: Call)
    requires capacity >= 1 && IsRun(Start(threads, capacity, rearms), steps)
    ensures var s := After(Start(threads, capacity, rearms), steps);
      && Called(s.finished, j) <= Called(s.ran, j) <= Count(s.accepted, j) <= 1
      && Count(s.freed, j) <= 1
      && (Count(s.freed, j) == 1 <==> Called(s.finished, j) == 1 || Count(s.rejected, j) == 1)
      && (c in s.finished ==> c in s.ran)
  {
    var s := After(Start(threads, capacity, rearms), steps);
    InvariantRun(threads, capacity, rearms, steps);
    assert Ledgers(s, j);
  }

  /** When fini has returned, no job was thrown away: fn and done were called once for each
      accepted job and every job structure has been freed once. */
  lemma ShutdownCompletes(threads: nat, capacity: nat, rearms: bool, steps: seq<Step>, j: Job)
    requires capacity >= 1 && IsRun(Start(threads, capacity, rearms), steps)
    requires After(Start(threads, capacity, rearms), steps).main.Down?
    ensures var s := After(Start(threads, capacity, rearms), steps);
      && s.dropped == []
      && Called(s.ran, j) == Called(s.finished, j) == Count(s.accepted, j)
      && Count(s.freed, j) == if j < s.next then 1 else 0
  {
    var s := After(Start(threads, capacity, rearms), steps);
    InvariantRun(threads, capacity, rearms, steps);
    assert Ledgers(s, j);
    IdleHolders(s.workers, j);
  }

  /** Jobs are started in submission order, with any number of workers. */
  lemma StartsInSubmissionOrder(threads: nat, capacity: nat, rearms: bool, steps: seq<Step>)
    requires capacity >= 1 && IsRun(Start(threads, capacity, rearms), steps)
    ensures var s := After(Start(threads, capacity, rearms), steps); s.started <= s.accepted
  {
    InvariantRun(threads, capacity, rearms, steps);
  }

  // ---------------------------------------------------------------- callback order

  /** Somewhere in the run a callback made by fini submitted a job, which runs inline, while
      fini still had callbacks to make. */
  ghost predicate Overtakes(s: Pool, steps: seq<Step>)
    requires IsRun(s, steps)
    decreases |steps|
  {
    steps != [] &&
    ((steps[0].SubmitInline? && s.main.Finishing? && s.main.rest != []) || Overtakes(Apply(s, steps[0]), steps[1..]))
  }

  lemma {:induction false} OvertakenHistory(s: Pool, steps: seq<Step>)
    requires IsRun(s, steps)
    ensures After(s, steps).overtaken <==> s.overtaken || Overtakes(s, steps)
    decreases |steps|
  {
    if steps != [] {
      var t := Apply(s, steps[0]);
      assert t.overtaken <==> s.overtaken || (steps[0].SubmitInline? && s.main.Finishing? && s.main.rest != []);
      OvertakenHistory(t, steps[1..]);
    }
  }

  lemma {:induction false} ThreadsStay(s: Pool, steps: seq<Step>)
    requires IsRun(s, steps)
    ensures |After(s, steps).workers| == |s.workers|
    decreases |steps|
  {
    if steps != [] {
      ThreadsStay(Apply(s, steps[0]), steps[1..]);
    }
  }

  /** With at most one worker, callbacks run in submission order exactly when no callback
      made by fini submits a job while fini still has callbacks to make. */
  lemma CallbacksInSubmissionOrder(threads: nat, capacity: nat, rearms: bool, steps: seq<Step>)
    requires threads <= 1 && capacity >= 1 && IsRun(Start(threads, capacity, rearms), steps)
    ensures var s := After(Start(threads, capacity, rearms), steps);
      Jobs(s.finished) <= s.accepted <==> !Overtakes(Start(threads, capacity, rearms), steps)
  {
    var s := After(Start(threads, capacity, rearms), steps);
    InvariantRun(threads, capacity, rearms, steps);
    ThreadsStay(Start(threads, capacity, rearms), steps);
    OvertakenHistory(Start(threads, capacity, rearms), steps);
    if s.overtaken {
      var k :| 0 <= k < |s.finished| && k < |s.accepted| && s.finished[k].job != s.accepted[k];
      assert Jobs(s.finished)[k] != s.accepted[k];
    } else {
      assert s.accepted[..|s.finished|] == Jobs(s.finished);
    }
  }
}
