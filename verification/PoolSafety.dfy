/** What every step of the worker pool keeps: the phases of start-up and shutdown, that a
    queued job always has a worker to come for it, and that a finished job always has
    something to wake the main thread. */
module PoolSafety {
  import opened WorkerPool

  predicate NoneExited(ws: seq<Worker>) {
    forall i | 0 <= i < |ws| :: !ws[i].Exited?
  }

  predicate SomeAwake(ws: seq<Worker>) {
    exists i | 0 <= i < |ws| :: !ws[i].Waiting?
  }

  predicate SomeNotifying(ws: seq<Worker>) {
    exists i | 0 <= i < |ws| :: ws[i].Notifying?
  }

  /** With no workers left there is nothing queued and nothing waiting for its callback. */
  ghost predicate WhenNoWorkers(s: Pool) {
    s.nworkers == 0 ==>
      && AllExited(s.workers) && s.pending == [] && s.done == []
      && (s.main.Calling? ==> s.main.rest == [])
  }

  /** How far shutdown has come, seen from the main thread and from the workers. */
  ghost predicate Phases(s: Pool) {
    && (s.nworkers > 0 ==> s.nworkers == |s.workers|)
    && (s.main.Joining? ==> s.stopping && s.nworkers > 0)
    && (s.main.Finishing? || s.main.Down? ==> s.nworkers == 0)
    && (s.stopping ==> s.main.Joining? || s.main.Finishing?)
    && (s.stopping ==> !SomeWaiting(s.workers))
    && (s.nworkers > 0 && !NoneExited(s.workers) ==> s.stopping && s.pending == [])
  }

  /** pthread_cond_signal is never lost: a queued job has a worker that is not asleep. */
  ghost predicate NoLostSignal(s: Pool) {
    s.pending != [] ==> SomeAwake(s.workers)
  }

  /** The pipe wakeup is never lost: a finished job has a byte in the pipe, a worker about
      to write one, or a drain that has not detached the done queue yet. */
  ghost predicate NoLostWakeup(s: Pool) {
    && s.capacity >= 1
    && (s.done != [] ==> s.pipe > 0 || SomeNotifying(s.workers) || s.main.Reading? || s.main.Detaching?)
  }

  ghost predicate Safe(s: Pool) {
    WhenNoWorkers(s) && Phases(s) && NoLostSignal(s) && NoLostWakeup(s)
  }

  lemma PhasesStep(s: Pool, step: Step)
    requires WhenNoWorkers(s) && Phases(s) && Enabled(s, step)
    ensures Phases(Apply(s, step))
  {
    var t := Apply(s, step);
    assert |t.workers| == |s.workers|;
  }

  lemma WhenNoWorkersStep(s: Pool, step: Step)
    requires WhenNoWorkers(s) && Phases(s) && Enabled(s, step)
    ensures WhenNoWorkers(Apply(s, step))
  {
  }

  lemma NoLostSignalStep(s: Pool, step: Step)
    requires WhenNoWorkers(s) && Phases(s) && NoLostSignal(s) && Enabled(s, step)
    ensures NoLostSignal(Apply(s, step))
  {
    var t := Apply(s, step);
    if s.pending != [] {
      var i :| 0 <= i < |s.workers| && !s.workers[i].Waiting?;
      assert |t.workers| == |s.workers| && (t.pending != [] ==> !t.workers[i].Waiting?);
    } else if t.pending != [] {
      assert !t.workers[if SomeWaiting(s.workers) then step.wake else 0].Waiting?;
    }
  }

  lemma NoLostWakeupStep(s: Pool, step: Step)
    requires Phases(s) && NoLostWakeup(s) && Enabled(s, step)
    ensures NoLostWakeup(Apply(s, step))
  {
    var t := Apply(s, step);
    if step.AppendDone? {
      assert t.workers[step.w].Notifying?;
    } else if SomeNotifying(s.workers) && !step.Notify? {
      var i :| 0 <= i < |s.workers| && s.workers[i].Notifying?;
      assert t.workers[i].Notifying?;
    }
  }
}
