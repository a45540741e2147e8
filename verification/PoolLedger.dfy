/** Accounting for jobs: where every accepted job is, what has been called for it, and in
    which order jobs start. */
module PoolLedger {
  import opened WorkerPool
  import opened PoolSafety

  /** How often a job occurs in a queue. */
  ghost function Count(q: seq<Job>, j: Job): nat {
    if q == [] then 0 else Count(q[..|q| - 1], j) + (if q[|q| - 1] == j then 1 else 0)
  }

  lemma CountPush(q: seq<Job>, x: Job, j: Job)
    ensures Count(q + [x], j) == Count(q, j) + (if x == j then 1 else 0)
  {
    assert (q + [x])[..|q|] == q;
  }

  lemma {:induction false} CountPop(q: seq<Job>, j: Job)
    requires q != []
    ensures Count(q, j) == Count(q[1..], j) + (if q[0] == j then 1 else 0)
  {
    if |q| > 1 {
      var front := q[..|q| - 1];
      CountPop(front, j);
      assert front[1..] + [q[|q| - 1]] == q[1..];
      CountPush(front[1..], q[|q| - 1], j);
    } else {
      assert q[..0] == [] && q[1..] == [];
    }
  }

  /** How often a callback or function has been called for a job. */
  ghost function Called(calls: seq<Call>, j: Job): nat {
    if calls == [] then 0 else Called(calls[..|calls| - 1], j) + (if calls[|calls| - 1].job == j then 1 else 0)
  }

  lemma CalledPush(calls: seq<Call>, c: Call, j: Job)
    ensures Called(calls + [c], j) == Called(calls, j) + (if c.job == j then 1 else 0)
  {
    assert (calls + [c])[..|calls|] == calls;
  }

  /** Workers that have dequeued the job and not called fn for it yet. */
  ghost function Holders(ws: seq<Worker>, j: Job): nat {
    if ws == [] then 0 else (if ws[0] == Holding(j) then 1 else 0) + Holders(ws[1..], j)
  }

  /** Workers that have called fn for the job and not appended it to the done queue yet. */
  ghost function Runners(ws: seq<Worker>, j: Job): nat {
    if ws == [] then 0 else (if ws[0] == Ran(j) then 1 else 0) + Runners(ws[1..], j)
  }

  lemma {:induction false} MoveWorker(ws: seq<Worker>, i: nat, w: Worker, j: Job)
    requires i < |ws|
    ensures Holders(ws[i := w], j) + (if ws[i] == Holding(j) then 1 else 0)
         == Holders(ws, j) + (if w == Holding(j) then 1 else 0)
    ensures Runners(ws[i := w], j) + (if ws[i] == Ran(j) then 1 else 0)
         == Runners(ws, j) + (if w == Ran(j) then 1 else 0)
  {
    if i == 0 {
      assert ws[i := w][1..] == ws[1..];
    } else {
      assert ws[i := w][1..] == ws[1..][i - 1 := w];
      MoveWorker(ws[1..], i - 1, w, j);
    }
  }

  /** Workers that hold no job in one list or the other count alike. */
  lemma {:induction false} SameHolders(ws: seq<Worker>, vs: seq<Worker>, j: Job)
    requires |ws| == |vs|
    requires forall i | 0 <= i < |ws| :: ws[i] == vs[i] || (!ws[i].Holding? && !ws[i].Ran? && !vs[i].Holding? && !vs[i].Ran?)
    ensures Holders(ws, j) == Holders(vs, j) && Runners(ws, j) == Runners(vs, j)
  {
    if ws != [] {
      SameHolders(ws[1..], vs[1..], j);
    }
  }

  lemma {:induction false} IdleHolders(ws: seq<Worker>, j: Job)
    requires forall i | 0 <= i < |ws| :: !ws[i].Holding? && !ws[i].Ran?
    ensures Holders(ws, j) == 0 && Runners(ws, j) == 0
  {
    if ws != [] {
      IdleHolders(ws[1..], j);
    }
  }

  /** Detached by drain or fini, callback still to come. */
  ghost function InMain(main: Main): seq<Job> {
    if main.Calling? || main.Finishing? then main.rest else []
  }

  // ---------------------------------------------------------------- the ledgers

  /** Every accepted job is queued, with a worker that has yet to call fn, or past fn. */
  ghost predicate AcceptedLedger(s: Pool, j: Job) {
    Count(s.accepted, j) == Count(s.pending, j) + Holders(s.workers, j) + Called(s.ran, j)
  }

  /** Every fn call is with its worker, on the done queue, detached, or past its callback. */
  ghost predicate RanLedger(s: Pool, j: Job) {
    Called(s.ran, j) == Runners(s.workers, j) + Count(s.done, j) + Count(InMain(s.main), j) + Called(s.finished, j)
  }

  /** A job structure is freed by its callback or, when submit refuses it, by the caller. */
  ghost predicate FreedBalance(freed: seq<Job>, finished: seq<Call>, rejected: seq<Job>, j: Job) {
    Count(freed, j) == Called(finished, j) + Count(rejected, j)
  }

  ghost predicate FreedLedger(s: Pool, j: Job) {
    FreedBalance(s.freed, s.finished, s.rejected, j)
  }

  /** A job is accepted once or refused once, and never both. */
  ghost predicate IdLedger(s: Pool, j: Job) {
    Count(s.accepted, j) + Count(s.rejected, j) == if j < s.next then 1 else 0
  }

  /** Jobs start in the order in which they were accepted, whatever the number of workers,
      and shutdown throws none away. */
  ghost predicate StartedInOrder(s: Pool) {
    s.started + s.pending == s.accepted && s.dropped == []
  }

  /** A step changes what the workers hold only through the worker it moves. */
  lemma StepHolders(s: Pool, step: Step, j: Job)
    requires Enabled(s, step)
    ensures var t := Apply(s, step);
      && Holders(t.workers, j) == Holders(s.workers, j)
           + (if step.WorkerTop? && s.pending != [] && s.pending[0] == j then 1 else 0)
           - (if step.RunFn? && s.workers[step.w].job == j then 1 else 0)
      && Runners(t.workers, j) == Runners(s.workers, j)
           + (if step.RunFn? && s.workers[step.w].job == j then 1 else 0)
           - (if step.AppendDone? && s.workers[step.w].job == j then 1 else 0)
  {
    var t := Apply(s, step);
    if step.WorkerTop? || step.RunFn? || step.AppendDone? {
      assert t.workers == s.workers[step.w := t.workers[step.w]];
      MoveWorker(s.workers, step.w, t.workers[step.w], j);
    } else {
      SameHolders(s.workers, t.workers, j);
    }
  }

  lemma AcceptedStep(s: Pool, step: Step, j: Job)
    requires AcceptedLedger(s, j) && WhenNoWorkers(s) && StartedInOrder(s) && Phases(s) && Enabled(s, step)
    ensures AcceptedLedger(Apply(s, step), j)
  {
    StepHolders(s, step, j);
    match step
    case WorkerTop(_) => if s.pending != [] { CountPop(s.pending, j); }
    case RunFn(w, rc) => CalledPush(s.ran, Call(s.workers[w].job, rc), j);
    case SubmitQueued(_) =>
      CountPush(s.accepted, s.next, j);
      CountPush(s.pending, s.next, j);
    case SubmitInline(rc) =>
      CountPush(s.accepted, s.next, j);
      CalledPush(s.ran, Call(s.next, rc), j);
    case FiniJoined => JoinedHasNothingPending(s);
    case _ =>
  }

  /** When every worker has exited, none of them left a job behind. */
  lemma JoinedHasNothingPending(s: Pool)
    requires WhenNoWorkers(s) && Phases(s) && s.main.Joining? && AllExited(s.workers)
    ensures s.pending == []
  {
    assert s.workers[0].Exited?;
  }

  predicate IsWorkerStep(step: Step) {
    step.WorkerTop? || step.SpuriousWake? || step.RunFn? || step.AppendDone? || step.Notify?
  }

  predicate IsSubmit(step: Step) {
    step.SubmitQueued? || step.SubmitInline? || step.SubmitFails?
  }

  lemma RanWorkerStep(s: Pool, step: Step, j: Job)
    requires RanLedger(s, j) && Enabled(s, step) && IsWorkerStep(step)
    ensures RanLedger(Apply(s, step), j)
  {
    StepHolders(s, step, j);
    if step.RunFn? {
      CalledPush(s.ran, Call(s.workers[step.w].job, step.rc), j);
    } else if step.AppendDone? {
      CountPush(s.done, s.workers[step.w].job, j);
    }
  }

  lemma RanSubmitStep(s: Pool, step: Step, j: Job)
    requires RanLedger(s, j) && Enabled(s, step) && IsSubmit(step)
    ensures RanLedger(Apply(s, step), j)
  {
    StepHolders(s, step, j);
    if step.SubmitInline? {
      CalledPush(s.ran, Call(s.next, step.rc), j);
      CalledPush(s.finished, Call(s.next, step.rc), j);
    }
  }

  lemma RanMainStep(s: Pool, step: Step, j: Job)
    requires RanLedger(s, j) && WhenNoWorkers(s) && Phases(s) && Enabled(s, step) && !IsWorkerStep(step) && !IsSubmit(step)
    ensures RanLedger(Apply(s, step), j)
  {
    StepHolders(s, step, j);
    if step.DrainCall? || step.FiniCall? {
      CallbackCounts(s, j);
    }
  }

  lemma RanStep(s: Pool, step: Step, j: Job)
    requires RanLedger(s, j) && WhenNoWorkers(s) && Phases(s) && Enabled(s, step)
    ensures RanLedger(Apply(s, step), j)
  {
    if IsWorkerStep(step) {
      RanWorkerStep(s, step, j);
    } else if IsSubmit(step) {
      RanSubmitStep(s, step, j);
    } else {
      RanMainStep(s, step, j);
    }
  }

  /** A callback takes its job from the detached list to the finished log. */
  lemma CallbackCounts(s: Pool, j: Job)
    requires (s.main.Calling? || s.main.Finishing?) && s.main.rest != []
    ensures Called(Callback(s, s.main.rest[0]).finished, j) + Count(s.main.rest[1..], j)
         == Called(s.finished, j) + Count(s.main.rest, j)
  {
    CountPop(s.main.rest, j);
    CalledPush(s.finished, Call(s.main.rest[0], RcOf(s, s.main.rest[0])), j);
  }

  lemma FreedStep(s: Pool, step: Step, j: Job)
    requires FreedLedger(s, j) && Enabled(s, step)
    ensures FreedLedger(Apply(s, step), j)
  {
    if step.SubmitInline? {
      CallbackFrees(s.freed, s.finished, s.rejected, s.next, step.rc, j);
    } else if step.SubmitFails? {
      RefusalFrees(s.freed, s.finished, s.rejected, s.next, j);
    } else if step.DrainCall? || step.FiniCall? {
      CallbackFrees(s.freed, s.finished, s.rejected, s.main.rest[0], RcOf(s, s.main.rest[0]), j);
    } else {
      NothingFreed(s, step);
    }
  }

  lemma NothingFreed(s: Pool, step: Step)
    requires Enabled(s, step) && !step.SubmitInline? && !step.SubmitFails? && !step.DrainCall? && !step.FiniCall?
    ensures var t := Apply(s, step); t.freed == s.freed && t.finished == s.finished && t.rejected == s.rejected
  {
    if IsWorkerStep(step) {
    } else if step.FiniStop? {
    }
  }

  lemma CallbackFrees(freed: seq<Job>, finished: seq<Call>, rejected: seq<Job>, x: Job, rc: int, j: Job)
    requires FreedBalance(freed, finished, rejected, j)
    ensures FreedBalance(freed + [x], finished + [Call(x, rc)], rejected, j)
  {
    CountPush(freed, x, j);
    CalledPush(finished, Call(x, rc), j);
  }

  lemma RefusalFrees(freed: seq<Job>, finished: seq<Call>, rejected: seq<Job>, x: Job, j: Job)
    requires FreedBalance(freed, finished, rejected, j)
    ensures FreedBalance(freed + [x], finished, rejected + [x], j)
  {
    CountPush(freed, x, j);
    CountPush(rejected, x, j);
  }

  lemma IdStep(s: Pool, step: Step, j: Job)
    requires IdLedger(s, j) && Enabled(s, step)
    ensures IdLedger(Apply(s, step), j)
  {
    if step.SubmitQueued? || step.SubmitInline? {
      CountPush(s.accepted, s.next, j);
    } else if step.SubmitFails? {
      CountPush(s.rejected, s.next, j);
    }
  }

  lemma StartedStep(s: Pool, step: Step)
    requires StartedInOrder(s) && WhenNoWorkers(s) && Phases(s) && Enabled(s, step)
    ensures StartedInOrder(Apply(s, step))
  {
    var t := Apply(s, step);
    match step
    case WorkerTop(_) => assert t.started + t.pending == s.started + s.pending;
    case SubmitQueued(_) => assert t.started + t.pending == (s.started + s.pending) + [s.next];
    case SubmitInline(_) => assert t.started + t.pending == (s.started + s.pending) + [s.next];
    case FiniJoined => JoinedHasNothingPending(s);
    case _ =>
  }
}
