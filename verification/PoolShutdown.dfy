/** Shutdown makes progress: the join waits for a bounded number of worker steps and can
    never be stuck, and from there fini can always return.  Also the run that shows
    callbacks out of order. */
module PoolShutdown {
  import opened WorkerPool
  import opened PoolSafety
  import opened PoolLedger
  import opened PoolOrder
  import opened PoolRuns

  /** Steps a worker still has to take before it sleeps or exits, if it finds no more jobs. */
  ghost function Rank(w: Worker): nat {
    match w
    case Holding(_) => 4
    case Ran(_) => 3
    case Notifying => 2
    case Ready => 1
    case Waiting => 0
    case Exited => 0
  }

  ghost function RankSum(ws: seq<Worker>): nat {
    if ws == [] then 0 else Rank(ws[0]) + RankSum(ws[1..])
  }

  /** Upper bound on the worker steps that the join has to wait for. */
  ghost function Remaining(s: Pool): nat {
    4 * |s.pending| + RankSum(s.workers)
  }

  lemma {:induction false} RankMoves(ws: seq<Worker>, i: nat, w: Worker)
    requires i < |ws|
    ensures RankSum(ws[i := w]) + Rank(ws[i]) == RankSum(ws) + Rank(w)
  {
    if i == 0 {
      assert ws[i := w][1..] == ws[1..];
    } else {
      assert ws[i := w][1..] == ws[1..][i - 1 := w];
      RankMoves(ws[1..], i - 1, w);
    }
  }

  /** Every step of a worker that does not wake it for no reason brings its rest nearer. */
  lemma RemainingFalls(s: Pool, step: Step)
    requires Enabled(s, step) && IsWorkerStep(step) && !step.SpuriousWake?
    ensures Remaining(Apply(s, step)) < Remaining(s) && Apply(s, step).main == s.main
  {
    var t := Apply(s, step);
    var v := t.workers[step.w];
    RankMoves(s.workers, step.w, v);
    assert t.workers == s.workers[step.w := v];
    assert 4 * |t.pending| + Rank(v) < 4 * |s.pending| + Rank(s.workers[step.w]);
  }

  /** While main is joining, the only steps are the workers', each of which brings the end
      nearer, and the end of the join itself. */
  lemma JoiningStep(s: Pool, step: Step)
    requires Phases(s) && s.main.Joining? && Enabled(s, step) && !step.FiniJoined?
    ensures Apply(s, step).main.Joining? && Remaining(Apply(s, step)) < Remaining(s)
  {
    assert IsWorkerStep(step) && !step.SpuriousWake?;
    RemainingFalls(s, step);
  }

  /** The join is never stuck: some worker can move or all have exited. */
  lemma JoiningMoves(s: Pool) returns (step: Step)
    requires Phases(s) && s.main.Joining?
    ensures Enabled(s, step)
  {
    if AllExited(s.workers) {
      step := FiniJoined;
    } else {
      var i: nat :| i < |s.workers| && !s.workers[i].Exited?;
      assert !s.workers[i].Waiting?;
      var w := s.workers[i];
      step := if w.Ready? then WorkerTop(i) else if w.Holding? then RunFn(i, 0)
              else if w.Ran? then AppendDone(i) else Notify(i);
    }
  }

  /** However the workers are scheduled, the join waits for at most Remaining steps. */
  lemma {:induction false} JoinIsBounded(s: Pool, steps: seq<Step>)
    requires Invariant(s) && s.main.Joining? && IsRun(s, steps) && FiniJoined !in steps
    ensures |steps| <= Remaining(s)
    decreases |steps|
  {
    if steps != [] {
      JoiningStep(s, steps[0]);
      InvariantStep(s, steps[0]);
      JoinIsBounded(Apply(s, steps[0]), steps[1..]);
    }
  }

  /** Once shutdown has begun it can be carried through from wherever it stands. */
  lemma {:induction false} FiniReturns(s: Pool) returns (steps: seq<Step>)
    requires Invariant(s) && (s.main.Joining? || s.main.Finishing?)
    ensures IsRun(s, steps) && After(s, steps).main.Down?
    decreases s.main.Joining?, if s.main.Joining? then Remaining(s) else |s.main.rest|
  {
    var step;
    if s.main.Joining? {
      step := JoiningMoves(s);
      if !step.FiniJoined? {
        JoiningStep(s, step);
      }
    } else {
      step := if s.main.rest != [] then FiniCall else FiniEnd;
    }
    InvariantStep(s, step);
    var rest: seq<Step> := [];
    if step != FiniEnd {
      rest := FiniReturns(Apply(s, step));
    }
    steps := [step] + rest;
    assert steps[1..] == rest;
  }

  // ---------------------------------------------------------------- a run out of order

  /** One more step at the end of a run. */
  lemma {:induction false} Extend(start: Pool, steps: seq<Step>, step: Step) returns (s: Pool, longer: seq<Step>)
    requires IsRun(start, steps) && Enabled(After(start, steps), step)
    ensures IsRun(start, longer) && After(start, longer) == s == Apply(After(start, steps), step)
    decreases |steps|
  {
    if steps == [] {
      s, longer := Apply(start, step), [step];
      assert longer[1..] == [];
    } else {
      var more;
      s, more := Extend(Apply(start, steps[0]), steps[1..], step);
      longer := [steps[0]] + more;
      assert longer[1..] == more;
    }
  }

  /** The single worker takes the job at the head of the queue all the way to the pipe. */
  lemma OneJob(start: Pool, steps: seq<Step>) returns (s: Pool, longer: seq<Step>)
    requires IsRun(start, steps)
    requires var p := After(start, steps); |p.workers| == 1 && p.workers[0].Ready? && p.pending != []
    ensures IsRun(start, longer) && After(start, longer) == s
    ensures var p := After(start, steps);
      && s.workers == p.workers && s.pending == p.pending[1..] && s.done == p.done + [p.pending[0]]
      && s.main == p.main && s.next == p.next && s.nworkers == p.nworkers && s.stopping == p.stopping
      && s.accepted == p.accepted && s.finished == p.finished
  {
    s, longer := Extend(start, steps, WorkerTop(0));
    s, longer := Extend(start, longer, RunFn(0, 0));
    s, longer := Extend(start, longer, AppendDone(0));
    s, longer := Extend(start, longer, Notify(0));
    assert s.workers == After(start, steps).workers;
  }

  lemma TwoJobsDone() returns (s: Pool, steps: seq<Step>)
    ensures IsRun(Start(1, 1, true), steps) && After(Start(1, 1, true), steps) == s
    ensures |s.workers| == 1 && s.workers[0].Ready? && s.pending == [] && s.main.Free? && s.nworkers == 1
    ensures s.accepted == s.done == [0, 1] && s.finished == [] && s.next == 2
  {
    var start := Start(1, 1, true);
    s, steps := Extend(start, [], SubmitQueued(0));
    s, steps := Extend(start, steps, SubmitQueued(0));
    s, steps := OneJob(start, steps);
    s, steps := OneJob(start, steps);
  }

  /** fini with an idle worker: stop, let it exit, join. */
  lemma Shut(start: Pool, steps: seq<Step>) returns (s: Pool, longer: seq<Step>)
    requires IsRun(start, steps)
    requires var p := After(start, steps);
      |p.workers| == 1 && p.workers[0].Ready? && p.pending == [] && p.main.Free? && p.nworkers == 1
    ensures IsRun(start, longer) && After(start, longer) == s
    ensures var p := After(start, steps);
      && s.main == Finishing(p.done, false) && s.next == p.next && s.nworkers == 0
      && s.accepted == p.accepted && s.finished == p.finished
  {
    s, longer := Extend(start, steps, FiniStop);
    s, longer := Extend(start, longer, WorkerTop(0));
    s, longer := Extend(start, longer, FiniJoined);
  }

  /** Two jobs are done before fini; the first of fini's callbacks submits a third, which is
      finished before the second. */
  lemma OvertakingRun() returns (s: Pool, steps: seq<Step>)
    ensures IsRun(Start(1, 1, true), steps) && After(Start(1, 1, true), steps) == s
    ensures s.accepted == [0, 1, 2] && Jobs(s.finished) == [0, 2]
  {
    var start := Start(1, 1, true);
    s, steps := TwoJobsDone();
    s, steps := Shut(start, steps);
    s, steps := Extend(start, steps, FiniCall);
    s, steps := Extend(start, steps, SubmitInline(0));
  }
}
