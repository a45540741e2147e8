/** The order in which callbacks run when there is at most one worker. */
module PoolOrder {
  import opened WorkerPool
  import opened PoolSafety
  import opened PoolLedger

  ghost function Jobs(calls: seq<Call>): (r: seq<Job>)
    ensures |r| == |calls|
  {
    seq(|calls|, i requires 0 <= i < |calls| => calls[i].job)
  }

  /** What the only worker has in hand. */
  ghost function InHand(ws: seq<Worker>): seq<Job> {
    if |ws| == 1 && (ws[0].Holding? || ws[0].Ran?) then [ws[0].job] else []
  }

  /** Every job there is, from the callback made first to the job queued last. */
  ghost function Line(s: Pool): seq<Job> {
    Jobs(s.finished) + InMain(s.main) + s.done + (InHand(s.workers) + s.pending)
  }

  /** Some callback came out of turn. */
  ghost predicate OutOfTurn(s: Pool) {
    exists k :: 0 <= k < |s.finished| && k < |s.accepted| && s.finished[k].job != s.accepted[k]
  }

  ghost predicate CallbackOrder(s: Pool) {
    |s.workers| <= 1 ==> if s.overtaken then OutOfTurn(s) else Line(s) == s.accepted
  }

  lemma WorkerKeepsLine(s: Pool, step: Step)
    requires |s.workers| == 1 && Line(s) == s.accepted && Enabled(s, step)
    requires step.WorkerTop? || step.SpuriousWake? || step.RunFn? || step.AppendDone? || step.Notify?
    ensures Line(Apply(s, step)) == s.accepted
  {
    var t := Apply(s, step);
    if step.AppendDone? {
      assert t.done + (InHand(t.workers) + t.pending) == s.done + (InHand(s.workers) + s.pending);
      Regroup(s);
      Regroup(t);
    } else {
      assert InHand(t.workers) + t.pending == InHand(s.workers) + s.pending;
    }
  }

  lemma Regroup(s: Pool)
    ensures Line(s) == Jobs(s.finished) + InMain(s.main) + (s.done + (InHand(s.workers) + s.pending))
  {
  }

  lemma MainKeepsLine(s: Pool, step: Step)
    requires |s.workers| <= 1 && Line(s) == s.accepted && WhenNoWorkers(s) && Phases(s) && Enabled(s, step)
    requires !step.SubmitQueued? && !step.SubmitInline?
    requires !(step.WorkerTop? || step.SpuriousWake? || step.RunFn? || step.AppendDone? || step.Notify?)
    ensures Line(Apply(s, step)) == s.accepted
  {
    if step.DrainCall? || step.FiniCall? {
      CallbackKeepsLine(s, step);
    } else {
      QuietKeepsLine(s, step);
    }
  }

  lemma CallbackKeepsLine(s: Pool, step: Step)
    requires Enabled(s, step) && (step.DrainCall? || step.FiniCall?)
    ensures Line(Apply(s, step)) == Line(s)
  {
    var t := Apply(s, step);
    assert Jobs(t.finished) + InMain(t.main) == Jobs(s.finished) + InMain(s.main);
  }

  /** A step that calls nothing moves jobs at most from the done queue to the main thread. */
  lemma QuietKeepsLine(s: Pool, step: Step)
    requires |s.workers| <= 1 && WhenNoWorkers(s) && Phases(s) && Enabled(s, step)
    requires !IsSubmit(step) || step.SubmitFails?
    requires !IsWorkerStep(step) && !step.DrainCall? && !step.FiniCall?
    ensures Line(Apply(s, step)) == Line(s)
  {
    var t := Apply(s, step);
    if step.FiniJoined? {
      JoinedHasNothingPending(s);
    }
    assert t.finished == s.finished && t.pending == s.pending && InHand(t.workers) == InHand(s.workers);
    assert InMain(t.main) + t.done == InMain(s.main) + s.done;
    Behind(Jobs(s.finished), InMain(s.main), s.done);
    Behind(Jobs(s.finished), InMain(t.main), t.done);
  }

  lemma Behind(a: seq<Job>, b: seq<Job>, c: seq<Job>)
    ensures a + b + c == a + (b + c)
  {
  }

  lemma SubmitKeepsLine(s: Pool, step: Step)
    requires |s.workers| <= 1 && Line(s) == s.accepted && WhenNoWorkers(s) && Phases(s) && Enabled(s, step)
    requires step.SubmitQueued? || step.SubmitInline?
    requires IdLedger(s, s.next)
    ensures CallbackOrder(Apply(s, step)) || s.overtaken
  {
    if step.SubmitQueued? {
      QueuedKeepsLine(s, step);
    } else if InMain(s.main) == [] {
      InlineKeepsLine(s, step);
    } else {
      InlineOvertakes(s, step);
    }
  }

  lemma QueuedKeepsLine(s: Pool, step: Step)
    requires |s.workers| <= 1 && Enabled(s, step) && step.SubmitQueued?
    ensures Line(Apply(s, step)) == Line(s) + [s.next]
  {
    var t := Apply(s, step);
    assert InHand(t.workers) == InHand(s.workers);
  }

  lemma InlineKeepsLine(s: Pool, step: Step)
    requires |s.workers| <= 1 && WhenNoWorkers(s) && Enabled(s, step) && step.SubmitInline? && InMain(s.main) == []
    ensures Line(Apply(s, step)) == Line(s) + [s.next]
  {
    var t := Apply(s, step);
    assert InHand(s.workers) == [];
    assert Jobs(t.finished) == Jobs(s.finished) + [s.next];
  }

  lemma InlineOvertakes(s: Pool, step: Step)
    requires Line(s) == s.accepted && Enabled(s, step) && step.SubmitInline? && InMain(s.main) != [] && IdLedger(s, s.next)
    ensures OutOfTurn(Apply(s, step))
  {
    var t, k := Apply(s, step), |s.finished|;
    assert Line(s)[k] == s.main.rest[0];
    NotAmong(s.accepted, s.next);
    assert t.finished[k].job == s.next && t.accepted[k] == s.accepted[k];
  }

  lemma {:induction false} NotAmong(q: seq<Job>, j: Job)
    requires Count(q, j) == 0
    ensures j !in q
  {
    if q != [] {
      NotAmong(q[..|q| - 1], j);
    }
  }

  lemma OutOfTurnStays(s: Pool, step: Step)
    requires OutOfTurn(s) && Enabled(s, step)
    ensures OutOfTurn(Apply(s, step))
  {
    var k :| 0 <= k < |s.finished| && k < |s.accepted| && s.finished[k].job != s.accepted[k];
    var t := Apply(s, step);
    assert t.finished[k].job != t.accepted[k];
  }

  lemma CallbackOrderStep(s: Pool, step: Step)
    requires CallbackOrder(s) && WhenNoWorkers(s) && Phases(s) && IdLedger(s, s.next) && Enabled(s, step)
    ensures CallbackOrder(Apply(s, step))
  {
    var t := Apply(s, step);
    if |s.workers| <= 1 {
      if s.overtaken {
        OutOfTurnStays(s, step);
      } else if step.SubmitQueued? || step.SubmitInline? {
        SubmitKeepsLine(s, step);
      } else if step.WorkerTop? || step.SpuriousWake? || step.RunFn? || step.AppendDone? || step.Notify? {
        WorkerKeepsLine(s, step);
      } else {
        MainKeepsLine(s, step);
      }
    }
  }
}
