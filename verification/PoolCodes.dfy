/** The result code: each done callback reports what fn stored for that very job. */
module PoolCodes {
  import opened WorkerPool
  import opened PoolSafety
  import opened PoolLedger

  ghost predicate Ledgers(s: Pool, j: Job) {
    AcceptedLedger(s, j) && RanLedger(s, j) && FreedLedger(s, j) && IdLedger(s, j)
  }

  /** The rc field still holds what fn stored, and callbacks reported only such values. */
  ghost predicate Carried(rc: map<Job, int>, ran: seq<Call>, finished: seq<Call>) {
    && (forall c | c in ran :: c.job in rc && rc[c.job] == c.rc)
    && (forall c | c in finished :: c in ran)
  }

  lemma {:induction false} CalledSome(calls: seq<Call>, c: Call)
    requires c in calls
    ensures Called(calls, c.job) > 0
  {
    if calls[|calls| - 1] != c {
      CalledSome(calls[..|calls| - 1], c);
    }
  }

  lemma {:induction false} CallOf(calls: seq<Call>, j: Job) returns (c: Call)
    requires Called(calls, j) > 0
    ensures c in calls && c.job == j
  {
    c := calls[|calls| - 1];
    if c.job != j {
      c := CallOf(calls[..|calls| - 1], j);
    }
  }

  lemma {:induction false} HeldSome(ws: seq<Worker>, i: nat)
    requires i < |ws| && ws[i].Holding?
    ensures Holders(ws, ws[i].job) > 0
  {
    if i > 0 {
      HeldSome(ws[1..], i - 1);
    }
  }

  /** A job is at one place only, so fn runs at most once for it. */
  lemma FnOnce(s: Pool, j: Job)
    requires Ledgers(s, j)
    ensures Called(s.finished, j) <= Called(s.ran, j) <= Count(s.accepted, j) <= 1
    ensures Holders(s.workers, j) > 0 || j >= s.next ==> Called(s.ran, j) == 0
  {
  }

  /** Storing a code for a job whose fn has not run keeps the codes of the others. */
  lemma SetCode(rc: map<Job, int>, ran: seq<Call>, finished: seq<Call>, j: Job, code: int)
    requires Carried(rc, ran, finished) && Called(ran, j) == 0
    ensures Carried(rc[j := code], ran, finished)
    ensures Carried(rc[j := code], ran + [Call(j, code)], finished)
    ensures Carried(rc[j := code], ran + [Call(j, code)], finished + [Call(j, code)])
  {
    forall c | c in ran ensures c.job != j {
      CalledSome(ran, c);
    }
  }

  lemma CallbackCode(s: Pool)
    requires Carried(s.rc, s.ran, s.finished) && (s.main.Calling? || s.main.Finishing?) && s.main.rest != []
    requires Ledgers(s, s.main.rest[0])
    ensures Carried(s.rc, s.ran, Callback(s, s.main.rest[0]).finished)
  {
    CountPop(s.main.rest, s.main.rest[0]);
    var c := CallOf(s.ran, s.main.rest[0]);
    assert c == Call(s.main.rest[0], RcOf(s, s.main.rest[0]));
  }

  lemma CodesStep(s: Pool, step: Step)
    requires Carried(s.rc, s.ran, s.finished) && Enabled(s, step) && Ledgers(s, s.next)
    requires step.RunFn? ==> Ledgers(s, s.workers[step.w].job)
    requires step.DrainCall? || step.FiniCall? ==> Ledgers(s, s.main.rest[0])
    ensures var t := Apply(s, step); Carried(t.rc, t.ran, t.finished)
  {
    match step
    case RunFn(w, rc) =>
      HeldSome(s.workers, w);
      FnOnce(s, s.workers[w].job);
      SetCode(s.rc, s.ran, s.finished, s.workers[w].job, rc);
    case SubmitQueued(_) =>
      FnOnce(s, s.next);
      SetCode(s.rc, s.ran, s.finished, s.next, 0);
    case SubmitInline(rc) =>
      FnOnce(s, s.next);
      SetCode(s.rc, s.ran, s.finished, s.next, rc);
    case DrainCall => CallbackCode(s);
    case FiniCall => CallbackCode(s);
    case _ =>
  }
}
