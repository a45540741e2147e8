/** What the pool can do: as many jobs at once as there are threads, workers that stand
    anywhere, callbacks out of order as soon as there are two threads, a pipe that fills. */
module PoolReach {
  import opened WorkerPool
  import opened PoolSafety
  import opened PoolLedger
  import opened PoolOrder
  import opened PoolRuns
  import opened PoolShutdown

  // ---------------------------------------------------------------- workers side by side

  /** The first k workers each have a job, the others are at the top of their loop. */
  ghost predicate FirstBusy(s: Pool, threads: nat, k: nat) {
    && k <= threads == |s.workers| && s.nworkers == threads && s.pending == [] && s.next == k && s.main.Free? && !s.overtaken
    && (forall i: nat | i < threads :: s.workers[i] == if i < k then Holding(i) else Ready)
  }

  lemma OneMoreBusy(start: Pool, steps: seq<Step>, threads: nat, k: nat) returns (longer: seq<Step>)
    requires IsRun(start, steps) && FirstBusy(After(start, steps), threads, k) && k < threads
    ensures IsRun(start, longer) && FirstBusy(After(start, longer), threads, k + 1)
  {
    var s;
    s, longer := Extend(start, steps, SubmitQueued(0));
    s, longer := Extend(start, longer, WorkerTop(k));
  }

  lemma {:induction false} BusyRun(threads: nat, capacity: nat, rearms: bool, k: nat) returns (steps: seq<Step>)
    requires k <= threads
    ensures IsRun(Start(threads, capacity, rearms), steps) && FirstBusy(After(Start(threads, capacity, rearms), steps), threads, k)
  {
    if k == 0 {
      steps := [];
    } else {
      steps := BusyRun(threads, capacity, rearms, k - 1);
      steps := OneMoreBusy(Start(threads, capacity, rearms), steps, threads, k - 1);
    }
  }

  /** For every number of threads there is a run after which that many jobs are with workers at
      the same time; there are never more workers than that. */
  lemma AllThreadsAtOnce(threads: nat, capacity: nat, rearms: bool) returns (steps: seq<Step>)
    ensures IsRun(Start(threads, capacity, rearms), steps)
    ensures var s := After(Start(threads, capacity, rearms), steps);
      |s.workers| == threads && forall i: nat | i < threads :: s.workers[i] == Holding(i)
  {
    steps := BusyRun(threads, capacity, rearms, threads);
  }

  lemma NeverMoreThreads(threads: nat, capacity: nat, rearms: bool, steps: seq<Step>)
    requires IsRun(Start(threads, capacity, rearms), steps)
    ensures |After(Start(threads, capacity, rearms), steps).workers| == threads
  {
    ThreadsStay(Start(threads, capacity, rearms), steps);
  }

  // ---------------------------------------------------------------- out of order

  lemma TwoTaken(threads: nat, capacity: nat, rearms: bool) returns (s: Pool, steps: seq<Step>)
    requires threads >= 2
    ensures IsRun(Start(threads, capacity, rearms), steps) && After(Start(threads, capacity, rearms), steps) == s
    ensures |s.workers| == threads && s.workers[1] == Holding(1) && s.rc == map[0 := 0, 1 := 0]
    ensures s.done == [] && s.accepted == [0, 1] && s.finished == [] && s.main.Free? && !s.overtaken
  {
    var start := Start(threads, capacity, rearms);
    s, steps := Extend(start, [], SubmitQueued(0));
    s, steps := Extend(start, steps, SubmitQueued(0));
    s, steps := Extend(start, steps, WorkerTop(0));
    s, steps := Extend(start, steps, WorkerTop(1));
  }

  /** The second of two jobs comes back first. */
  lemma SecondFirst(threads: nat, capacity: nat, rearms: bool, rc: int) returns (s: Pool, steps: seq<Step>)
    requires threads >= 2
    ensures IsRun(Start(threads, capacity, rearms), steps) && After(Start(threads, capacity, rearms), steps) == s
    ensures s.done == [1] && s.accepted == [0, 1] && s.finished == [] && s.main.Free? && !s.overtaken && s.rc == map[0 := 0, 1 := rc]
  {
    var start := Start(threads, capacity, rearms);
    s, steps := TwoTaken(threads, capacity, rearms);
    s, steps := Extend(start, steps, RunFn(1, rc));
    s, steps := Extend(start, steps, AppendDone(1));
  }

  lemma OneCallback(start: Pool, steps: seq<Step>, j: Job) returns (s: Pool, longer: seq<Step>)
    requires IsRun(start, steps)
    requires var p := After(start, steps); p.main.Free? && p.done == [j] && p.finished == [] && !p.overtaken && j in p.rc
    ensures IsRun(start, longer) && After(start, longer) == s
    ensures var p := After(start, steps); s.finished == [Call(j, p.rc[j])] && s.accepted == p.accepted && !s.overtaken
  {
    s, longer := Extend(start, steps, DrainStart);
    s, longer := Extend(start, longer, DrainReadEnds);
    s, longer := Extend(start, longer, DrainDetach);
    s, longer := Extend(start, longer, DrainCall);
  }

  /** With two threads or more, callbacks run out of order although nothing overtakes them, so
      that one thread is the most for which the order is kept. */
  lemma OrderNeedsOneThread(threads: nat, capacity: nat, rearms: bool, rc: int) returns (steps: seq<Step>)
    requires threads >= 2
    ensures IsRun(Start(threads, capacity, rearms), steps) && !Overtakes(Start(threads, capacity, rearms), steps)
    ensures var s := After(Start(threads, capacity, rearms), steps);
      s.accepted == [0, 1] && s.finished == [Call(1, rc)] && !(Jobs(s.finished) <= s.accepted)
  {
    var start, s := Start(threads, capacity, rearms), Start(threads, capacity, rearms);
    s, steps := SecondFirst(threads, capacity, rearms, rc);
    s, steps := OneCallback(start, steps, 1);
    OvertakenHistory(start, steps);
    assert Jobs(s.finished)[0] == 1;
  }

  // ---------------------------------------------------------------- workers that stand anywhere

  /** Where a worker can stand while the pool is up. */
  datatype Stand = AtTop | AsleepThere | BeforeFn | AfterFn | BeforeNotify

  predicate StandsAt(w: Worker, at: Stand) {
    match at
    case AtTop => w.Ready?
    case AsleepThere => w.Waiting?
    case BeforeFn => w.Holding?
    case AfterFn => w.Ran?
    case BeforeNotify => w.Notifying?
  }

  /** Where the worker stands before those that are to sleep have been sent to sleep. */
  function Awake(at: Stand): Stand {
    if at.AsleepThere? then AtTop else at
  }

  ghost predicate Quiet(s: Pool, threads: nat) {
    s.nworkers == threads == |s.workers| && s.pending == [] && s.main.Free? && !s.stopping
  }

  ghost predicate FirstStand(s: Pool, want: seq<Stand>, k: nat) {
    && k <= |want| && Quiet(s, |want|)
    && forall i: nat | i < |want| :: StandsAt(s.workers[i], if i < k then Awake(want[i]) else AtTop)
  }

  /** Worker k takes a job and carries it as far as wanted. */
  lemma PlaceWorker(start: Pool, steps: seq<Step>, want: seq<Stand>, k: nat) returns (longer: seq<Step>)
    requires IsRun(start, steps) && FirstStand(After(start, steps), want, k) && k < |want|
    ensures IsRun(start, longer) && FirstStand(After(start, longer), want, k + 1)
  {
    longer := steps;
    var s := After(start, steps);
    var at := Awake(want[k]);
    if !at.AtTop? {
      s, longer := Extend(start, longer, SubmitQueued(0));
      s, longer := Extend(start, longer, WorkerTop(k));
      if !at.BeforeFn? {
        s, longer := Extend(start, longer, RunFn(k, 0));
        if !at.AfterFn? {
          s, longer := Extend(start, longer, AppendDone(k));
        }
      }
    }
  }

  lemma {:induction false} PlaceWorkers(threads: nat, capacity: nat, rearms: bool, want: seq<Stand>, k: nat) returns (steps: seq<Step>)
    requires k <= |want| == threads
    ensures IsRun(Start(threads, capacity, rearms), steps)
    ensures FirstStand(After(Start(threads, capacity, rearms), steps), want, k)
  {
    if k == 0 {
      steps := [];
    } else {
      steps := PlaceWorkers(threads, capacity, rearms, want, k - 1);
      steps := PlaceWorker(Start(threads, capacity, rearms), steps, want, k - 1);
    }
  }

  ghost predicate FirstAsleep(s: Pool, want: seq<Stand>, k: nat) {
    && k <= |want| && Quiet(s, |want|)
    && forall i: nat | i < |want| :: StandsAt(s.workers[i], if i < k then want[i] else Awake(want[i]))
  }

  lemma {:induction false} SendToSleep(start: Pool, steps: seq<Step>, want: seq<Stand>, k: nat) returns (longer: seq<Step>)
    requires IsRun(start, steps) && FirstAsleep(After(start, steps), want, 0) && k <= |want|
    ensures IsRun(start, longer) && FirstAsleep(After(start, longer), want, k)
  {
    if k == 0 {
      longer := steps;
    } else {
      longer := SendToSleep(start, steps, want, k - 1);
      if want[k - 1].AsleepThere? {
        var s;
        s, longer := Extend(start, longer, WorkerTop(k - 1));
      }
    }
  }

  /** The workers can stand anywhere in their loops, each independently of the others. */
  lemma AnyStands(threads: nat, capacity: nat, rearms: bool, want: seq<Stand>) returns (steps: seq<Step>)
    requires |want| == threads
    ensures IsRun(Start(threads, capacity, rearms), steps)
    ensures var s := After(Start(threads, capacity, rearms), steps);
      |s.workers| == threads && forall i: nat | i < threads :: StandsAt(s.workers[i], want[i])
  {
    var start := Start(threads, capacity, rearms);
    steps := PlaceWorkers(threads, capacity, rearms, want, threads);
    steps := SendToSleep(start, steps, want, threads);
  }
}
