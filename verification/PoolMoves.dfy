/** Who can move when, and what the notify pipe holds. */
module PoolMoves {
  import opened WorkerPool
  import opened PoolSafety
  import opened PoolLedger
  import opened PoolRuns
  import opened PoolShutdown

  // ---------------------------------------------------------------- moves

  ghost predicate CanMove(s: Pool, w: nat) {
    exists step: Step :: Enabled(s, step) && IsWorkerStep(step) && step.w == w
  }

  /** A worker can always move until it has exited: even a sleeping one may wake for no reason. */
  lemma WorkersMove(s: Pool, w: nat)
    ensures CanMove(s, w) <==> w < |s.workers| && !s.workers[w].Exited?
  {
    if w < |s.workers| && !s.workers[w].Exited? {
      match s.workers[w] {
        case Ready => assert Enabled(s, WorkerTop(w));
        case Waiting => assert Enabled(s, SpuriousWake(w));
        case Holding(_) => assert Enabled(s, RunFn(w, 0));
        case Ran(_) => assert Enabled(s, AppendDone(w));
        case Notifying => assert Enabled(s, Notify(w));
        case Exited =>
      }
    }
  }

  /** The main thread is in its event loop, in a callback, or past fini. */
  ghost predicate MainRunsCode(main: Main) {
    main.Free? || main.Down? || (main.Calling? && main.begun) || (main.Finishing? && main.begun)
  }

  /** Jobs are accepted and refused exactly while the main thread runs code of its own. */
  lemma SubmitsWhen(s: Pool)
    ensures (exists step: Step :: Enabled(s, step) && Apply(s, step).accepted == s.accepted + [s.next]) <==> MainRunsCode(s.main)
    ensures (exists step: Step :: Enabled(s, step) && Apply(s, step).rejected == s.rejected + [s.next]) <==> MainRunsCode(s.main)
  {
    if MainRunsCode(s.main) {
      Accepting(s);
      assert Enabled(s, SubmitFails) && Apply(s, SubmitFails).rejected == s.rejected + [s.next];
    } else {
      forall step: Step | Enabled(s, step)
        ensures Apply(s, step).accepted != s.accepted + [s.next] && Apply(s, step).rejected != s.rejected + [s.next]
      {
        NoSubmit(s, step);
      }
    }
  }

  lemma Accepting(s: Pool)
    requires MainRunsCode(s.main)
    ensures exists step: Step :: Enabled(s, step) && Apply(s, step).accepted == s.accepted + [s.next]
  {
    if s.nworkers == 0 {
      assert Enabled(s, SubmitInline(0)) && Apply(s, SubmitInline(0)).accepted == s.accepted + [s.next];
    } else {
      var wake: nat := 0;
      if SomeWaiting(s.workers) {
        wake :| wake < |s.workers| && s.workers[wake].Waiting?;
      }
      assert Enabled(s, SubmitQueued(wake)) && Apply(s, SubmitQueued(wake)).accepted == s.accepted + [s.next];
    }
  }

  lemma NoSubmit(s: Pool, step: Step)
    requires Enabled(s, step) && !MainRunsCode(s.main)
    ensures |Apply(s, step).accepted| == |s.accepted| && |Apply(s, step).rejected| == |s.rejected|
  {
    assert !IsSubmit(step);
  }

  /** A queued job goes to one sleeping worker, any of them, and to no second one. */
  lemma SubmitWakesOne(s: Pool, wake: nat)
    requires MainRunsCode(s.main) && s.nworkers > 0 && wake < |s.workers| && s.workers[wake].Waiting?
    ensures Enabled(s, SubmitQueued(wake))
    ensures var t := Apply(s, SubmitQueued(wake));
      && t.pending == s.pending + [s.next] && |t.workers| == |s.workers|
      && forall i: nat | i < |s.workers| :: t.workers[i] == if i == wake then Ready else s.workers[i]
  {
    assert SomeWaiting(s.workers);
  }

  /** Shutdown and drain can begin whenever the main thread is in its event loop. */
  lemma MainBegins(s: Pool)
    requires s.main.Free?
    ensures exists step: Step :: Enabled(s, step) && Apply(s, step).main == (if s.nworkers > 0 then Joining else Finishing(s.done, false))
    ensures exists step: Step :: Enabled(s, step) && Apply(s, step).main == Reading
  {
    assert Enabled(s, FiniStop) && Enabled(s, DrainStart);
    assert Apply(s, FiniStop).main == if s.nworkers > 0 then Joining else Finishing(s.done, false);
    assert Apply(s, DrainStart).main == Reading;
  }

  /** A sleeping worker may wake at any time without anything else happening. */
  lemma WakesForNoReason(s: Pool, w: nat)
    requires w < |s.workers| && s.workers[w].Waiting?
    ensures exists step: Step :: Enabled(s, step) && Apply(s, step) == s.(workers := s.workers[w := Ready])
  {
    assert Enabled(s, SpuriousWake(w)) && Apply(s, SpuriousWake(w)) == s.(workers := s.workers[w := Ready]);
  }

  // ---------------------------------------------------------------- queued, started or dropped

  lemma {:induction false} CountBoth(a: seq<Job>, b: seq<Job>, j: Job)
    ensures Count(a + b, j) == Count(a, j) + Count(b, j)
  {
    if b == [] {
      assert a + b == a;
    } else {
      var front, last := b[..|b| - 1], b[|b| - 1];
      CountBoth(a, front, j);
      CountPush(a + front, last, j);
      assert a + b == (a + front) + [last];
    }
  }

  /** Every accepted job is on the queue, has been started or was thrown away by fini. */
  ghost predicate Kept(s: Pool, j: Job) {
    Count(s.accepted, j) == Count(s.pending, j) + Count(s.started, j) + Count(s.dropped, j)
  }

  lemma KeptStep(s: Pool, step: Step, j: Job)
    requires Kept(s, j) && Enabled(s, step)
    ensures Kept(Apply(s, step), j)
  {
    if step.WorkerTop? && s.pending != [] {
      CountPop(s.pending, j);
      CountPush(s.started, s.pending[0], j);
    } else if step.SubmitQueued? {
      CountPush(s.accepted, s.next, j);
      CountPush(s.pending, s.next, j);
    } else if step.SubmitInline? {
      CountPush(s.accepted, s.next, j);
      CountPush(s.started, s.next, j);
    } else if step.FiniStop? || step.FiniJoined? {
      CountBoth(s.dropped, s.pending, j);
    }
  }

  lemma {:induction false} KeptAfter(s: Pool, steps: seq<Step>, j: Job)
    requires Kept(s, j) && IsRun(s, steps)
    ensures Kept(After(s, steps), j)
    decreases |steps|
  {
    if steps != [] {
      KeptStep(s, steps[0], j);
      KeptAfter(Apply(s, steps[0]), steps[1..], j);
    }
  }

  /** After every run, and because nothing is ever thrown away, an accepted job is queued or has
      been started; when fini comes to throw the queue away, it is empty. */
  lemma NothingToDrop(threads: nat, capacity: nat, rearms: bool, steps: seq<Step>, j: Job)
    requires capacity >= 1 && IsRun(Start(threads, capacity, rearms), steps)
    ensures var s := After(Start(threads, capacity, rearms), steps);
      && Count(s.accepted, j) == Count(s.pending, j) + Count(s.started, j) + Count(s.dropped, j) && s.dropped == []
      && (s.main.Joining? && AllExited(s.workers) ==> s.pending == [])
      && (s.main.Free? && s.nworkers == 0 ==> s.pending == [])
  {
    var s := After(Start(threads, capacity, rearms), steps);
    KeptAfter(Start(threads, capacity, rearms), steps, j);
    InvariantRun(threads, capacity, rearms, steps);
    if s.main.Joining? && AllExited(s.workers) {
      JoinedHasNothingPending(s);
    }
  }

  // ---------------------------------------------------------------- the pipe

  lemma {:induction false} PipeAfter(s: Pool, steps: seq<Step>)
    requires IsRun(s, steps) && s.pipe <= s.capacity
    ensures After(s, steps).pipe <= After(s, steps).capacity == s.capacity
    decreases |steps|
  {
    if steps != [] {
      PipeStep(s, steps[0]);
      PipeAfter(Apply(s, steps[0]), steps[1..]);
    }
  }

  lemma PipeStep(s: Pool, step: Step)
    requires Enabled(s, step) && s.pipe <= s.capacity
    ensures Apply(s, step).pipe <= Apply(s, step).capacity == s.capacity
  {
    if IsWorkerStep(step) {
    } else if IsSubmit(step) {
    } else if step.FiniStop? {
    }
  }

  /** The pipe never holds more than it can. */
  lemma PipeHolds(threads: nat, capacity: nat, rearms: bool, steps: seq<Step>)
    requires IsRun(Start(threads, capacity, rearms), steps)
    ensures After(Start(threads, capacity, rearms), steps).pipe <= capacity
  {
    PipeAfter(Start(threads, capacity, rearms), steps);
  }

  /** n finished jobs, their octets in the pipe as far as it holds them, all workers idle. */
  ghost predicate Piled(s: Pool, threads: nat, capacity: nat, n: nat) {
    && s.nworkers == threads == |s.workers| && s.capacity == capacity && s.main.Free? && s.pending == []
    && (forall i: nat | i < threads :: s.workers[i].Ready?)
    && |s.done| == n && s.pipe == if n < capacity then n else capacity
  }

  /** One more job goes all the way to the done queue. */
  lemma PileOne(start: Pool, steps: seq<Step>, threads: nat, capacity: nat, n: nat) returns (longer: seq<Step>)
    requires threads > 0 && IsRun(start, steps) && Piled(After(start, steps), threads, capacity, n)
    ensures IsRun(start, longer) && Piled(After(start, longer), threads, capacity, n + 1)
  {
    var s;
    s, longer := Extend(start, steps, SubmitQueued(0));
    s, longer := Extend(start, longer, WorkerTop(0));
    s, longer := Extend(start, longer, RunFn(0, 0));
    s, longer := Extend(start, longer, AppendDone(0));
    s, longer := Extend(start, longer, Notify(0));
  }

  /** Finished jobs that nobody drains: each writes one octet until the pipe is full, and then
      the octet is dropped while the job stays on the queue. */
  lemma {:induction false} PipeFills(threads: nat, capacity: nat, rearms: bool, n: nat) returns (steps: seq<Step>)
    requires threads > 0
    ensures IsRun(Start(threads, capacity, rearms), steps)
    ensures Piled(After(Start(threads, capacity, rearms), steps), threads, capacity, n)
  {
    if n == 0 {
      steps := [];
    } else {
      steps := PipeFills(threads, capacity, rearms, n - 1);
      steps := PileOne(Start(threads, capacity, rearms), steps, threads, capacity, n - 1);
    }
  }

  /** One read of drain takes 32 octets, or what there is. */
  lemma ReadTakes(s: Pool)
    requires s.main.Reading? && s.pipe > 0
    ensures Enabled(s, DrainRead)
    ensures Apply(s, DrainRead).pipe == s.pipe - (if s.pipe < 32 then s.pipe else 32)
  {
  }

  // ---------------------------------------------------------------- the re-arming write

  lemma {:induction false} NoRearm(s: Pool, steps: seq<Step>)
    requires IsRun(s, steps) && !s.rearms && !s.main.Rearming?
    ensures !After(s, steps).main.Rearming?
    decreases |steps|
  {
    if steps != [] {
      assert !Apply(s, steps[0]).rearms && !Apply(s, steps[0]).main.Rearming?;
      NoRearm(Apply(s, steps[0]), steps[1..]);
    }
  }

  lemma DrainBeforeJob(threads: nat, capacity: nat) returns (s: Pool, steps: seq<Step>)
    requires threads > 0
    ensures IsRun(Start(threads, capacity, true), steps) && After(Start(threads, capacity, true), steps) == s
    ensures |s.workers| == threads && s.workers[0].Ready? && s.pending == [0] && s.main == Calling([], false) && s.rearms
  {
    var start := Start(threads, capacity, true);
    s, steps := Extend(start, [], SubmitQueued(0));
    s, steps := Extend(start, steps, DrainStart);
    s, steps := Extend(start, steps, DrainReadEnds);
    s, steps := Extend(start, steps, DrainDetach);
  }

  /** A job that is finished between detach and the end of drain. */
  lemma RearmRun(threads: nat, capacity: nat) returns (s: Pool, steps: seq<Step>)
    requires threads > 0
    ensures IsRun(Start(threads, capacity, true), steps) && After(Start(threads, capacity, true), steps) == s && s.main.Rearming?
  {
    var start := Start(threads, capacity, true);
    s, steps := DrainBeforeJob(threads, capacity);
    s, steps := Extend(start, steps, WorkerTop(0));
    s, steps := Extend(start, steps, RunFn(0, 0));
    s, steps := Extend(start, steps, AppendDone(0));
    s, steps := Extend(start, steps, DrainCheck);
  }

  /** Whether drain can come to its re-arming write is what the parameter says. */
  lemma RearmsAsTold(threads: nat, capacity: nat, rearms: bool, steps: seq<Step>) returns (other: seq<Step>)
    requires threads > 0 && IsRun(Start(threads, capacity, rearms), steps)
    ensures !rearms ==> !After(Start(threads, capacity, rearms), steps).main.Rearming?
    ensures rearms ==> IsRun(Start(threads, capacity, rearms), other) && After(Start(threads, capacity, rearms), other).main.Rearming?
  {
    other := [];
    if rearms {
      var s;
      s, other := RearmRun(threads, capacity);
    } else {
      NoRearm(Start(threads, capacity, rearms), steps);
    }
  }
}
