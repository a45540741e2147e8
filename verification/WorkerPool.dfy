/** The crypto worker pool of iked/crypto_workers.c as a state machine: one atomic step
    per lock section, per pipe read or write and per callback.  Jobs are the DH requests
    of iked/dh.c, numbered in the order in which their structures are allocated. */
module WorkerPool {

  type Job = nat

  /** Where a worker thread stands in worker_main. */
  datatype Worker =
    | Ready                 // about to take the lock at the top of the loop
    | Waiting               // inside pthread_cond_wait
    | Holding(job: Job)     // dequeued, fn not called yet
    | Ran(job: Job)         // fn returned, not yet on the done queue
    | Notifying             // appended, notify_write still to come
    | Exited

  /** Where the main thread stands. */
  datatype Main =
    | Free                      // in the event loop
    | Reading                   // drain: reading the pipe
    | Detaching                 // drain: pipe read, done queue not yet detached
    | Calling(rest: seq<Job>, begun: bool)   // drain: running the detached callbacks
    | Rearming                  // drain: saw a non-empty done queue, about to write
    | Joining                   // fini: stop requested, joining the workers
    | Finishing(rest: seq<Job>, begun: bool) // fini: running the remaining callbacks
    | Down                      // fini returned; begun says that some callback has been entered

  /** A callback or function call together with the job's rc field. */
  datatype Call = Call(job: Job, rc: int)

  datatype Pool = Pool(
    capacity: nat,          // of the pipe
    rearms: bool,           // whether drain ends with the re-arming write; true in the program
    nworkers: nat,
    workers: seq<Worker>,
    pending: seq<Job>,      // qhead
    done: seq<Job>,         // dhead
    stopping: bool,
    pipe: nat,              // bytes in the notify pipe
    main: Main,
    rc: map<Job, int>,      // the rc field of every live DH job
    // History.
    next: nat,              // DH job structures allocated so far
    accepted: seq<Job>,     // submits that returned 0
    rejected: seq<Job>,     // submits that returned -1
    started: seq<Job>,      // taken off the pending queue, or run inline
    ran: seq<Call>,         // fn calls with the rc they stored
    finished: seq<Call>,    // done callbacks with the rc they reported
    freed: seq<Job>,        // DH job structures freed
    dropped: seq<Job>,      // jobs fini threw away
    overtaken: bool         // an inline submit ran while fini still had callbacks to run
  )

  function Start(threads: nat, capacity: nat, rearms: bool): Pool {
    Pool(capacity, rearms, threads, seq(threads, _ => Ready), [], [], false, 0, Free, map[],
         0, [], [], [], [], [], [], [], false)
  }

  datatype Step =
    | WorkerTop(w: nat)         // lock, test, dequeue or wait or exit
    | SpuriousWake(w: nat)
    | RunFn(w: nat, rc: int)    // fn stores rc
    | AppendDone(w: nat)
    | Notify(w: nat)
    | SubmitQueued(wake: nat)   // pthread_cond_signal wakes waiter number wake, if there is one
    | SubmitInline(rc: int)
    | SubmitFails
    | DrainStart
    | DrainRead
    | DrainReadEnds
    | DrainDetach
    | DrainCall
    | DrainCheck
    | DrainRearm
    | FiniStop
    | FiniJoined
    | FiniCall
    | FiniEnd

  /** Main may submit from the event loop, from inside a done callback, or after fini. */
  predicate MaySubmit(main: Main) {
    main.Free? || main.Down? || ((main.Calling? || main.Finishing?) && main.begun)
  }

  predicate SomeWaiting(ws: seq<Worker>) {
    exists i | 0 <= i < |ws| :: ws[i].Waiting?
  }

  predicate AllExited(ws: seq<Worker>) {
    forall i | 0 <= i < |ws| :: ws[i].Exited?
  }

  predicate Enabled(s: Pool, step: Step) {
    match step
    case WorkerTop(w) => w < |s.workers| && s.workers[w].Ready?
    case SpuriousWake(w) => w < |s.workers| && s.workers[w].Waiting?
    case RunFn(w, _) => w < |s.workers| && s.workers[w].Holding?
    case AppendDone(w) => w < |s.workers| && s.workers[w].Ran?
    case Notify(w) => w < |s.workers| && s.workers[w].Notifying?
    case SubmitQueued(wake) =>
      MaySubmit(s.main) && s.nworkers > 0 && (SomeWaiting(s.workers) ==> wake < |s.workers| && s.workers[wake].Waiting?)
    case SubmitInline(_) => MaySubmit(s.main) && s.nworkers == 0
    case SubmitFails => MaySubmit(s.main)
    case DrainStart => s.main.Free?
    case DrainRead => s.main.Reading? && s.pipe > 0
    case DrainReadEnds => s.main.Reading?
    case DrainDetach => s.main.Detaching?
    case DrainCall => s.main.Calling? && s.main.rest != []
    case DrainCheck => s.main.Calling? && s.main.rest == []
    case DrainRearm => s.main.Rearming?
    case FiniStop => s.main.Free?
    case FiniJoined => s.main.Joining? && AllExited(s.workers)
    case FiniCall => s.main.Finishing? && s.main.rest != []
    case FiniEnd => s.main.Finishing? && s.main.rest == []
  }

  // ---------------------------------------------------------------- effects

  /** A one-byte non-blocking write: dropped when the pipe is full. */
  function WriteByte(pipe: nat, capacity: nat): nat {
    if pipe < capacity then pipe + 1 else pipe
  }

  /** One read of up to 32 bytes. */
  function ReadBytes(pipe: nat): nat {
    if pipe <= 32 then 0 else pipe - 32
  }

  function WakeAll(ws: seq<Worker>): (r: seq<Worker>)
    ensures |r| == |ws|
  {
    seq(|ws|, i requires 0 <= i < |ws| => if ws[i].Waiting? then Ready else ws[i])
  }

  function RcOf(s: Pool, j: Job): int {
    if j in s.rc then s.rc[j] else 0
  }

  /** The done callback of oakley_dh_job_done: frees the structure, then reports its rc. */
  function Callback(s: Pool, j: Job): Pool {
    s.(finished := s.finished + [Call(j, RcOf(s, j))], freed := s.freed + [j])
  }

  function TopOfLoop(s: Pool, w: nat): Pool
    requires w < |s.workers|
  {
    if s.pending != [] then
      s.(pending := s.pending[1..], started := s.started + [s.pending[0]], workers := s.workers[w := Holding(s.pending[0])])
    else if s.stopping then s.(workers := s.workers[w := Exited])
    else s.(workers := s.workers[w := Waiting])
  }

  function Queue(s: Pool, wake: nat): Pool
    requires SomeWaiting(s.workers) ==> wake < |s.workers|
  {
    s.(pending := s.pending + [s.next], rc := s.rc[s.next := 0], next := s.next + 1, accepted := s.accepted + [s.next],
       workers := if SomeWaiting(s.workers) then s.workers[wake := Ready] else s.workers)
  }

  function Inline(s: Pool, rc: int): Pool {
    var j := s.next;
    Callback(s.(rc := s.rc[j := rc], next := j + 1, accepted := s.accepted + [j], started := s.started + [j],
                ran := s.ran + [Call(j, rc)],
                overtaken := s.overtaken || (s.main.Finishing? && s.main.rest != [])), j)
  }

  function Stop(s: Pool): Pool {
    if s.nworkers > 0 then s.(stopping := true, workers := WakeAll(s.workers), main := Joining)
    else DropPending(s)
  }

  /** After the join: the pending-drop loop, then on to the done queue. */
  function DropPending(s: Pool): Pool {
    s.(nworkers := 0, dropped := s.dropped + s.pending, pending := [], main := Finishing(s.done, false), done := [])
  }

  function Apply(s: Pool, step: Step): Pool
    requires Enabled(s, step)
  {
    match step
    case WorkerTop(w) => TopOfLoop(s, w)
    case SpuriousWake(w) => s.(workers := s.workers[w := Ready])
    case RunFn(w, rc) =>
      var j := s.workers[w].job;
      s.(workers := s.workers[w := Ran(j)], rc := s.rc[j := rc], ran := s.ran + [Call(j, rc)])
    case AppendDone(w) => s.(done := s.done + [s.workers[w].job], workers := s.workers[w := Notifying])
    case Notify(w) => s.(pipe := WriteByte(s.pipe, s.capacity), workers := s.workers[w := Ready])
    case SubmitQueued(wake) => Queue(s, wake)
    case SubmitInline(rc) => Inline(s, rc)
    case SubmitFails => s.(next := s.next + 1, rejected := s.rejected + [s.next], freed := s.freed + [s.next])
    case DrainStart => s.(main := Reading)
    case DrainRead => s.(pipe := ReadBytes(s.pipe))
    case DrainReadEnds => s.(main := Detaching)
    case DrainDetach => s.(main := Calling(s.done, false), done := [])
    case DrainCall => Callback(s, s.main.rest[0]).(main := Calling(s.main.rest[1..], true))
    case DrainCheck => s.(main := if s.rearms && s.done != [] then Rearming else Free)
    case DrainRearm => s.(main := Free, pipe := WriteByte(s.pipe, s.capacity))
    case FiniStop => Stop(s)
    case FiniJoined => DropPending(s)
    case FiniCall => Callback(s, s.main.rest[0]).(main := Finishing(s.main.rest[1..], true))
    case FiniEnd => s.(main := Down, stopping := false)
  }

  /** A run: steps taken one after the other, each enabled when taken. */
  ghost predicate IsRun(s: Pool, steps: seq<Step>)
    decreases |steps|
  {
    steps == [] || (Enabled(s, steps[0]) && IsRun(Apply(s, steps[0]), steps[1..]))
  }

  ghost function After(s: Pool, steps: seq<Step>): Pool
    requires IsRun(s, steps)
    decreases |steps|
  {
    if steps == [] then s else After(Apply(s, steps[0]), steps[1..])
  }
}
