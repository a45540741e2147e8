/** The epoll registration cache of iked/evloop_epoll.c: a set of descriptors believed to be
    registered, next to a kernel table that forgets descriptors when they are closed. */
module Epoll {
  import opened Wrappers

  const FD_SETSIZE: int := 1024

  datatype Mask = Mask(input: bool, output: bool)

  /** The module's static variables, the kernel's interest table of the epoll descriptor and
      the process's open descriptors. */
  datatype Loop = Loop(open: bool, live: set<int>, kernel: map<int, Mask>, fds: set<int>)

  /** What the cache relies on: everything registered is believed registered and is open. */
  predicate Coherent(s: Loop) {
    s.kernel.Keys <= s.live && s.kernel.Keys <= s.fds
  }

  function Limit(nfds: int): int {
    if nfds < FD_SETSIZE then nfds else FD_SETSIZE
  }

  /** The descriptors below the limit that the caller asks about. */
  predicate Needed(fd: int, r: set<int>, w: set<int>) {
    fd in r || fd in w
  }

  function Wanted(fd: int, r: set<int>, w: set<int>): Mask {
    Mask(fd in r, fd in w)
  }

  // ---------------------------------------------------------------- the registration loop

  /** epoll_ctl fails on a closed descriptor, MOD and DEL on one that is not registered, and
      ADD on one that is. */
  predicate Registered(s: Loop, fd: int) {
    fd in s.fds && fd in s.kernel
  }

  /** One round of the loop: MOD, after a failure ADD and on EEXIST again MOD; DEL for what is
      no longer wanted. */
  function Step(s: Loop, fd: int, r: set<int>, w: set<int>): Loop {
    var have, mask := fd in s.live, Wanted(fd, r, w);
    if Needed(fd, r, w) then
      if have && Registered(s, fd) then s.(kernel := s.kernel[fd := mask])
      else if fd in s.fds then s.(live := s.live + {fd}, kernel := s.kernel[fd := mask])
      else s.(live := s.live - {fd})
    else if have then s.(live := s.live - {fd}, kernel := if fd in s.fds then s.kernel - {fd} else s.kernel)
    else s
  }

  function SyncFrom(s: Loop, i: int, limit: int, r: set<int>, w: set<int>): Loop
    decreases limit - i
  {
    if i >= limit then s else SyncFrom(Step(s, i, r, w), i + 1, limit, r, w)
  }

  /** The kernel watches the descriptor exactly if it is open and wanted, and exactly for what
      is wanted. */
  predicate AsAsked(s: Loop, fd: int, r: set<int>, w: set<int>) {
    && (fd in s.kernel <==> (fd in r || fd in w) && fd in s.fds)
    && (fd in s.kernel ==> s.kernel[fd] == Mask(fd in r, fd in w))
  }

  /** A round does its work exactly if the kernel's entry, should there be one, is for an open
      descriptor and is wanted or known to the cache. */
  lemma StepIsExact(s: Loop, fd: int, r: set<int>, w: set<int>)
    ensures AsAsked(Step(s, fd, r, w), fd, r, w) <==>
            (fd in s.kernel ==> fd in s.fds && (fd in r || fd in w || fd in s.live))
  {
    var t := Step(s, fd, r, w);
    assert fd in t.kernel <==> if Needed(fd, r, w) then fd in s.fds || fd in s.kernel
                               else fd in s.kernel && !(fd in s.live && fd in s.fds);
  }

  lemma StepKeepsCoherence(s: Loop, fd: int, r: set<int>, w: set<int>)
    requires Coherent(s) && s.open
    ensures Coherent(Step(s, fd, r, w))
  {
    var t := Step(s, fd, r, w);
    forall k | k in t.kernel.Keys ensures k in t.live && k in t.fds {
      if k != fd {
        assert k in s.kernel.Keys;
      }
    }
  }

  /** A descriptor is registered with the same mask in both states, or in neither. */
  predicate SameEntry(s: Loop, t: Loop, fd: int) {
    && (fd in s.live <==> fd in t.live) && (fd in s.kernel <==> fd in t.kernel)
    && (fd in s.kernel && fd in t.kernel ==> s.kernel[fd] == t.kernel[fd])
  }

  lemma StepKeepsOthers(s: Loop, fd: int, r: set<int>, w: set<int>, k: int)
    requires k != fd
    ensures SameEntry(s, Step(s, fd, r, w), k)
  {
  }

  lemma {:induction false} SyncKeepsCoherence(s: Loop, i: int, limit: int, r: set<int>, w: set<int>)
    requires Coherent(s) && s.open
    ensures Coherent(SyncFrom(s, i, limit, r, w))
    ensures SyncFrom(s, i, limit, r, w).fds == s.fds && SyncFrom(s, i, limit, r, w).open
    decreases limit - i
  {
    if i < limit {
      StepKeepsCoherence(s, i, r, w);
      SyncKeepsCoherence(Step(s, i, r, w), i + 1, limit, r, w);
    }
  }

  /** The loop leaves the descriptors outside its range alone. */
  lemma {:induction false} SyncKeepsOthers(s: Loop, i: int, limit: int, r: set<int>, w: set<int>, fd: int)
    requires !(i <= fd < limit)
    ensures SameEntry(s, SyncFrom(s, i, limit, r, w), fd) && SyncFrom(s, i, limit, r, w).fds == s.fds
    decreases limit - i
  {
    if i < limit {
      StepKeepsOthers(s, i, r, w, fd);
      SyncKeepsOthers(Step(s, i, r, w), i + 1, limit, r, w, fd);
    }
  }

  /** From a coherent state the loop registers every descriptor in its range as asked. */
  lemma {:induction false} SyncRegisters(s: Loop, i: int, limit: int, r: set<int>, w: set<int>, fd: int)
    requires Coherent(s) && s.open && i <= fd < limit
    ensures AsAsked(SyncFrom(s, i, limit, r, w), fd, r, w)
    decreases limit - i
  {
    var t := Step(s, i, r, w);
    StepKeepsCoherence(s, i, r, w);
    if i < fd {
      SyncRegisters(t, i + 1, limit, r, w, fd);
    } else {
      StepIsExact(s, fd, r, w);
      SyncKeepsOthers(t, i + 1, limit, r, w, fd);
    }
  }

  // ---------------------------------------------------------------- histories

  datatype Op =
    | InitOp(creates: bool)
    | FiniOp
    | OpenOp(fd: int)
    | CloseOp(fd: int)
    | WaitOp(nfds: int, r: set<int>, w: set<int>, creates: bool)

  /** An epoll descriptor just created has an empty table, and the cache starts empty. */
  function Created(s: Loop): Loop {
    if s.open then s else s.(open := true, live := {}, kernel := map[])
  }

  /** How one operation changes the state; a wait without an epoll descriptor falls back to
      select and changes nothing. */
  function After(s: Loop, op: Op): Loop {
    match op
    case InitOp(creates) => if creates then Created(s) else s
    case FiniOp => Loop(false, {}, map[], s.fds)
    case OpenOp(fd) => s.(fds := s.fds + {fd})
    case CloseOp(fd) => s.(fds := s.fds - {fd}, kernel := s.kernel - {fd})
    case WaitOp(nfds, r, w, creates) =>
      if s.open || creates then SyncFrom(Created(s), 0, Limit(nfds), r, w) else s
  }

  function AfterAll(s: Loop, ops: seq<Op>): Loop
    decreases |ops|
  {
    if ops == [] then s else AfterAll(After(s, ops[0]), ops[1..])
  }

  function Initial(fds: set<int>): Loop {
    Loop(false, {}, map[], fds)
  }

  lemma AfterKeepsCoherence(s: Loop, op: Op)
    requires Coherent(s)
    ensures Coherent(After(s, op))
  {
    if op.WaitOp? && (s.open || op.creates) {
      SyncKeepsCoherence(Created(s), 0, Limit(op.nfds), op.r, op.w);
    }
  }

  /** Over every history of waits, closes, reuses, starts and stops, everything the kernel
      has registered is known to the cache and open. */
  lemma {:induction false} AlwaysCoherent(s: Loop, ops: seq<Op>)
    requires Coherent(s)
    ensures Coherent(AfterAll(s, ops))
    decreases |ops|
  {
    if ops != [] {
      AfterKeepsCoherence(s, ops[0]);
      AlwaysCoherent(After(s, ops[0]), ops[1..]);
    }
  }

  /** After any history from the start of the process, a wait leaves every descriptor below
      its limit watched exactly as asked, and every other one as it was. */
  lemma WaitRegisters(fds: set<int>, ops: seq<Op>, nfds: int, r: set<int>, w: set<int>, creates: bool, fd: int)
    requires var s := AfterAll(Initial(fds), ops); s.open || creates
    ensures var s := AfterAll(Initial(fds), ops);
            var t := After(s, WaitOp(nfds, r, w, creates));
      && t.fds == s.fds
      && (0 <= fd < nfds && fd < 1024 ==>
            && (fd in t.kernel <==> fd in t.fds && (fd in r || fd in w))
            && (fd in t.kernel ==> t.kernel[fd].input == (fd in r) && t.kernel[fd].output == (fd in w)))
      && (!(0 <= fd < nfds && fd < 1024) ==>
            && (fd in t.kernel <==> s.open && fd in s.kernel)
            && (fd in t.kernel && fd in s.kernel ==> t.kernel[fd] == s.kernel[fd]))
  {
    AlwaysCoherent(Initial(fds), ops);
    var s := Created(AfterAll(Initial(fds), ops));
    SyncKeepsCoherence(s, 0, Limit(nfds), r, w);
    if 0 <= fd < Limit(nfds) {
      SyncRegisters(s, 0, Limit(nfds), r, w, fd);
    } else {
      SyncKeepsOthers(s, 0, Limit(nfds), r, w, fd);
    }
  }

  // ---------------------------------------------------------------- what a wait reports

  datatype Event = Event(fd: int, input: bool, output: bool, problem: bool)   // problem: error or hangup

  /** Readable, or in trouble, and asked for. */
  ghost predicate ReadReady(fd: int, evs: seq<Event>, r: set<int>) {
    fd in r && 0 <= fd < 1024 && exists e | e in evs :: e.fd == fd && (e.input || e.problem)
  }

  ghost predicate WriteReady(fd: int, evs: seq<Event>, w: set<int>) {
    fd in w && 0 <= fd < 1024 && exists e | e in evs :: e.fd == fd && (e.output || e.problem)
  }

  function Asked(fds: Option<set<int>>): set<int> {
    if fds.Some? then fds.value else {}
  }

  /** The loop over the reported events. */
  method Report(evs: seq<Event>, rfds: Option<set<int>>, wfds: Option<set<int>>)
    returns (rout: Option<set<int>>, wout: Option<set<int>>)
    ensures rout.Some? == rfds.Some? && wout.Some? == wfds.Some?
    ensures rfds.Some? ==> forall fd :: fd in rout.value <==> ReadReady(fd, evs, rfds.value)
    ensures wfds.Some? ==> forall fd :: fd in wout.value <==> WriteReady(fd, evs, wfds.value)
  {
    var wantR, wantW := Asked(rfds), Asked(wfds);
    var r, w := {}, {};
    for i := 0 to |evs|
      invariant forall fd :: fd in r <==> ReadReady(fd, evs[..i], wantR)
      invariant forall fd :: fd in w <==> WriteReady(fd, evs[..i], wantW)
    {
      var e := evs[i];
      assert evs[..i + 1] == evs[..i] + [e];
      if 0 <= e.fd < FD_SETSIZE {
        if e.input && e.fd in wantR {
          r := r + {e.fd};
        } else if e.problem && e.fd in wantR {
          r := r + {e.fd};
        }
        if e.output && e.fd in wantW {
          w := w + {e.fd};
        } else if e.problem && e.fd in wantW {
          w := w + {e.fd};
        }
      }
    }
    assert evs[..|evs|] == evs;
    rout := if rfds.Some? then Some(r) else None;
    wout := if wfds.Some? then Some(w) else None;
  }

  class EventLoop {
    var epfd: bool
    var live: set<int>
    var kernel: map<int, Mask>
    var fds: set<int>

    constructor (fds: set<int>)
      ensures State() == Initial(fds)
    {
      epfd, live, kernel, this.fds := false, {}, map[], fds;
    }

    ghost function State(): Loop
      reads this
    {
      Loop(epfd, live, kernel, fds)
    }

    // What the kernel does.

    method CtlAdd(fd: int, mask: Mask) returns (ok: bool, there: bool)
      modifies this`kernel
      ensures there <==> fd in fds && fd in old(kernel)
      ensures ok <==> fd in fds && fd !in old(kernel)
      ensures kernel == if ok then old(kernel)[fd := mask] else old(kernel)
    {
      there := fd in fds && fd in kernel;
      ok := fd in fds && fd !in kernel;
      if ok {
        kernel := kernel[fd := mask];
      }
    }

    method CtlMod(fd: int, mask: Mask) returns (ok: bool)
      modifies this`kernel
      ensures ok <==> fd in fds && fd in old(kernel)
      ensures kernel == if ok then old(kernel)[fd := mask] else old(kernel)
    {
      ok := fd in fds && fd in kernel;
      if ok {
        kernel := kernel[fd := mask];
      }
    }

    method CtlDel(fd: int)
      modifies this`kernel
      ensures kernel == if fd in fds then old(kernel) - {fd} else old(kernel)
    {
      if fd in fds {
        kernel := kernel - {fd};
      }
    }

    method Close(fd: int)
      modifies this`kernel, this`fds
      ensures State() == After(old(State()), CloseOp(fd))
    {
      fds, kernel := fds - {fd}, kernel - {fd};
    }

    method Open(fd: int)
      requires fd !in fds
      modifies this`fds
      ensures State() == After(old(State()), OpenOp(fd))
    {
      fds := fds + {fd};
    }

    // What the daemon does.

    /** evloop_init; creates is false when the kernel gives no epoll descriptor. */
    method Init(creates: bool) returns (ok: bool)
      modifies this`epfd, this`live, this`kernel
      ensures ok <==> old(epfd) || creates
      ensures State() == After(old(State()), InitOp(creates))
    {
      if epfd {
        return true;
      }
      if !creates {
        return false;
      }
      epfd, live, kernel := true, {}, map[];
      ok := true;
    }

    /** evloop_fini. */
    method Fini()
      modifies this`epfd, this`live, this`kernel
      ensures State() == After(old(State()), FiniOp)
    {
      epfd, kernel, live := false, map[], {};
    }

    /** ctl_add: add, or modify when the entry is already there. */
    method AddOrMod(fd: int, mask: Mask) returns (ok: bool)
      modifies this`kernel
      ensures ok <==> fd in fds
      ensures kernel == if ok then old(kernel)[fd := mask] else old(kernel)
    {
      var there;
      ok, there := CtlAdd(fd, mask);
      if !ok && there {
        ok := CtlMod(fd, mask);
      }
    }

    /** The registration of one descriptor. */
    method SyncOne(fd: int, r: set<int>, w: set<int>)
      modifies this`live, this`kernel
      ensures State() == Step(old(State()), fd, r, w)
    {
      var have := fd in live;
      var mask := Wanted(fd, r, w);
      if Needed(fd, r, w) {
        if have {
          var ok := CtlMod(fd, mask);
          if !ok {
            live := live - {fd};
            ok := AddOrMod(fd, mask);
            if ok {
              live := live + {fd};
              assert live == old(live) + {fd};
            }
          }
        } else {
          var ok := AddOrMod(fd, mask);
          if ok {
            live := live + {fd};
          } else {
            assert live == live - {fd};
          }
        }
      } else if have {
        CtlDel(fd);
        live := live - {fd};
      }
    }

    /** The loop over the descriptors below the limit. */
    method Sync(nfds: int, r: set<int>, w: set<int>)
      modifies this`live, this`kernel
      ensures State() == SyncFrom(old(State()), 0, Limit(nfds), r, w)
    {
      var max := Limit(nfds);
      var i := 0;
      while i < max
        invariant SyncFrom(State(), i, max, r, w) == SyncFrom(old(State()), 0, max, r, w)
      {
        SyncOne(i, r, w);
        i := i + 1;
      }
    }

    /** evloop_wait_rw; reported is what epoll_wait gives, None for an error.  The result is
        None when select is used instead. */
    method Wait(nfds: int, rfds: Option<set<int>>, wfds: Option<set<int>>, creates: bool, reported: Option<seq<Event>>)
      returns (n: Option<int>, rout: Option<set<int>>, wout: Option<set<int>>)
      modifies this`epfd, this`live, this`kernel
      ensures State() == After(old(State()), WaitOp(nfds, Asked(rfds), Asked(wfds), creates))
      ensures n == if !old(epfd) && !creates then None else if reported.None? then Some(-1) else Some(|reported.value|)
      ensures rout.Some? == rfds.Some? && wout.Some? == wfds.Some?
      ensures n.Some? && rfds.Some? ==> forall fd :: fd in rout.value <==> reported.Some? && ReadReady(fd, reported.value, rfds.value)
      ensures n.Some? && wfds.Some? ==> forall fd :: fd in wout.value <==> reported.Some? && WriteReady(fd, reported.value, wfds.value)
    {
      var ok := Init(creates);
      if !ok {
        return None, rfds, wfds;
      }
      Sync(nfds, Asked(rfds), Asked(wfds));
      if reported.None? {
        return Some(-1), if rfds.Some? then Some({}) else None, if wfds.Some? then Some({}) else None;
      }
      rout, wout := Report(reported.value, rfds, wfds);
      n := Some(|reported.value|);
    }
  }
}
