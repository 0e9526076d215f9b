/** The loop without a pool: what holds between any two steps of any run. */
module Inline {
  import opened Bytes
  import opened Connection
  import Message
  import KeepAlive
  import opened LoopState

  /** Every open descriptor has exactly one slot, is counted once, and its session is faithful. */
  predicate Accounted(io: IO, cfg: Config) {
    && io.slots.Keys == io.open && io.active == |io.open| && io.accepted == io.closed + |io.open| && !io.misused
    && io.tasks == [] && io.completed == []
    && (cfg.maxConnections != 0 ==> |io.open| <= cfg.maxConnections)
    && forall fd :: fd in io.slots ==> Faithful(io.slots[fd], cfg.maxRequestSize)
  }

  // ---- assumptions about the kernel -------------------------------------------------------------------

  /** `accept4` never returns a descriptor that is still open. */
  predicate AcceptsFresh(io: IO, accepts: seq<Accept>, cfg: Config)
    decreases |accepts|
  {
    if accepts == [] then true
    else match accepts[0]
      case Accepted(fd, registered) =>
        fd !in io.open && AcceptsFresh(AfterAccept(io, fd, registered, cfg), accepts[1..], cfg)
      case Retry => AcceptsFresh(io, accepts[1..], cfg)
      case NoMore => true
  }

  /** Events name descriptors of `open`, each at most once. */
  predicate Reported(events: seq<Event>, open: set<nat>) {
    && (forall i :: 0 <= i < |events| && events[i].Client? ==> events[i].fd in open)
    && (forall i, j :: 0 <= i < j < |events| && events[i].Client? && events[j].Client? ==> events[i].fd != events[j].fd)
  }

  predicate KernelOk(io: IO, events: seq<Event>, cfg: Config)
    requires Sane(io, cfg)
    decreases |events|
  {
    events != [] ==>
      && (events[0].Listener? ==> AcceptsFresh(io, events[0].accepts, cfg))
      && KernelOk(AfterEvent(io, events[0], cfg), events[1..], cfg)
  }

  // ---- one step -----------------------------------------------------------------------------------------

  /** The two states differ at most in what concerns `fd`. */
  predicate OnlyAt(io: IO, after: IO, fd: nat) {
    forall g :: g != fd && g in io.open ==> g in after.open
  }

  lemma RejectAccounted(io: IO, fd: nat, code: nat, cfg: Config)
    requires Accounted(io, cfg) && fd in io.open
    ensures Accounted(Rejected(io, fd, code), cfg) && Accounted(Gone(io, fd), cfg) && Accounted(HungUp(io, fd), cfg)
    ensures OnlyAt(io, Rejected(io, fd, code), fd) && OnlyAt(io, Gone(io, fd), fd) && OnlyAt(io, HungUp(io, fd), fd)
  {
    hide Faithful;
  }

  lemma SlotAccounted(io: IO, fd: nat, s: Session, handled: nat, cfg: Config)
    requires Accounted(io, cfg) && fd in io.open && Faithful(s, cfg.maxRequestSize)
    ensures Accounted(io.(slots := io.slots[fd := s], handled := handled), cfg)
  {
    hide Faithful;
  }

  lemma SlotIsFaithful(io: IO, fd: nat, cfg: Config)
    requires Accounted(io, cfg) && fd in io.open
    ensures fd in io.slots && Faithful(io.slots[fd], cfg.maxRequestSize)
    ensures CacheOk(io.slots[fd].conn, cfg.maxRequestSize)
  {
    hide AtRest, CacheOk;
    assert Faithful(io.slots[fd], cfg.maxRequestSize);
  }

  lemma ReadableAccounted(io: IO, fd: nat, read: Read, cfg: Config)
    requires Accounted(io, cfg) && fd in io.open && !cfg.pooled
    requires Sane(io, cfg)
    ensures Accounted(AfterReadable(io, fd, read, cfg), cfg)
    ensures OnlyAt(io, AfterReadable(io, fd, read, cfg), fd)
  {
    hide Accounted, Faithful, AtRest, CacheOk, Receive, ServeLoop, Sane, Rejected, AfterServe, AfterTurn, OnlyAt;
    SlotIsFaithful(io, fd, cfg);
    var s := io.slots[fd];
    match Receive(s.conn.buffer, read.recvs, read.bufsz, cfg.maxRequestSize)
    case TooLarge(_) => RejectAccounted(io, fd, 413, cfg);
    case Failed(_) => RejectAccounted(io, fd, 400, cfg);
    case Got(buffer, closed) => {
      var got := buffer[|s.conn.buffer|..];
      assert s.conn.buffer + got == buffer;
      CacheSurvives(s.conn, buffer, cfg.maxRequestSize);
      ReadKeepsFaithful(s, got, closed, read.deadline, read.keep, cfg.maxRequestSize);
      var h := ServeLoop(s.conn.(buffer := buffer), closed, read.deadline, read.keep, 0, cfg.maxRequestSize);
      ServedAccounted(io, fd, s, got, h, cfg);
    }
  }

  lemma SlotIsOpen(io: IO, fd: nat, cfg: Config)
    requires Accounted(io, cfg) && fd in io.slots
    ensures fd in io.open && Faithful(io.slots[fd], cfg.maxRequestSize)
    ensures CacheOk(io.slots[fd].conn, cfg.maxRequestSize) && !io.slots[fd].conn.dispatching
  {
    hide AtRest, CacheOk;
    assert fd in io.slots.Keys;
    SlotIsFaithful(io, fd, cfg);
    NeverAside(io.slots[fd], cfg.maxRequestSize);
  }

  lemma NeverAside(s: Session, max: nat)
    requires Faithful(s, max)
    ensures !s.conn.dispatching
  {
    hide CacheOk, CutAll, Leftover, Message.InspectionOf;
  }

  /** A read that finds the peer closed keeps the connection exactly when every byte has been served and kept alive. */
  lemma ClosedPeerStays(io: IO, fd: nat, read: Read, buffer: bytes, cfg: Config)
    requires Accounted(io, cfg) && fd in io.slots && !cfg.pooled && Sane(io, cfg)
    requires Receive(io.slots[fd].conn.buffer, read.recvs, read.bufsz, cfg.maxRequestSize) == Got(buffer, true)
    ensures fd in AfterReadable(io, fd, read, cfg).open
            <==> Leftover(buffer) == [] && AllKept(|CutAll(buffer)|, read.keep, 0)
  {
    hide Receive, ServeLoop, CacheOk, Leftover, CutAll, AllKept, Accounted, Sane, Message.InspectionOf;
    var c := io.slots[fd].conn;
    SlotIsOpen(io, fd, cfg);
    CacheSurvives(c, buffer, cfg.maxRequestSize);
    Connection.ClosedPeerStays(c.(buffer := buffer), read.deadline, read.keep, cfg.maxRequestSize);
  }

  lemma CountAccounted(io: IO, handled: nat, cfg: Config)
    requires Accounted(io, cfg)
    ensures Accounted(io.(handled := handled), cfg)
  {
    hide Faithful;
  }

  lemma ServedAccounted(io: IO, fd: nat, s: Session, got: bytes, h: Handled, cfg: Config)
    requires Accounted(io, cfg) && fd in io.open && s == io.slots[fd]
    requires h.end.StillOpen? ==> Faithful(Continued(s, got, h), cfg.maxRequestSize)
    ensures var after := AfterServe(io, fd, s.(received := s.received + got), h);
            Accounted(after, cfg) && OnlyAt(io, after, fd)
  {
    hide Faithful, Accounted;
    var counted := io.(handled := io.handled + |h.served|);
    CountAccounted(io, counted.handled, cfg);
    if h.end.StillOpen? {
      SlotAccounted(io, fd, Continued(s, got, h), counted.handled, cfg);
    } else {
      RejectAccounted(counted, fd, if h.end.Refused? then h.end.code else 0, cfg);
    }
  }

  lemma AcceptAccounted(io: IO, fd: nat, registered: bool, cfg: Config)
    requires Accounted(io, cfg) && fd !in io.open
    ensures Accounted(AfterAccept(io, fd, registered, cfg), cfg) && io.open <= AfterAccept(io, fd, registered, cfg).open
  {
    OpeningIsFaithful(cfg.maxRequestSize);
    hide Faithful;
    assert io.open + {fd} - {fd} == io.open;
  }

  lemma {:induction false} AcceptsAccounted(io: IO, accepts: seq<Accept>, cfg: Config)
    requires Accounted(io, cfg) && AcceptsFresh(io, accepts, cfg)
    ensures Accounted(AfterAccepts(io, accepts, cfg), cfg) && io.open <= AfterAccepts(io, accepts, cfg).open
    decreases |accepts|
  {
    hide Accounted;
    if accepts != [] {
      match accepts[0]
      case Accepted(fd, registered) => {
        AcceptAccounted(io, fd, registered, cfg);
        AcceptsAccounted(AfterAccept(io, fd, registered, cfg), accepts[1..], cfg);
      }
      case Retry => AcceptsAccounted(io, accepts[1..], cfg);
      case NoMore =>
    }
  }

  lemma ClientAccounted(io: IO, fd: nat, hup: bool, readable: bool, read: Read, cfg: Config)
    requires Accounted(io, cfg) && fd in io.open && !cfg.pooled
    requires Sane(io, cfg)
    ensures Accounted(AfterClient(io, fd, hup, readable, read, cfg), cfg)
    ensures OnlyAt(io, AfterClient(io, fd, hup, readable, read, cfg), fd)
  {
    if readable { ReadableAccounted(io, fd, read, cfg); }
    hide AfterReadable, Faithful;
    var after := if readable then AfterReadable(io, fd, read, cfg) else io;
    if fd in after.slots { RejectAccounted(after, fd, 0, cfg); }
  }

  lemma EventAccounted(io: IO, event: Event, cfg: Config)
    requires Accounted(io, cfg) && !cfg.pooled && Sane(io, cfg)
    requires event.Client? ==> event.fd in io.open
    requires event.Listener? ==> AcceptsFresh(io, event.accepts, cfg)
    ensures Accounted(AfterEvent(io, event, cfg), cfg)
    ensures forall g :: g in io.open && (event.Client? ==> g != event.fd) ==> g in AfterEvent(io, event, cfg).open
  {
    match event
    case Notify(_) => assert io.(completed := []) == io;
    case Listener(accepts) => AcceptsAccounted(io, accepts, cfg);
    case Client(fd, hup, readable, read) => ClientAccounted(io, fd, hup, readable, read, cfg);
    hide Accounted, AfterClient, AfterAccepts, Sane;
  }

  lemma ReportedRest(events: seq<Event>, open: set<nat>, after: set<nat>)
    requires events != [] && Reported(events, open)
    requires forall g :: g in open && (events[0].Client? ==> g != events[0].fd) ==> g in after
    ensures Reported(events[1..], after) && (events[0].Client? ==> events[0].fd in open)
  {
    var rest := events[1..];
    forall i | 0 <= i < |rest| && rest[i].Client? ensures rest[i].fd in after {
      assert events[i + 1] == rest[i];
    }
  }

  lemma KernelStep(io: IO, events: seq<Event>, cfg: Config)
    requires events != [] && Sane(io, cfg) && KernelOk(io, events, cfg)
    ensures events[0].Listener? ==> AcceptsFresh(io, events[0].accepts, cfg)
    ensures KernelOk(AfterEvent(io, events[0], cfg), events[1..], cfg)
  {
    hide AfterEvent, Sane, AcceptsFresh;
  }

  lemma EventsStep(io: IO, events: seq<Event>, cfg: Config)
    requires events != [] && Sane(io, cfg)
    ensures AfterEvents(io, events, cfg) == AfterEvents(AfterEvent(io, events[0], cfg), events[1..], cfg)
  {
    hide AfterEvent, Sane;
  }

  lemma {:induction false} EventsAccounted(io: IO, events: seq<Event>, cfg: Config)
    requires Accounted(io, cfg) && !cfg.pooled && Sane(io, cfg)
    requires Reported(events, io.open) && KernelOk(io, events, cfg)
    ensures Accounted(AfterEvents(io, events, cfg), cfg)
    decreases |events|
  {
    if events == [] { return; }
    hide *;
    assert events[0].Client? ==> events[0].fd in io.open by { ReportedRest(events, io.open, io.open); }
    KernelStep(io, events, cfg);
    EventAccounted(io, events[0], cfg);
    ReportedRest(events, io.open, AfterEvent(io, events[0], cfg).open);
    EventsAccounted(AfterEvent(io, events[0], cfg), events[1..], cfg);
    EventsStep(io, events, cfg);
  }

  lemma SweptAccounted(io: IO, fds: set<nat>, cfg: Config)
    requires Accounted(io, cfg) && fds <= io.open
    ensures Accounted(Swept(io, fds), cfg)
  {
    hide Faithful;
    assert fds * io.open == fds;
  }

  // ---- whole runs -------------------------------------------------------------------------------------------

  /** A run of the loop from its start, one batch after the other, on a kernel that keeps its promises. */
  predicate Runs(io: IO, batches: seq<Batch>, end: IO, cfg: Config)
    requires Sane(io, cfg)
    decreases |batches|
  {
    if batches == [] then io == end
    else
      && Reported(batches[0].events, io.open) && KernelOk(io, batches[0].events, cfg)
      && Runs(AfterDispatch(io, batches[0], cfg), batches[1..], end, cfg)
  }

  lemma {:induction false} RunsAccounted(io: IO, batches: seq<Batch>, end: IO, cfg: Config)
    requires Accounted(io, cfg) && !cfg.pooled && Sane(io, cfg) && Runs(io, batches, end, cfg)
    ensures Accounted(end, cfg)
    decreases |batches|
  {
    if batches != [] {
      EventsAccounted(io, batches[0].events, cfg);
      var after := AfterEvents(io, batches[0].events, cfg);
      assert Stale(after, batches[0].expired) <= after.open;
      SweptAccounted(after, Stale(after, batches[0].expired), cfg);
      hide Accounted, AfterEvents, Sane, KernelOk;
      RunsAccounted(AfterDispatch(io, batches[0], cfg), batches[1..], end, cfg);
    }
  }

  lemma StartIsAccounted(cfg: Config)
    ensures Accounted(START, cfg) && Sane(START, cfg)
  {
  }

  /** What a faithful session says of its connection. */
  lemma OpenIsServed(io: IO, fd: nat, cfg: Config)
    requires Accounted(io, cfg) && fd in io.slots
    ensures var s := io.slots[fd];
            && s.served == CutAll(s.received) && Concat(s.served) + s.conn.buffer == s.received
            && s.conn == AtRest(s.conn.buffer)
  {
    SlotIsFaithful(io, fd, cfg);
    hide CacheOk, CutAll, Leftover;
    CutConserves(io.slots[fd].received);
  }

  lemma ShutdownBalances(io: IO, cfg: Config)
    requires Accounted(io, cfg)
    ensures var end := AfterShutdown(io);
            end.active == 0 && end.open == {} && end.slots == map[] && !end.misused && end.closed == end.accepted
  {
    hide Faithful;
    assert io.(completed := []) == io;
    assert |io.slots| == |io.slots.Keys|;
  }

  /** In every run the books balance, the limit holds, every connection is served the greedy cut of its
    * stream, and a shutdown closes each descriptor that is left, exactly once. */
  lemma InlineRuns(batches: seq<Batch>, io: IO, cfg: Config)
    requires !cfg.pooled && Sane(START, cfg) && Runs(START, batches, io, cfg)
    ensures io.slots.Keys == io.open && io.active == |io.open| && !io.misused
    ensures cfg.maxConnections != 0 ==> io.active <= cfg.maxConnections
    ensures forall fd :: fd in io.open ==>
              && io.slots[fd].served == CutAll(io.slots[fd].received)
              && Concat(io.slots[fd].served) + io.slots[fd].conn.buffer == io.slots[fd].received
              && io.slots[fd].conn == AtRest(io.slots[fd].conn.buffer)
    ensures var end := AfterShutdown(io);
            end.active == 0 && end.open == {} && end.slots == map[] && !end.misused && end.closed == end.accepted
  {
    StartIsAccounted(cfg);
    RunsAccounted(START, batches, io, cfg);
    ShutdownBalances(io, cfg);
    forall fd | fd in io.open
      ensures fd in io.slots && io.slots[fd].served == CutAll(io.slots[fd].received)
      ensures Concat(io.slots[fd].served) + io.slots[fd].conn.buffer == io.slots[fd].received
      ensures io.slots[fd].conn == AtRest(io.slots[fd].conn.buffer)
    {
      OpenIsServed(io, fd, cfg);
    }
    hide Faithful, AfterShutdown, Runs, CutAll, AtRest;
  }

  /** In every run a new connection is let in exactly when it could be registered and fewer than the limit are open. */
  lemma LetIn(batches: seq<Batch>, io: IO, cfg: Config, fd: nat, registered: bool)
    requires !cfg.pooled && Sane(START, cfg) && Runs(START, batches, io, cfg) && fd !in io.open
    ensures fd in AfterAccept(io, fd, registered, cfg).open
            <==> registered && (cfg.maxConnections == 0 || |io.open| < cfg.maxConnections)
  {
    StartIsAccounted(cfg);
    RunsAccounted(START, batches, io, cfg);
    hide Runs, Faithful;
  }

  // ---- connections that have ended ------------------------------------------------------------------------

  /** A handler answered with a close; a read was refused, for its size or an error of the socket; or anything else. */
  datatype Cause = ByHandler | WhileReading | Otherwise

  /** A connection as it ended, with every byte it took. */
  datatype Ended = Ended(session: Session, cause: Cause)

  /** The session after its last read. */
  function Final(s: Session, read: Read, cfg: Config): Ended
    requires CacheOk(s.conn, cfg.maxRequestSize)
  {
    hide CacheOk, ServeLoop, Receive, TakenBy;
    var r := Receive(s.conn.buffer, read.recvs, read.bufsz, cfg.maxRequestSize);
    var got := TakenBy(|s.conn.buffer|, read.recvs, read.bufsz, cfg.maxRequestSize);
    match r
    case Got(buffer, closed) =>
      CacheSurvives(s.conn, buffer, cfg.maxRequestSize);
      var h := ServeLoop(s.conn.(buffer := buffer), closed, read.deadline, read.keep, 0, cfg.maxRequestSize);
      Ended(Continued(s, got, h), if h.end.Finished? then ByHandler else Otherwise)
    case _ => Ended(s.(conn := s.conn.(buffer := r.buffer), received := s.received + got), WhileReading)
  }

  /** The connection an event ends, if it ends one. */
  function EndedBy(io: IO, event: Event, cfg: Config): set<Ended>
    requires Sane(io, cfg)
  {
    hide CacheOk, AfterEvent;
    match event
    case Client(fd, _, readable, read) =>
      if fd in io.slots && fd !in AfterEvent(io, event, cfg).slots then
        {if readable then Final(io.slots[fd], read, cfg) else Ended(io.slots[fd], Otherwise)}
      else {}
    case _ => {}
  }

  function EndedIn(io: IO, events: seq<Event>, cfg: Config): set<Ended>
    requires Sane(io, cfg)
    decreases |events|
  {
    hide CacheOk, AfterEvent;
    if events == [] then {} else EndedBy(io, events[0], cfg) + EndedIn(AfterEvent(io, events[0], cfg), events[1..], cfg)
  }

  /** All connections that ended in a run, those that timed out included. */
  ghost function EndedOver(io: IO, batches: seq<Batch>, cfg: Config): set<Ended>
    requires Sane(io, cfg)
    decreases |batches|
  {
    if batches == [] then {}
    else
      var after := AfterEvents(io, batches[0].events, cfg);
      EndedIn(io, batches[0].events, cfg)
      + (set fd | fd in Stale(after, batches[0].expired) :: Ended(after.slots[fd], Otherwise))
      + EndedOver(AfterDispatch(io, batches[0], cfg), batches[1..], cfg)
  }

  /** Served were the first requests of the stream, in order: all of them unless a handler ended it, and after a
    * refused read all of them exactly when the bytes left over hold no complete request. */
  predicate ServedRight(e: Ended) {
    var all := CutAll(e.session.received);
    && e.session.served <= all
    && (e.cause.Otherwise? ==> e.session.served == all)
    && (e.cause.WhileReading? ==>
          (e.session.served == all <==> Message.InspectionOf(e.session.conn.buffer).framing != Message.Complete))
  }

  /** A refused read that took `got` has dropped requests exactly when the buffer now begins with a complete one. */
  lemma RefusedReadDrops(s: Session, got: bytes, max: nat)
    requires Faithful(s, max)
    ensures s.served <= CutAll(s.received + got)
    ensures s.served == CutAll(s.received + got)
            <==> Message.InspectionOf(s.conn.buffer + got).framing != Message.Complete
  {
    hide Message.InspectionOf, CutAll, Leftover, CacheOk;
    var buffer := s.conn.buffer + got;
    assert s.conn.buffer == Leftover(s.received);
    CutExtends(s.received, got);
    if Message.InspectionOf(buffer).framing == Message.Complete {
      CutStep(buffer, Message.InspectionOf(buffer).expected);
    } else {
      CutNothing(buffer);
    }
  }

  lemma FinalServedRight(s: Session, read: Read, cfg: Config)
    requires Faithful(s, cfg.maxRequestSize)
    ensures ServedRight(Final(s, read, cfg)) && ServedRight(Ended(s, Otherwise))
  {
    hide AtRest, ServeLoop, Receive, CutAll, Leftover, CacheOk, TakenBy, Message.InspectionOf;
    var r := Receive(s.conn.buffer, read.recvs, read.bufsz, cfg.maxRequestSize);
    var got := r.buffer[|s.conn.buffer|..];
    TakenIs(s.conn.buffer, read.recvs, read.bufsz, cfg.maxRequestSize);
    if r.Got? {
      CacheSurvives(s.conn, r.buffer, cfg.maxRequestSize);
      ReadKeepsFaithful(s, got, r.closed, read.deadline, read.keep, cfg.maxRequestSize);
    } else {
      RefusedReadDrops(s, got, cfg.maxRequestSize);
    }
  }

  lemma EventEndsRight(io: IO, event: Event, cfg: Config, e: Ended)
    requires Accounted(io, cfg) && Sane(io, cfg) && e in EndedBy(io, event, cfg)
    ensures ServedRight(e)
  {
    hide Accounted, Sane, CacheOk, AfterEvent, ServedRight, Final;
    assert event.Client? && event.fd in io.slots;
    SlotKeysAreOpen(io, cfg);
    SlotIsFaithful(io, event.fd, cfg);
    FinalServedRight(io.slots[event.fd], event.read, cfg);
  }

  lemma SlotKeysAreOpen(io: IO, cfg: Config)
    requires Accounted(io, cfg)
    ensures io.slots.Keys == io.open
  {
    hide Faithful;
  }

  lemma EndedStep(io: IO, events: seq<Event>, cfg: Config)
    requires Sane(io, cfg)
    ensures EndedIn(io, events, cfg) ==
            if events == [] then {}
            else EndedBy(io, events[0], cfg) + EndedIn(AfterEvent(io, events[0], cfg), events[1..], cfg)
  {
    hide AfterEvent, Sane, EndedBy;
  }

  lemma {:induction false} EventsEndRight(io: IO, events: seq<Event>, cfg: Config, e: Ended)
    requires Accounted(io, cfg) && !cfg.pooled && Sane(io, cfg)
    requires Reported(events, io.open) && KernelOk(io, events, cfg) && e in EndedIn(io, events, cfg)
    ensures ServedRight(e)
    decreases |events|
  {
    hide *;
    EndedStep(io, events, cfg);
    assert events != [];
    if e in EndedBy(io, events[0], cfg) {
      EventEndsRight(io, events[0], cfg, e);
    } else {
      assert events[0].Client? ==> events[0].fd in io.open by { ReportedRest(events, io.open, io.open); }
      KernelStep(io, events, cfg);
      EventAccounted(io, events[0], cfg);
      ReportedRest(events, io.open, AfterEvent(io, events[0], cfg).open);
      EventsEndRight(AfterEvent(io, events[0], cfg), events[1..], cfg, e);
    }
  }

  lemma {:induction false} RunsEndRight(io: IO, batches: seq<Batch>, end: IO, cfg: Config, e: Ended)
    requires Accounted(io, cfg) && !cfg.pooled && Sane(io, cfg) && Runs(io, batches, end, cfg)
    requires e in EndedOver(io, batches, cfg)
    ensures ServedRight(e)
    decreases |batches|
  {
    hide Accounted, AfterEvents, Sane, KernelOk, ServedRight, EndedIn, Swept;
    var after := AfterEvents(io, batches[0].events, cfg);
    EventsAccounted(io, batches[0].events, cfg);
    SlotKeysAreOpen(after, cfg);
    if e in EndedIn(io, batches[0].events, cfg) {
      EventsEndRight(io, batches[0].events, cfg, e);
    } else if fd :| fd in Stale(after, batches[0].expired) && e == Ended(after.slots[fd], Otherwise) {
      SlotIsFaithful(after, fd, cfg);
      FinalServedRight(after.slots[fd], NOTHING, cfg);
    } else {
      SweptAccounted(after, Stale(after, batches[0].expired), cfg);
      RunsEndRight(AfterDispatch(io, batches[0], cfg), batches[1..], end, cfg, e);
    }
  }

  const NOTHING := Read([], 1, false, _ => false, false)

  /** In every run each connection that has ended was served the first requests of its stream, in order: all of them,
    * unless its handler ended it or its last read was refused; a refused read drops requests exactly when it leaves
    * a complete one. */
  lemma EndedWereServed(batches: seq<Batch>, io: IO, cfg: Config, e: Ended)
    requires !cfg.pooled && Sane(START, cfg) && Runs(START, batches, io, cfg) && e in EndedOver(START, batches, cfg)
    ensures e.session.served <= CutAll(e.session.received)
    ensures e.cause.Otherwise? ==> e.session.served == CutAll(e.session.received)
    ensures e.cause.WhileReading? ==>
              (e.session.served == CutAll(e.session.received)
               <==> Message.InspectionOf(e.session.conn.buffer).framing != Message.Complete)
  {
    StartIsAccounted(cfg);
    RunsEndRight(START, batches, io, cfg, e);
    hide EndedOver, Runs, CutAll, Message.InspectionOf;
  }

  /** Two requests in one read. */
  function BothAtOnce(r: bytes): Read { Read([Bytes(r + r)], |r + r| + 1, false, _ => true, false) }

  lemma CutTwice(r: bytes)
    requires r != [] && StandsAlone(r)
    ensures CutAll(r + r) == [r, r]
  {
    hide Message.InspectionOf, CutAll, Leftover;
    NothingIsIncomplete();
    var requests := [r, r];
    assert requests[1..] == [r] && [r][1..] == [];
    assert Concat([]) == [] && Concat([r]) == r + Concat([]) && Concat(requests) == r + Concat([r]);
    assert r + [] == r && r + r + [] == r + r;
    CutsPipeline(requests, []);
  }

  /** A loop with one fresh connection. */
  function OneOpen(fd: nat): IO { IO(map[fd := OPENING], 1, 0, [], [], {fd}, {fd}, 1, 0, false, map[]) }

  lemma AcceptsOne(fd: nat, cfg: Config)
    ensures Sane(START, cfg) && AfterEvent(START, Listener([Accepted(fd, true)]), cfg) == OneOpen(fd)
  {
    hide CacheOk;
    var accepts := [Accepted(fd, true)];
    assert accepts[1..] == [];
    assert AfterAccept(START, fd, true, cfg) == OneOpen(fd);
    assert AfterAccepts(START, accepts, cfg) == OneOpen(fd);
  }

  lemma ReadIsReported(fd: nat, read: Read)
    ensures Reported([Client(fd, false, true, read)], OneOpen(fd).open)
  {
  }

  lemma AcceptIsKernelOk(fd: nat, cfg: Config)
    requires Sane(START, cfg)
    ensures KernelOk(START, [Listener([Accepted(fd, true)])], cfg)
  {
    var accepts := [Accepted(fd, true)];
    var events := [Listener(accepts)];
    assert accepts[1..] == [] && events[1..] == [];
    assert AcceptsFresh(START, accepts, cfg);
    hide AfterEvent, Sane, CacheOk;
    assert KernelOk(AfterEvent(START, events[0], cfg), [], cfg);
  }

  lemma ReceivesBoth(r: bytes, max: nat)
    requires |r + r| > max && r != []
    ensures var read := BothAtOnce(r);
            && Receive([], read.recvs, read.bufsz, max) == TooLarge(r + r)
            && TakenBy(0, read.recvs, read.bufsz, max) == r + r
  {
    hide TakenBy;
    var chunk := r + r;
    assert [] + chunk == chunk && chunk[0..] == chunk;
    TakenIs([], [Bytes(chunk)], |chunk| + 1, max);
  }

  lemma ReadsTooMuch(fd: nat, r: bytes, cfg: Config)
    requires !cfg.pooled && |r + r| > cfg.maxRequestSize && r != []
    ensures Sane(OneOpen(fd), cfg)
    ensures EndedBy(OneOpen(fd), Client(fd, false, true, BothAtOnce(r)), cfg)
            == {Ended(Session(FRESH.(buffer := r + r), r + r, []), WhileReading)}
  {
    hide Message.InspectionOf, TakenBy, BothAtOnce, Receive, ServeLoop;
    OpeningIsSane(cfg.maxRequestSize);
    hide CacheOk;
    ReceivesBoth(r, cfg.maxRequestSize);
    assert [] + (r + r) == r + r;
  }

  /** A limit that admits each of two pipelined requests but not both at once: neither is served. */
  lemma PipelinedAndDropped(fd: nat, r: bytes, cfg: Config)
    requires !cfg.pooled && r != [] && StandsAlone(r) && |r| <= cfg.maxRequestSize < |r + r|
    ensures Sane(START, cfg)
    ensures var accept, read := Listener([Accepted(fd, true)]), Client(fd, false, true, BothAtOnce(r));
            var e := Ended(Session(FRESH.(buffer := r + r), r + r, []), WhileReading);
            && KernelOk(START, [accept], cfg) && Reported([read], AfterEvent(START, accept, cfg).open)
            && EndedBy(AfterEvent(START, accept, cfg), read, cfg) == {e} && CutAll(e.session.received) == [r, r]
  {
    AcceptsOne(fd, cfg);
    CutTwice(r);
    ReadsTooMuch(fd, r, cfg);
    AcceptIsKernelOk(fd, cfg);
    ReadIsReported(fd, BothAtOnce(r));
    hide *;
  }

  /** `GET / HTTP/1.1` with a Host line is such a request for every limit from 27 to 53. */
  lemma SuchALimit(cfg: Config)
    requires !cfg.pooled && 27 <= cfg.maxRequestSize < 54
    ensures var r := KeepAlive.GET_HOST; r != [] && StandsAlone(r) && |r| <= cfg.maxRequestSize < |r + r|
  {
    KeepAlive.GetHostStays();
    hide Message.InspectionOf, KeepAlive.AsksToStay;
  }

  /** Two runs that received the same bytes on a connection served the same requests on it and hold the same state. */
  lemma SegmentationIsInvisible(batches: seq<Batch>, io: IO, others: seq<Batch>, other: IO, cfg: Config, fd: nat,
        gd: nat)
    requires !cfg.pooled && Sane(START, cfg) && Runs(START, batches, io, cfg) && Runs(START, others, other, cfg)
    requires fd in io.slots && gd in other.slots && io.slots[fd].received == other.slots[gd].received
    ensures io.slots[fd] == other.slots[gd]
  {
    StartIsAccounted(cfg);
    RunsAccounted(START, batches, io, cfg);
    RunsAccounted(START, others, other, cfg);
    SegmentationIndependent(io.slots[fd], other.slots[gd], cfg.maxRequestSize, cfg.maxRequestSize);
  }
}
