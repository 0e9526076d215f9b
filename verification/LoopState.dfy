/** The epoll loop over all connections: the table of slots, the counters and the open descriptors. */
module LoopState {
  import opened Bytes
  import opened Connection

  /** `maxConnections` is 0 for no limit; `pooled` tells whether requests go to a thread pool. */
  datatype Config = Config(maxRequestSize: nat, maxConnections: nat, pooled: bool)

  datatype Task = Task(fd: nat, raw: bytes)
  datatype Completion = Completion(fd: nat, keepAlive: bool)

  /** How one call of `HandleReadable` finds its socket, clock, handlers and pool. */
  datatype Read = Read(recvs: seq<Recv>, bufsz: nat, deadline: bool, keep: nat -> bool, poolAccepts: bool)

  /** The state of the loop and of the kernel below it: `open` client descriptors, those `armed` to be reported,
    * whether a descriptor was ever closed that was not open, and
    * the status last sent to a descriptor that was refused. */
  datatype IO = IO(
    slots: map<nat, Session>,
    active: int,
    handled: nat,
    tasks: seq<Task>,
    completed: seq<Completion>,
    open: set<nat>,
    armed: set<nat>,
    accepted: nat,
    closed: nat,
    misused: bool,
    refused: map<nat, nat>)

  const START := IO(map[], 0, 0, [], [], {}, {}, 0, 0, false, map[])

  // ---- what each operation does to the state ------------------------------------------------------

  function Opened(io: IO, fd: nat): IO {
    io.(open := io.open + {fd}, accepted := io.accepted + 1)
  }

  /** `close(fd)`: the descriptor also leaves the epoll set. */
  function Closed(io: IO, fd: nat): IO {
    io.(open := io.open - {fd}, armed := io.armed - {fd}, closed := io.closed + 1,
        misused := io.misused || fd !in io.open)
  }

  function Dropped(io: IO, fd: nat): IO {
    io.(slots := io.slots - {fd})
  }

  /** Closed, dropped and no longer counted. */
  function Gone(io: IO, fd: nat): IO {
    var closed := Dropped(Closed(io, fd), fd);
    closed.(active := closed.active - 1)
  }

  /** Gone, and counted as handled. */
  function HungUp(io: IO, fd: nat): IO {
    var gone := Gone(io, fd);
    gone.(handled := gone.handled + 1)
  }

  /** Answered with an error status, then gone. */
  function Rejected(io: IO, fd: nat, code: nat): IO {
    HungUp(io.(refused := io.refused[fd := code]), fd)
  }

  function WithSlot(io: IO, fd: nat): IO {
    if fd in io.slots then io else io.(slots := io.slots[fd := OPENING])
  }

  function WithConn(io: IO, fd: nat, c: Conn): IO
    requires fd in io.slots
  {
    io.(slots := io.slots[fd := io.slots[fd].(conn := c)])
  }

  /** `rearm_wait`: only descriptors registered one-shot need it. */
  function Rearmed(io: IO, fd: nat, pooled: bool): IO {
    if pooled then io.(armed := io.armed + {fd}) else io
  }

  datatype Accept = Accepted(fd: nat, registered: bool) | Retry | NoMore

  function AfterAccept(io: IO, fd: nat, registered: bool, cfg: Config): IO {
    var o := Opened(io, fd);
    if (cfg.maxConnections != 0 && io.active >= cfg.maxConnections) || !registered then Closed(o, fd)
    else o.(armed := o.armed + {fd}, active := o.active + 1, slots := o.slots[fd := OPENING])
  }

  function AfterAccepts(io: IO, accepts: seq<Accept>, cfg: Config): IO
    decreases |accepts|
  {
    if accepts == [] then io
    else match accepts[0]
      case Accepted(fd, registered) => AfterAccepts(AfterAccept(io, fd, registered, cfg), accepts[1..], cfg)
      case Retry => AfterAccepts(io, accepts[1..], cfg)
      case NoMore => io
  }

  predicate Sane(io: IO, cfg: Config) {
    forall fd :: fd in io.slots ==> CacheOk(io.slots[fd].conn, cfg.maxRequestSize)
  }

  lemma OpeningIsSane(max: nat)
    ensures CacheOk(OPENING.conn, max)
  {
    hide Message.InspectionOf;
  }

  function HandedOff(io: IO, fd: nat, raw: bytes, accepts: bool): IO {
    if accepts then io.(tasks := io.tasks + [Task(fd, raw)]) else Rejected(io, fd, 503)
  }

  /** The framing loop when a pool takes the requests: one turn. */
  function AfterTurn(io: IO, fd: nat, t: Turn, accepts: bool): IO
    requires fd in io.slots
  {
    match t
    case Wait(next) => Rearmed(WithConn(io, fd, next), fd, true)
    case Refuse(code) => Rejected(io, fd, code)
    case Cut(raw, rest) =>
      HandedOff(
        if rest.buffer != [] then WithConn(io, fd, rest.(dispatching := true)) else Dropped(io, fd),
        fd, raw, accepts)
  }

  /** The framing loop when requests are served inline. */
  function AfterServe(io: IO, fd: nat, s: Session, h: Handled): IO {
    var counted := io.(handled := io.handled + |h.served|);
    match h.end
    case StillOpen(c) => counted.(slots := counted.slots[fd := s.(conn := c, served := s.served + h.served)])
    case Refused(code) => Rejected(counted, fd, code)
    case Finished => Gone(counted, fd)
  }

  function AfterReadable(io: IO, fd: nat, read: Read, cfg: Config): IO
    requires Sane(io, cfg)
  {
    hide CacheOk, ServeLoop, NextTurn, Receive;
    var slotted := WithSlot(io, fd);
    var s := slotted.slots[fd];
    OpeningIsSane(cfg.maxRequestSize);
    match Receive(s.conn.buffer, read.recvs, read.bufsz, cfg.maxRequestSize)
    case TooLarge(_) => Rejected(slotted, fd, 413)
    case Failed(_) => Rejected(slotted, fd, 400)
    case Got(buffer, closed) =>
      var c := s.conn.(buffer := buffer);
      var got := buffer[|s.conn.buffer|..];
      CacheSurvives(s.conn, buffer, cfg.maxRequestSize);
      if !cfg.pooled then
        AfterServe(slotted, fd, s.(received := s.received + got),
                   ServeLoop(c, closed, read.deadline, read.keep, 0, cfg.maxRequestSize))
      else if buffer == [] then Rearmed(slotted, fd, true)
      else AfterTurn(WithConn(slotted, fd, c), fd, NextTurn(c, closed, read.deadline, cfg.maxRequestSize),
                     read.poolAccepts)
  }

  /** `RearmConnection`: reset the slot, arm the descriptor, and go on with leftover bytes at once. */
  function AfterRearm(io: IO, fd: nat, read: Read, cfg: Config): IO
    requires Sane(io, cfg)
  {
    var slotted := WithSlot(io, fd);
    var c := slotted.slots[fd].conn;
    var armed := WithConn(slotted, fd, Conn(c.buffer, 0, false, false)).(armed := slotted.armed + {fd});
    if c.buffer != [] then AfterReadable(armed, fd, read, cfg) else armed
  }

  function AfterCompletion(io: IO, c: Completion, read: Read, cfg: Config): IO
    requires Sane(io, cfg)
  {
    if c.keepAlive then AfterRearm(io, c.fd, read, cfg) else Gone(io, c.fd)
  }

  /** An event on a client descriptor, with its EPOLLERR/HUP/RDHUP and EPOLLIN bits. */
  function AfterClient(io: IO, fd: nat, hup: bool, readable: bool, read: Read, cfg: Config): IO
    requires Sane(io, cfg)
  {
    var after := if readable then AfterReadable(io, fd, read, cfg) else io;
    if hup && fd in after.slots then HungUp(after, fd) else after
  }

  /** Slots whose deadline is over and that do not wait for a worker. */
  function Stale(io: IO, expired: set<nat>): set<nat> {
    set fd | fd in io.slots && fd in expired && !io.slots[fd].conn.dispatching
  }

  /** All of `fds` answered with 408. */
  function TimedOut(refused: map<nat, nat>, fds: set<nat>): map<nat, nat> {
    refused + map fd | fd in fds :: 408
  }

  function Swept(io: IO, fds: set<nat>): IO {
    io.(slots := io.slots - fds, open := io.open - fds, armed := io.armed - fds, active := io.active - |fds|,
        handled := io.handled + |fds|, closed := io.closed + |fds|, misused := io.misused || !(fds <= io.open),
        refused := TimedOut(io.refused, fds))
  }

  // ---- who comes and who goes -------------------------------------------------------------------------

  /** A new descriptor stays open exactly when it could be registered and the limit leaves room for it. */
  lemma AcceptExact(io: IO, fd: nat, registered: bool, cfg: Config)
    requires fd !in io.open && fd !in io.armed
    ensures var after := AfterAccept(io, fd, registered, cfg);
            && (fd in after.open <==> registered && (cfg.maxConnections == 0 || io.active < cfg.maxConnections))
            && (if fd in after.open then
                  && after.slots == io.slots[fd := OPENING] && after.open == io.open + {fd}
                  && after.armed == io.armed + {fd} && after.active == io.active + 1 && after.closed == io.closed
                else
                  && after.slots == io.slots && after.open == io.open && after.armed == io.armed
                  && after.active == io.active && after.closed == io.closed + 1)
            && after.accepted == io.accepted + 1 && after.misused == io.misused && after.handled == io.handled
            && after.tasks == io.tasks && after.completed == io.completed
  {
    assert io.open + {fd} - {fd} == io.open && io.armed - {fd} == io.armed;
  }

  /** A sweep answers with 408 and ends exactly the connections whose deadline is over and that await no worker. */
  lemma SweepExact(io: IO, expired: set<nat>, fd: nat)
    requires fd in io.slots
    ensures var after := Swept(io, Stale(io, expired));
            && (fd !in after.slots <==> fd in expired && !io.slots[fd].conn.dispatching)
            && (fd in after.slots ==> after.slots[fd] == io.slots[fd] && (fd in after.open <==> fd in io.open))
            && (fd !in after.slots ==> fd !in after.open && fd in after.refused && after.refused[fd] == 408)
  {
  }

  /** A worker's answer decides: the connection is over, or waits again with whatever bytes its slot held. */
  lemma CompletionExact(io: IO, c: Completion, read: Read, cfg: Config)
    requires Sane(io, cfg)
    ensures var after := AfterCompletion(io, c, read, cfg);
            && (!c.keepAlive ==> c.fd !in after.open && c.fd !in after.slots && c.fd !in after.armed
                                 && after.active == io.active - 1 && after.closed == io.closed + 1)
            && (c.keepAlive && (c.fd in io.slots ==> io.slots[c.fd].conn.buffer == []) ==>
                  && c.fd in after.slots && after.slots[c.fd].conn == FRESH && c.fd in after.armed
                  && after.open == io.open && after.active == io.active && after.closed == io.closed)
  {
    hide AfterReadable, CacheOk;
  }

  /** `fd` was sent this status, closed and forgotten, and counted as handled. */
  predicate TurnedAway(io: IO, after: IO, fd: nat, code: nat) {
    && after.refused == io.refused[fd := code] && fd !in after.open && fd !in after.armed && fd !in after.slots
    && after.active == io.active - 1 && after.handled == io.handled + 1 && after.closed == io.closed + 1
    && after.tasks == io.tasks
  }

  /** A read that is refused answers 413 beyond the limit and 400 on an error of the socket, and ends the connection. */
  lemma RefusedReadExact(io: IO, fd: nat, read: Read, cfg: Config)
    requires Sane(io, cfg) && fd in io.slots
    ensures var r := Receive(io.slots[fd].conn.buffer, read.recvs, read.bufsz, cfg.maxRequestSize);
            && (r.TooLarge? ==> TurnedAway(io, AfterReadable(io, fd, read, cfg), fd, 413))
            && (r.Failed? ==> TurnedAway(io, AfterReadable(io, fd, read, cfg), fd, 400))
  {
    hide CacheOk, ServeLoop, NextTurn, Receive, AfterServe, AfterTurn;
  }

  /** What becomes of one turn when a pool takes the requests. */
  lemma TurnExact(io: IO, fd: nat, t: Turn, accepts: bool)
    requires fd in io.slots
    ensures var after := AfterTurn(io, fd, t, accepts);
            && (t.Refuse? ==> TurnedAway(io, after, fd, t.code))
            && (t.Cut? && !accepts ==> TurnedAway(io, after, fd, 503))
            && (t.Cut? && accepts ==>
                  && after.tasks == io.tasks + [Task(fd, t.raw)] && after.open == io.open && after.armed == io.armed
                  && (fd in after.slots <==> t.rest.buffer != [])
                  && (fd in after.slots ==> after.slots[fd].conn == t.rest.(dispatching := true)))
            && (t.Wait? ==>
                  && after.tasks == io.tasks && after.open == io.open && after.armed == io.armed + {fd}
                  && fd in after.slots && after.slots[fd].conn == t.next)
  {
  }

  /** What becomes of one call of the inline loop: every request served counts, and so does a refusal. */
  lemma ServeExact(io: IO, fd: nat, s: Session, h: Handled)
    ensures var after := AfterServe(io, fd, s, h);
            && after.handled == io.handled + |h.served| + (if h.end.Refused? then 1 else 0)
            && (h.end.Refused? ==> TurnedAway(io.(handled := io.handled + |h.served|), after, fd, h.end.code))
            && (h.end.Finished? ==>
                  && fd !in after.open && fd !in after.armed && fd !in after.slots && after.refused == io.refused
                  && after.active == io.active - 1 && after.closed == io.closed + 1)
            && (h.end.StillOpen? ==>
                  && fd in after.slots && after.slots[fd] == Session(h.end.conn, s.received, s.served + h.served)
                  && after.open == io.open && after.armed == io.armed && after.active == io.active)
  {
  }

  /** A hang-up ends the connection, whatever its last read did; without one and without a read nothing changes. */
  lemma HangUpExact(io: IO, fd: nat, hup: bool, readable: bool, read: Read, cfg: Config)
    requires Sane(io, cfg)
    ensures var after := AfterClient(io, fd, hup, readable, read, cfg);
            && (hup ==> fd !in after.slots)
            && (!hup && !readable ==> after == io)
            && (!hup && readable ==> after == AfterReadable(io, fd, read, cfg))
            && (hup && !readable && fd in io.slots ==>
                  && fd !in after.open && fd !in after.armed && after.slots == io.slots - {fd}
                  && after.active == io.active - 1 && after.handled == io.handled + 1 && after.closed == io.closed + 1)
  {
    hide AfterReadable, CacheOk;
  }

  // ---- every operation keeps the slots sane ---------------------------------------------------------

  lemma {:induction false} ServeLoopSane(c: Conn, closed: bool, deadline: bool, keep: nat -> bool, i: nat, max: nat)
    requires CacheOk(c, max)
    ensures var h := ServeLoop(c, closed, deadline, keep, i, max); h.end.StillOpen? ==> CacheOk(h.end.conn, max)
    decreases |c.buffer|
  {
    hide Message.InspectionOf;
    if c.buffer != [] {
      var t := NextTurn(c, closed, deadline, max);
      if t.Cut? && keep(i) { ServeLoopSane(t.rest, closed, deadline, keep, i + 1, max); }
    }
  }

  lemma TurnSane(c: Conn, closed: bool, deadline: bool, max: nat)
    requires c.buffer != [] && CacheOk(c, max)
    ensures var t := NextTurn(c, closed, deadline, max);
            (t.Wait? ==> CacheOk(t.next, max)) && (t.Cut? ==> CacheOk(t.rest.(dispatching := true), max))
  {
    hide Message.InspectionOf;
  }

  lemma AfterServeSane(io: IO, fd: nat, s: Session, h: Handled, cfg: Config)
    requires Sane(io, cfg) && (h.end.StillOpen? ==> CacheOk(h.end.conn, cfg.maxRequestSize))
    ensures Sane(AfterServe(io, fd, s, h), cfg)
  {
    hide CacheOk;
  }

  lemma AfterTurnSane(io: IO, fd: nat, t: Turn, accepts: bool, cfg: Config)
    requires Sane(io, cfg) && fd in io.slots
    requires t.Wait? ==> CacheOk(t.next, cfg.maxRequestSize)
    requires t.Cut? ==> CacheOk(t.rest.(dispatching := true), cfg.maxRequestSize)
    ensures Sane(AfterTurn(io, fd, t, accepts), cfg)
  {
    hide CacheOk;
  }

  lemma ReadableSane(io: IO, fd: nat, read: Read, cfg: Config)
    requires Sane(io, cfg)
    ensures Sane(AfterReadable(io, fd, read, cfg), cfg)
  {
    hide CacheOk, ServeLoop, NextTurn, Receive, AfterServe, AfterTurn;
    OpeningIsSane(cfg.maxRequestSize);
    var slotted := WithSlot(io, fd);
    var s := slotted.slots[fd];
    var r := Receive(s.conn.buffer, read.recvs, read.bufsz, cfg.maxRequestSize);
    if r.Got? {
      var c := s.conn.(buffer := r.buffer);
      CacheSurvives(s.conn, r.buffer, cfg.maxRequestSize);
      if !cfg.pooled {
        ServeLoopSane(c, r.closed, read.deadline, read.keep, 0, cfg.maxRequestSize);
        var got := r.buffer[|s.conn.buffer|..];
        AfterServeSane(slotted, fd, s.(received := s.received + got),
                       ServeLoop(c, r.closed, read.deadline, read.keep, 0, cfg.maxRequestSize), cfg);
      } else if c.buffer != [] {
        TurnSane(c, r.closed, read.deadline, cfg.maxRequestSize);
        AfterTurnSane(WithConn(slotted, fd, c), fd, NextTurn(c, r.closed, read.deadline, cfg.maxRequestSize),
                      read.poolAccepts, cfg);
      }
    }
  }

  // ---- batches of events ----------------------------------------------------------------------------

  datatype Event =
    | Notify(finds: nat -> Read)
    | Listener(accepts: seq<Accept>)
    | Client(fd: nat, hup: bool, readable: bool, read: Read)

  lemma CompletionSane(io: IO, c: Completion, read: Read, cfg: Config)
    requires Sane(io, cfg)
    ensures Sane(AfterCompletion(io, c, read, cfg), cfg)
  {
    hide CacheOk, AfterReadable;
    OpeningIsSane(cfg.maxRequestSize);
    if c.keepAlive {
      var slotted := WithSlot(io, c.fd);
      var k := Conn(slotted.slots[c.fd].conn.buffer, 0, false, false);
      ResetIsSane(k.buffer, cfg.maxRequestSize);
      ReadableSane(WithConn(slotted, c.fd, k).(armed := slotted.armed + {c.fd}), c.fd, read, cfg);
    }
  }

  lemma ResetIsSane(buffer: bytes, max: nat)
    ensures CacheOk(Conn(buffer, 0, false, false), max)
  {
    hide Message.InspectionOf;
  }

  /** The loop over a swapped-out list of completions; `finds(i)` is what a re-armed connection `i` finds. */
  function AfterDrain(io: IO, done: seq<Completion>, finds: nat -> Read, i: nat, cfg: Config): (r: IO)
    requires Sane(io, cfg)
    ensures Sane(r, cfg)
    decreases |done|
  {
    if done == [] then io
    else
      CompletionSane(io, done[0], finds(i), cfg);
      AfterDrain(AfterCompletion(io, done[0], finds(i), cfg), done[1..], finds, i + 1, cfg)
  }

  lemma {:induction false} AcceptsSane(io: IO, accepts: seq<Accept>, cfg: Config)
    requires Sane(io, cfg)
    ensures Sane(AfterAccepts(io, accepts, cfg), cfg)
    decreases |accepts|
  {
    hide CacheOk;
    OpeningIsSane(cfg.maxRequestSize);
    if accepts != [] {
      match accepts[0]
      case Accepted(fd, registered) => AcceptsSane(AfterAccept(io, fd, registered, cfg), accepts[1..], cfg);
      case Retry => AcceptsSane(io, accepts[1..], cfg);
      case NoMore =>
    }
  }

  function AfterEvent(io: IO, event: Event, cfg: Config): (r: IO)
    requires Sane(io, cfg)
    ensures Sane(r, cfg)
  {
    hide CacheOk, AfterReadable, AfterAccepts;
    match event
    case Notify(finds) => AfterDrain(io.(completed := []), io.completed, finds, 0, cfg)
    case Listener(accepts) =>
      AcceptsSane(io, accepts, cfg);
      AfterAccepts(io, accepts, cfg)
    case Client(fd, hup, readable, read) =>
      ReadableSane(io, fd, read, cfg);
      AfterClient(io, fd, hup, readable, read, cfg)
  }

  function AfterEvents(io: IO, events: seq<Event>, cfg: Config): (r: IO)
    requires Sane(io, cfg)
    ensures Sane(r, cfg)
    decreases |events|
  {
    if events == [] then io else AfterEvents(AfterEvent(io, events[0], cfg), events[1..], cfg)
  }

  /** One wake-up of the loop: its events, then the slots whose deadline is over. */
  datatype Batch = Batch(events: seq<Event>, expired: set<nat>)

  function AfterDispatch(io: IO, batch: Batch, cfg: Config): (r: IO)
    requires Sane(io, cfg)
    ensures Sane(r, cfg)
  {
    hide CacheOk;
    var after := AfterEvents(io, batch.events, cfg);
    Swept(after, Stale(after, batch.expired))
  }

  function AllGone(io: IO, done: seq<Completion>): IO
    decreases |done|
  {
    if done == [] then io else AllGone(Gone(io, done[0].fd), done[1..])
  }

  function Cleared(io: IO): IO {
    var fds := io.slots.Keys;
    io.(slots := map[], open := io.open - fds, armed := io.armed - fds, active := io.active - |fds|,
        closed := io.closed + |fds|, misused := io.misused || !(fds <= io.open))
  }

  /** `shutdown`, once the pool's workers are joined. */
  function AfterShutdown(io: IO): IO {
    Cleared(AllGone(io.(completed := []), io.completed))
  }
}
