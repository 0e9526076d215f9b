/** Which requests the workers get: the hand-offs of a run, beside the bytes each connection received. */
module PoolHistory {
  import opened Bytes
  import opened Connection
  import opened LoopState
  import opened PoolMode
  import KeepAlive

  /** Of the last connection on a descriptor: every byte received and every request handed to the pool. */
  datatype History = History(heard: bytes, handed: seq<bytes>)

  type Log = map<nat, History>

  /** The bytes a read takes from its socket, a refused one included. */
  function GotBy(io: IO, fd: nat, read: Read, cfg: Config): bytes {
    TakenBy(|WithSlot(io, fd).slots[fd].conn.buffer|, read.recvs, read.bufsz, cfg.maxRequestSize)
  }

  /** The requests that were queued on the way from `io` to `after`. */
  function Queued(io: IO, after: IO): seq<bytes> {
    if |after.tasks| > |io.tasks| then [after.tasks[|io.tasks|].raw] else []
  }

  function AfterRead(h: History, io: IO, fd: nat, read: Read, cfg: Config): History
    requires Sane(io, cfg)
  {
    History(h.heard + GotBy(io, fd, read, cfg), h.handed + Queued(io, AfterReadable(io, fd, read, cfg)))
  }

  /** The log after a step from `s`. */
  function Logged(log: Log, s: State, step: Step, cfg: Config): Log
    requires Enabled(s, step) && Sane(s.io, cfg)
  {
    hide Sane, CacheOk, AfterReadable;
    match step
    case Accept(fd, _) => log[fd := History([], [])]
    case Handle(fd, _, readable, read) =>
      if readable && fd in log then log[fd := AfterRead(log[fd], s.io, fd, read, cfg)] else log
    case HandleCompletion(read) =>
      var fd := s.done[0].fd;
      var armed := s.io.armed + {fd};
      ResetSane(s.io, fd, armed, cfg);
      var io := Reset(s.io, fd).(armed := armed);
      if s.done[0].keepAlive && fd in log && io.slots[fd].conn.buffer != [] then
        log[fd := AfterRead(log[fd], io, fd, read, cfg)]
      else log
    case _ => log
  }

  /** The log of a whole run. */
  ghost function LogOf(log: Log, s: State, steps: seq<Step>, cfg: Config): Log
    requires Sane(s.io, cfg)
    decreases steps
  {
    hide Sane;
    if steps == [] || !Enabled(s, steps[0]) then log
    else
      NextSane(s, steps[0], cfg);
      LogOf(Logged(log, s, steps[0], cfg), Next(s, steps[0], cfg), steps[1..], cfg)
  }

  // ---- what a read hands off ------------------------------------------------------------------------

  /** The requests handed off and those still in `buffer` are the cut of all bytes heard. */
  predicate Follows(h: History, buffer: bytes) {
    CutAll(h.heard) == h.handed + CutAll(buffer) && Leftover(h.heard) == Leftover(buffer)
  }

  function BufferOf(io: IO, fd: nat): bytes {
    if fd in io.slots then io.slots[fd].conn.buffer else []
  }

  /** The log of `fd` is right, and a slot that waits holds no complete request. */
  predicate Traced(io: IO, fd: nat, h: History) {
    && Follows(h, BufferOf(io, fd))
    && (fd in io.slots && !io.slots[fd].conn.dispatching ==> CutAll(BufferOf(io, fd)) == [])
  }

  /** Bytes that arrive extend the log and the buffer alike. */
  lemma HearsMore(h: History, buffer: bytes, got: bytes)
    requires Follows(h, buffer)
    ensures Follows(History(h.heard + got, h.handed), buffer + got)
  {
    hide CutAll, Leftover;
    CutExtends(h.heard, got);
    CutExtends(buffer, got);
    var more := CutAll(Leftover(buffer) + got);
    assert h.handed + (CutAll(buffer) + more) == h.handed + CutAll(buffer) + more;
  }

  /** A turn cuts the first request off, or there is none. */
  lemma TurnCuts(c: Conn, closed: bool, deadline: bool, max: nat)
    requires c.buffer != [] && CacheOk(c, max) && !c.dispatching
    ensures var t := NextTurn(c, closed, deadline, max);
            && (t.Cut? ==> CutAll(c.buffer) == [t.raw] + CutAll(t.rest.buffer))
            && (t.Cut? ==> Leftover(c.buffer) == Leftover(t.rest.buffer))
            && (t.Wait? ==> CutAll(c.buffer) == [] && t.next.buffer == c.buffer && !t.next.dispatching)
  {
    hide Message.InspectionOf, CacheOk, NextTurn, CutAll, Leftover;
    TurnIsFresh(c, closed, deadline, max);
    TurnKeeps(c, closed, deadline, max);
    if Message.InspectionOf(c.buffer).framing == Message.Complete {
      CutStep(c.buffer, Message.InspectionOf(c.buffer).expected);
    } else {
      CutNothing(c.buffer);
    }
  }

  lemma TurnKeeps(c: Conn, closed: bool, deadline: bool, max: nat)
    requires c.buffer != [] && CacheOk(c, max)
    ensures var t := NextTurn(c, closed, deadline, max);
            t.Wait? ==> t.next.buffer == c.buffer && t.next.dispatching == c.dispatching
  {
    hide Message.InspectionOf;
  }

  /** The requests handed off are the first ones of the bytes heard. */
  predicate InOrder(h: History) { h.handed <= CutAll(h.heard) }

  lemma FollowsInOrder(h: History, buffer: bytes)
    requires Follows(h, buffer)
    ensures InOrder(h)
  {
    hide CutAll, Leftover;
  }

  lemma TurnTraced(io: IO, fd: nat, t: Turn, accepts: bool, h: History)
    requires fd in io.slots && Follows(h, io.slots[fd].conn.buffer)
    requires t.Cut? ==> CutAll(io.slots[fd].conn.buffer) == [t.raw] + CutAll(t.rest.buffer)
                        && Leftover(io.slots[fd].conn.buffer) == Leftover(t.rest.buffer)
    requires t.Wait? ==> CutAll(io.slots[fd].conn.buffer) == [] && t.next.buffer == io.slots[fd].conn.buffer
    ensures var after := AfterTurn(io, fd, t, accepts);
            && (fd in after.open ==> Traced(after, fd, History(h.heard, h.handed + Queued(io, after))))
            && InOrder(History(h.heard, h.handed + Queued(io, after)))
  {
    hide CutAll, Leftover;
    if t.Cut? {
      assert h.handed + ([t.raw] + CutAll(t.rest.buffer)) == h.handed + [t.raw] + CutAll(t.rest.buffer);
    } else {
      assert h.handed + [] == h.handed;
    }
  }

  lemma ReadTraced(io: IO, fd: nat, read: Read, cfg: Config, h: History)
    requires cfg.pooled && Sane(io, cfg) && fd in io.slots && !io.slots[fd].conn.dispatching
    requires Follows(h, io.slots[fd].conn.buffer)
    ensures var after := AfterReadable(io, fd, read, cfg);
            && (fd in after.open ==> Traced(after, fd, AfterRead(h, io, fd, read, cfg)))
            && InOrder(AfterRead(h, io, fd, read, cfg))
  {
    hide CacheOk, NextTurn, Receive, AfterTurn, Follows, Traced, InOrder, TakenBy;
    var c := io.slots[fd].conn;
    var r := Receive(c.buffer, read.recvs, read.bufsz, cfg.maxRequestSize);
    TakenIs(c.buffer, read.recvs, read.bufsz, cfg.maxRequestSize);
    var got, grown := r.buffer[|c.buffer|..], c.(buffer := r.buffer);
    assert c.buffer + got == r.buffer;
    HearsMore(h, c.buffer, got);
    var h1 := History(h.heard + got, h.handed);
    FollowsInOrder(h1, r.buffer);
    if !r.Got? {
      assert h.handed + [] == h.handed;
    } else {
      CacheSurvives(c, r.buffer, cfg.maxRequestSize);
      if r.buffer == [] {
        NothingTraced(Rearmed(io, fd, true), fd, h1);
        assert h.handed + [] == h.handed;
      } else {
        var t := NextTurn(grown, r.closed, read.deadline, cfg.maxRequestSize);
        TurnCuts(grown, r.closed, read.deadline, cfg.maxRequestSize);
        TurnTraced(WithConn(io, fd, grown), fd, t, read.poolAccepts, h1);
      }
    }
  }

  lemma NothingTraced(io: IO, fd: nat, h: History)
    requires Follows(h, []) && BufferOf(io, fd) == []
    ensures Traced(io, fd, h)
  {
    NothingIsIncomplete();
    CutNothing([]);
  }

  // ---- every step keeps the log -----------------------------------------------------------------------

  predicate AllTraced(io: IO, log: Log) {
    forall fd :: fd in io.open ==> fd in log && Traced(io, fd, log[fd])
  }

  /** What concerns `g` is the same. */
  predicate SameAt(io: IO, after: IO, g: nat) {
    (g in after.open ==> g in io.open) && (g in io.slots <==> g in after.slots)
    && (g in io.slots && g in after.slots ==> io.slots[g] == after.slots[g])
  }

  lemma SameStaysTraced(io: IO, after: IO, g: nat, h: History)
    requires SameAt(io, after, g) && Traced(io, g, h)
    ensures Traced(after, g, h)
  {
    hide Follows;
  }

  lemma TurnElsewhere(io: IO, fd: nat, t: Turn, accepts: bool, g: nat)
    requires fd in io.slots && g != fd
    ensures SameAt(io, AfterTurn(io, fd, t, accepts), g)
  {
  }

  lemma ReadableElsewhere(io: IO, fd: nat, read: Read, cfg: Config, g: nat)
    requires cfg.pooled && Sane(io, cfg) && g != fd
    ensures SameAt(io, AfterReadable(io, fd, read, cfg), g)
  {
    hide CacheOk, NextTurn, Receive, AfterTurn;
    OpeningIsSane(cfg.maxRequestSize);
    var slotted := WithSlot(io, fd);
    var c := slotted.slots[fd].conn;
    var r := Receive(c.buffer, read.recvs, read.bufsz, cfg.maxRequestSize);
    if r.Got? && r.buffer != [] {
      var grown := c.(buffer := r.buffer);
      CacheSurvives(c, r.buffer, cfg.maxRequestSize);
      TurnElsewhere(WithConn(slotted, fd, grown), fd,
                    NextTurn(grown, r.closed, read.deadline, cfg.maxRequestSize), read.poolAccepts, g);
    }
  }

  /** The descriptor a step is about. */
  function FdOf(s: State, step: Step): Option<nat>
    requires Enabled(s, step)
  {
    match step
    case Accept(fd, _) => Some(fd)
    case Handle(fd, _, _, _) => Some(fd)
    case HandleCompletion(_) => Some(s.done[0].fd)
    case _ => None
  }

  lemma LoggedElsewhere(log: Log, s: State, step: Step, cfg: Config, g: nat)
    requires Enabled(s, step) && Sane(s.io, cfg) && FdOf(s, step) != Some(g) && g in log
    ensures g in Logged(log, s, step, cfg) && Logged(log, s, step, cfg)[g] == log[g]
  {
    hide Sane, AfterRead, KeepAlive.AsksToStay;
  }

  lemma CompletionElsewhere(io: IO, c: Completion, read: Read, cfg: Config, g: nat)
    requires cfg.pooled && Sane(io, cfg) && g != c.fd
    ensures SameAt(io, AfterCompletion(io, c, read, cfg), g)
  {
    hide CacheOk, Sane, AfterReadable;
    if c.keepAlive {
      var reset := Reset(io, c.fd).(armed := io.armed + {c.fd});
      ResetSane(io, c.fd, io.armed + {c.fd}, cfg);
      ReadableElsewhere(reset, c.fd, read, cfg, g);
    }
  }

  lemma ClientElsewhere(io: IO, fd: nat, hup: bool, readable: bool, read: Read, cfg: Config, g: nat)
    requires cfg.pooled && Sane(io, cfg) && g != fd
    ensures SameAt(io, AfterClient(io, fd, hup, readable, read, cfg), g)
  {
    hide Sane, AfterReadable;
    if readable { ReadableElsewhere(io, fd, read, cfg, g); }
  }

  lemma StepElsewhere(s: State, step: Step, cfg: Config, g: nat)
    requires cfg.pooled && Enabled(s, step) && Sane(s.io, cfg) && FdOf(s, step) != Some(g)
    requires g in Next(s, step, cfg).io.open
    ensures SameAt(s.io, Next(s, step, cfg).io, g)
  {
    hide Sane, AfterClient, AfterCompletion, KeepAlive.AsksToStay;
    match step
    case Handle(fd, hup, readable, read) => ClientElsewhere(s.io, fd, hup, readable, read, cfg, g);
    case HandleCompletion(read) => CompletionElsewhere(s.io, s.done[0], read, cfg, g);
    case _ =>
  }

  lemma AcceptAt(s: State, step: Step, cfg: Config, log: Log)
    requires step.Accept? && Sane(s.io, cfg) && Enabled(s, step) && step.fd in Next(s, step, cfg).io.open
    ensures step.fd in Logged(log, s, step, cfg)
    ensures Traced(Next(s, step, cfg).io, step.fd, Logged(log, s, step, cfg)[step.fd])
  {
    EmptyFollows();
    hide Sane, Follows, Traced;
    NothingTraced(Next(s, step, cfg).io, step.fd, History([], []));
  }

  lemma HandleAt(s: State, step: Step, cfg: Config, log: Log)
    requires cfg.pooled && step.Handle? && Sane(s.io, cfg) && Enabled(s, step) && Waits(s, step.fd)
    requires step.fd in log && Traced(s.io, step.fd, log[step.fd]) && step.fd in Next(s, step, cfg).io.open
    ensures step.fd in Logged(log, s, step, cfg)
    ensures Traced(Next(s, step, cfg).io, step.fd, Logged(log, s, step, cfg)[step.fd])
  {
    var fd := step.fd;
    assert Follows(log[fd], s.io.slots[fd].conn.buffer);
    hide Sane, CacheOk, AfterReadable, AfterRead, Follows;
    if step.readable { ReadTraced(s.io, fd, step.read, cfg, log[fd]); }
  }

  lemma ResetFollows(io: IO, fd: nat, h: History)
    requires Traced(io, fd, h)
    ensures Follows(h, Reset(io, fd).slots[fd].conn.buffer)
  {
    hide Follows;
  }

  lemma CompletionAt(s: State, step: Step, cfg: Config, log: Log)
    requires cfg.pooled && step.HandleCompletion? && Sane(s.io, cfg) && Enabled(s, step)
    requires var fd := s.done[0].fd; fd in log && Traced(s.io, fd, log[fd]) && fd in Next(s, step, cfg).io.open
    ensures s.done[0].fd in Logged(log, s, step, cfg)
    ensures Traced(Next(s, step, cfg).io, s.done[0].fd, Logged(log, s, step, cfg)[s.done[0].fd])
  {
    var fd := s.done[0].fd;
    var io := Reset(s.io, fd).(armed := s.io.armed + {fd});
    hide Sane, CacheOk, AfterReadable, AfterRead, Follows, Traced, KeepAlive.AsksToStay;
    ResetFollows(s.io, fd, log[fd]);
    ResetSane(s.io, fd, s.io.armed + {fd}, cfg);
    if io.slots[fd].conn.buffer != [] {
      ReadTraced(io, fd, step.read, cfg, log[fd]);
    } else {
      NothingTraced(io, fd, log[fd]);
    }
  }

  lemma EmptyFollows()
    ensures Follows(History([], []), [])
  {
    NothingIsIncomplete();
    CutNothing([]);
  }

  /** What ownership says of the descriptor a step is about. */
  lemma OwnedAt(s: State, step: Step, cfg: Config)
    requires Owned(s) && Enabled(s, step)
    ensures step.Handle? ==> Waits(s, step.fd) && step.fd in s.io.open
    ensures step.HandleCompletion? ==> s.done[0].fd in s.io.open
  {
    hide Flight, KeepAlive.AsksToStay;
    if step.HandleCompletion? {
      var rest := s.(done := s.done[1..]);
      FirstDone(s);
      assert s.done[0].fd in Flight(rest) + multiset{s.done[0].fd};
    }
  }

  lemma StepAtTraced(s: State, step: Step, cfg: Config, log: Log, g: nat)
    requires cfg.pooled && Sane(s.io, cfg) && Enabled(s, step) && Owned(s) && AllTraced(s.io, log)
    requires FdOf(s, step) == Some(g) && g in Next(s, step, cfg).io.open
    ensures g in Logged(log, s, step, cfg) && Traced(Next(s, step, cfg).io, g, Logged(log, s, step, cfg)[g])
  {
    OwnedAt(s, step, cfg);
    hide Owned, Sane, Next, Logged, Enabled, Traced, Waits;
    if step.Accept? {
      AcceptAt(s, step, cfg, log);
    } else if step.Handle? {
      HandleAt(s, step, cfg, log);
    } else {
      CompletionAt(s, step, cfg, log);
    }
  }

  lemma StepTraced(s: State, step: Step, cfg: Config, log: Log)
    requires cfg.pooled && Sane(s.io, cfg) && Enabled(s, step) && Owned(s) && AllTraced(s.io, log)
    ensures AllTraced(Next(s, step, cfg).io, Logged(log, s, step, cfg))
  {
    hide Owned, Sane, Next, Logged, Enabled, Traced, Waits, FdOf;
    forall g | g in Next(s, step, cfg).io.open
      ensures g in Logged(log, s, step, cfg) && Traced(Next(s, step, cfg).io, g, Logged(log, s, step, cfg)[g])
    {
      if FdOf(s, step) == Some(g) {
        StepAtTraced(s, step, cfg, log, g);
      } else {
        StepElsewhere(s, step, cfg, g);
        assert SameAt(s.io, Next(s, step, cfg).io, g);
        LoggedElsewhere(log, s, step, cfg, g);
        SameStaysTraced(s.io, Next(s, step, cfg).io, g, log[g]);
      }
    }
  }

  // ---- ended connections keep their order -----------------------------------------------------------------

  predicate AllInOrder(log: Log) { forall fd :: fd in log ==> InOrder(log[fd]) }

  lemma StepAtInOrder(s: State, step: Step, cfg: Config, log: Log, g: nat)
    requires cfg.pooled && Sane(s.io, cfg) && Enabled(s, step) && FdOf(s, step) == Some(g)
    requires step.Handle? ==> Waits(s, g)
    requires !step.Accept? ==> g in log && InOrder(log[g]) && Follows(log[g], BufferOf(s.io, g))
    ensures g in Logged(log, s, step, cfg) && InOrder(Logged(log, s, step, cfg)[g])
  {
    hide Sane, CacheOk, AfterReadable, AfterRead, Follows, InOrder, KeepAlive.AsksToStay;
    match step
    case Accept(_, _) => EmptyInOrder();
    case Handle(_, _, readable, read) => if readable { ReadTraced(s.io, g, read, cfg, log[g]); }
    case HandleCompletion(read) => {
      var io := Reset(s.io, g).(armed := s.io.armed + {g});
      ResetSane(s.io, g, s.io.armed + {g}, cfg);
      if io.slots[g].conn.buffer != [] { ReadTraced(io, g, read, cfg, log[g]); }
    }
    case _ =>
  }

  lemma EmptyInOrder()
    ensures InOrder(History([], []))
  {
  }

  lemma TracedFollows(io: IO, fd: nat, log: Log)
    requires AllTraced(io, log) && fd in io.open
    ensures fd in log && Follows(log[fd], BufferOf(io, fd))
  {
    hide Follows;
    assert Traced(io, fd, log[fd]);
  }

  lemma StepInOrder(s: State, step: Step, cfg: Config, log: Log)
    requires cfg.pooled && Sane(s.io, cfg) && Enabled(s, step) && Owned(s) && AllTraced(s.io, log) && AllInOrder(log)
    ensures AllInOrder(Logged(log, s, step, cfg))
  {
    OwnedAt(s, step, cfg);
    hide Owned, Sane, Logged, Enabled, InOrder, Follows, AllTraced, Waits;
    forall g | g in Logged(log, s, step, cfg) ensures InOrder(Logged(log, s, step, cfg)[g]) {
      if FdOf(s, step) == Some(g) {
        if !step.Accept? { TracedFollows(s.io, g, log); }
        StepAtInOrder(s, step, cfg, log, g);
      } else {
        LoggedKeys(log, s, step, cfg, g);
        LoggedElsewhere(log, s, step, cfg, g);
      }
    }
  }

  lemma LoggedKeys(log: Log, s: State, step: Step, cfg: Config, g: nat)
    requires Enabled(s, step) && Sane(s.io, cfg) && FdOf(s, step) != Some(g) && g in Logged(log, s, step, cfg)
    ensures g in log
  {
    hide Sane, AfterRead, KeepAlive.AsksToStay;
  }

  lemma {:induction false} RunTraced(s: State, steps: seq<Step>, t: State, cfg: Config, log: Log)
    requires cfg.pooled && Sane(s.io, cfg) && Owned(s) && AllTraced(s.io, log) && AllInOrder(log)
    requires Leads(s, steps, t, cfg) && AllSafe(s, steps, cfg)
    ensures AllTraced(t.io, LogOf(log, s, steps, cfg)) && AllInOrder(LogOf(log, s, steps, cfg))
    decreases steps
  {
    hide Owned, Sane, Next, Enabled, Safe, AllTraced, AllInOrder, Logged;
    if steps != [] {
      StepOwned(s, steps[0], cfg);
      StepTraced(s, steps[0], cfg, log);
      StepInOrder(s, steps[0], cfg, log);
      NextSane(s, steps[0], cfg);
      RunTraced(Next(s, steps[0], cfg), steps[1..], t, cfg, Logged(log, s, steps[0], cfg));
    }
  }

  /** In every safe run the workers get requests in the order of the bytes, of connections that have ended too: what
    * was handed off is a prefix of the greedy cut of all bytes taken. */
  lemma HandedIsPrefix(steps: seq<Step>, t: State, cfg: Config, fd: nat)
    requires cfg.pooled && Sane(IDLE.io, cfg) && Leads(IDLE, steps, t, cfg) && AllSafe(IDLE, steps, cfg)
    requires fd in LogOf(map[], IDLE, steps, cfg)
    ensures var h := LogOf(map[], IDLE, steps, cfg)[fd]; h.handed <= CutAll(h.heard)
  {
    IdleIsOwned(cfg);
    RunTraced(IDLE, steps, t, cfg, map[]);
    assert InOrder(LogOf(map[], IDLE, steps, cfg)[fd]);
    hide LogOf, Leads, AllSafe, Sane, CutAll;
  }

  /** Of an open connection all of the cut is handed off, except what a slot set aside still holds. */
  lemma HandedInOrder(steps: seq<Step>, t: State, cfg: Config, fd: nat)
    requires cfg.pooled && Sane(IDLE.io, cfg) && Leads(IDLE, steps, t, cfg) && AllSafe(IDLE, steps, cfg)
    requires fd in t.io.open
    ensures var log := LogOf(map[], IDLE, steps, cfg);
            && fd in log
            && CutAll(log[fd].heard) == log[fd].handed + CutAll(BufferOf(t.io, fd))
            && (fd !in t.io.slots || Waits(t, fd) ==> log[fd].handed == CutAll(log[fd].heard))
            && Concat(log[fd].handed) <= log[fd].heard
  {
    IdleIsOwned(cfg);
    RunTraced(IDLE, steps, t, cfg, map[]);
    var h := LogOf(map[], IDLE, steps, cfg)[fd];
    assert Traced(t.io, fd, h);
    CutNothing([]) by { NothingIsIncomplete(); }
    hide LogOf, Leads, AllSafe, Sane, CutAll, Leftover;
    CutConserves(h.heard);
    ConcatBoth(h.handed, CutAll(BufferOf(t.io, fd)));
  }

  lemma {:induction false} StaysEmpty(s: State, steps: seq<Step>, t: State, cfg: Config)
    requires cfg.pooled && Sane(s.io, cfg) && NoneAside(s.io) && Owned(s) && Leads(s, steps, t, cfg)
    requires AllEmpty(s, steps, cfg)
    ensures NoneAside(t.io)
    decreases steps
  {
    hide Owned, Sane, Next, Enabled, Safe, Empties, NoneAside;
    if steps != [] {
      StepNoneAside(s, steps[0], cfg);
      StepOwned(s, steps[0], cfg);
      NextSane(s, steps[0], cfg);
      StaysEmpty(Next(s, steps[0], cfg), steps[1..], t, cfg);
    }
  }

  /** When every hand-off empties the buffer the workers get exactly the cut of the bytes received. */
  lemma HandedAll(steps: seq<Step>, t: State, cfg: Config, fd: nat)
    requires cfg.pooled && Sane(IDLE.io, cfg) && Leads(IDLE, steps, t, cfg) && AllEmpty(IDLE, steps, cfg)
    requires fd in t.io.open
    ensures var log := LogOf(map[], IDLE, steps, cfg); fd in log && log[fd].handed == CutAll(log[fd].heard)
  {
    IdleIsOwned(cfg);
    EmptyingRunsAreSafe(IDLE, steps, cfg);
    StaysEmpty(IDLE, steps, t, cfg);
    HandedInOrder(steps, t, cfg, fd);
    hide LogOf, Leads, AllSafe, AllEmpty, Sane, CutAll;
  }

  lemma {:induction false} ConcatBoth(a: seq<bytes>, b: seq<bytes>)
    ensures Concat(a + b) == Concat(a) + Concat(b)
    decreases |a|
  {
    if a == [] {
      assert a + b == b;
    } else {
      assert (a + b)[1..] == a[1..] + b;
      ConcatBoth(a[1..], b);
    }
  }

  // ---- every request handed off is complete -------------------------------------------------------------

  /** No buffer outgrows the limit, and every request queued or running is a complete one of its own length. */
  ghost predicate Whole(s: State, cfg: Config) {
    && (forall fd :: fd in s.io.slots ==> |s.io.slots[fd].conn.buffer| <= cfg.maxRequestSize)
    && (forall task :: task in s.io.tasks || task in s.running ==> StandsAlone(task.raw))
  }

  lemma {:induction false} ReceiveFits(buffer: bytes, recvs: seq<Recv>, bufsz: nat, max: nat)
    requires |buffer| <= max
    ensures var r := Receive(buffer, recvs, bufsz, max); r.Got? ==> |r.buffer| <= max
    decreases |recvs|
  {
    if recvs != [] {
      match recvs[0]
      case Bytes(chunk) => if |buffer + chunk| <= max { ReceiveFits(buffer + chunk, recvs[1..], bufsz, max); }
      case Interrupted => ReceiveFits(buffer, recvs[1..], bufsz, max);
      case _ =>
    }
  }

  lemma TurnIsWhole(c: Conn, closed: bool, deadline: bool, max: nat)
    requires c.buffer != [] && CacheOk(c, max) && |c.buffer| <= NPOS
    ensures var t := NextTurn(c, closed, deadline, max);
            && (t.Cut? ==> StandsAlone(t.raw) && |t.rest.buffer| <= |c.buffer|)
            && (t.Wait? ==> t.next.buffer == c.buffer)
  {
    hide Message.InspectionOf;
    if c.headKnown { CacheIsVerdict(c, max); }
    if Message.InspectionOf(c.buffer).framing == Message.Complete {
      Message.CompleteWithin(c.buffer);
      Message.CompleteAlone(c.buffer);
    }
  }

  /** A state without workers: what `Whole` says of the loop's part. */
  function LoopOnly(io: IO): State { State(io, {}, [], []) }

  lemma AfterTurnWhole(io: IO, fd: nat, t: Turn, accepts: bool, cfg: Config)
    requires fd in io.slots && Whole(LoopOnly(io), cfg)
    requires t.Cut? ==> StandsAlone(t.raw) && |t.rest.buffer| <= cfg.maxRequestSize
    requires t.Wait? ==> |t.next.buffer| <= cfg.maxRequestSize
    ensures Whole(LoopOnly(AfterTurn(io, fd, t, accepts)), cfg)
  {
    hide StandsAlone;
  }

  lemma SlotIsWhole(io: IO, fd: nat, cfg: Config)
    requires Whole(LoopOnly(io), cfg)
    ensures Whole(LoopOnly(WithSlot(io, fd)), cfg) && Whole(LoopOnly(Rearmed(WithSlot(io, fd), fd, true)), cfg)
    ensures |WithSlot(io, fd).slots[fd].conn.buffer| <= cfg.maxRequestSize
  {
    hide StandsAlone;
  }

  lemma RejectedIsWhole(io: IO, fd: nat, code: nat, cfg: Config)
    requires Whole(LoopOnly(io), cfg)
    ensures Whole(LoopOnly(Rejected(io, fd, code)), cfg)
  {
    hide StandsAlone;
  }

  lemma GrownIsWhole(io: IO, fd: nat, c: Conn, cfg: Config)
    requires fd in io.slots && Whole(LoopOnly(io), cfg) && |c.buffer| <= cfg.maxRequestSize
    ensures Whole(LoopOnly(WithConn(io, fd, c)), cfg)
  {
    hide StandsAlone;
  }

  lemma ReadableWhole(io: IO, fd: nat, read: Read, cfg: Config)
    requires cfg.pooled && Sane(io, cfg) && Whole(LoopOnly(io), cfg) && cfg.maxRequestSize <= NPOS
    ensures Whole(LoopOnly(AfterReadable(io, fd, read, cfg)), cfg)
  {
    hide CacheOk, NextTurn, Receive, AfterTurn, StandsAlone, Whole;
    OpeningIsSane(cfg.maxRequestSize);
    SlotIsWhole(io, fd, cfg);
    var slotted := WithSlot(io, fd);
    var c := slotted.slots[fd].conn;
    ReceiveFits(c.buffer, read.recvs, read.bufsz, cfg.maxRequestSize);
    var r := Receive(c.buffer, read.recvs, read.bufsz, cfg.maxRequestSize);
    RejectedIsWhole(slotted, fd, 413, cfg);
    RejectedIsWhole(slotted, fd, 400, cfg);
    if r.Got? && r.buffer != [] {
      var grown := c.(buffer := r.buffer);
      CacheSurvives(c, r.buffer, cfg.maxRequestSize);
      TurnIsWhole(grown, r.closed, read.deadline, cfg.maxRequestSize);
      GrownIsWhole(slotted, fd, grown, cfg);
      AfterTurnWhole(WithConn(slotted, fd, grown), fd,
                     NextTurn(grown, r.closed, read.deadline, cfg.maxRequestSize), read.poolAccepts, cfg);
    }
  }

  lemma CompletionWhole(io: IO, c: Completion, read: Read, cfg: Config)
    requires cfg.pooled && Sane(io, cfg) && Whole(LoopOnly(io), cfg) && cfg.maxRequestSize <= NPOS
    ensures Whole(LoopOnly(AfterCompletion(io, c, read, cfg)), cfg)
  {
    hide CacheOk, Sane, AfterReadable, StandsAlone;
    if c.keepAlive {
      var reset := Reset(io, c.fd).(armed := io.armed + {c.fd});
      ResetSane(io, c.fd, io.armed + {c.fd}, cfg);
      if reset.slots[c.fd].conn.buffer != [] { ReadableWhole(reset, c.fd, read, cfg); }
    }
  }

  lemma StepWhole(s: State, step: Step, cfg: Config)
    requires cfg.pooled && Sane(s.io, cfg) && Enabled(s, step) && Whole(s, cfg) && cfg.maxRequestSize <= NPOS
    ensures Whole(Next(s, step, cfg), cfg)
  {
    hide Sane, AfterReadable, AfterCompletion, StandsAlone, KeepAlive.AsksToStay;
    match step
    case Handle(fd, _, _, read) => ReadableWhole(s.io, fd, read, cfg);
    case HandleCompletion(read) => CompletionWhole(s.io, s.done[0], read, cfg);
    case _ =>
  }

  lemma {:induction false} RunWhole(s: State, steps: seq<Step>, t: State, cfg: Config)
    requires cfg.pooled && Sane(s.io, cfg) && Whole(s, cfg) && cfg.maxRequestSize <= NPOS && Leads(s, steps, t, cfg)
    ensures Whole(t, cfg)
    decreases steps
  {
    hide Whole, Sane, Next, Enabled;
    if steps != [] {
      StepWhole(s, steps[0], cfg);
      NextSane(s, steps[0], cfg);
      RunWhole(Next(s, steps[0], cfg), steps[1..], t, cfg);
    }
  }

  /** In every run, safe or not, what is queued or running is a complete request of exactly its own length. */
  lemma TasksStandAlone(steps: seq<Step>, t: State, cfg: Config)
    requires cfg.pooled && Sane(IDLE.io, cfg) && Leads(IDLE, steps, t, cfg) && cfg.maxRequestSize <= NPOS
    ensures forall task :: task in t.io.tasks || task in t.running ==> StandsAlone(task.raw)
  {
    RunWhole(IDLE, steps, t, cfg);
  }
}
