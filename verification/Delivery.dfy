/** Without a pool, from the sockets' side: what each one handed over is what its connection received, byte for byte. */
module Delivery {
  import opened Bytes
  import opened Connection
  import opened LoopState
  import opened Inline

  /** Of the last connection on a descriptor: every byte its reads took from the socket. */
  type Log = map<nat, bytes>

  function LoggedAccepts(log: Log, accepts: seq<Accept>): Log
    decreases |accepts|
  {
    if accepts == [] then log
    else match accepts[0]
      case Accepted(fd, _) => LoggedAccepts(log[fd := []], accepts[1..])
      case Retry => LoggedAccepts(log, accepts[1..])
      case NoMore => log
  }

  function LoggedEvent(log: Log, event: Event): Log {
    match event
    case Notify(_) => log
    case Listener(accepts) => LoggedAccepts(log, accepts)
    case Client(fd, _, readable, read) =>
      if readable && fd in log then log[fd := log[fd] + Drained(read.recvs, read.bufsz)] else log
  }

  function LoggedEvents(log: Log, events: seq<Event>): Log
    decreases |events|
  {
    if events == [] then log else LoggedEvents(LoggedEvent(log, events[0]), events[1..])
  }

  /** The log of a whole run, from its batches alone. */
  function LogOf(log: Log, batches: seq<Batch>): Log
    decreases |batches|
  {
    if batches == [] then log else LogOf(LoggedEvents(log, batches[0].events), batches[1..])
  }

  /** Every connection has received what its socket handed over. */
  predicate Heard(io: IO, log: Log) {
    forall fd :: fd in io.slots ==> fd in log && io.slots[fd].received == log[fd]
  }

  /** The state after a call on `fd`: its slot is gone or has received `got` more, and no other has changed. */
  predicate Received(io: IO, after: IO, fd: nat, got: bytes) {
    && after.slots.Keys <= io.slots.Keys
    && (forall g :: g in after.slots && g != fd ==> after.slots[g] == io.slots[g])
    && (fd in after.slots ==> after.slots[fd].received == io.slots[fd].received + got)
  }

  lemma ReadReceives(io: IO, fd: nat, read: Read, cfg: Config)
    requires fd in io.slots && !cfg.pooled && Sane(io, cfg)
    ensures Received(io, AfterReadable(io, fd, read, cfg), fd, Drained(read.recvs, read.bufsz))
  {
    hide Receive, ServeLoop, CacheOk, Drained;
    var c := io.slots[fd].conn;
    var r := Receive(c.buffer, read.recvs, read.bufsz, cfg.maxRequestSize);
    if r.Got? {
      GotIsDrained(c.buffer, read.recvs, read.bufsz, cfg.maxRequestSize);
      CacheSurvives(c, r.buffer, cfg.maxRequestSize);
      assert r.buffer[|c.buffer|..] == Drained(read.recvs, read.bufsz);
    }
  }

  lemma ClientReceives(io: IO, fd: nat, hup: bool, readable: bool, read: Read, cfg: Config)
    requires fd in io.slots && !cfg.pooled && Sane(io, cfg)
    ensures var got := if readable then Drained(read.recvs, read.bufsz) else [];
            Received(io, AfterClient(io, fd, hup, readable, read, cfg), fd, got)
  {
    hide AfterReadable, Sane, Drained;
    if readable { ReadReceives(io, fd, read, cfg); }
  }

  lemma {:induction false} AcceptsHeard(io: IO, accepts: seq<Accept>, cfg: Config, log: Log)
    requires Heard(io, log) && io.slots.Keys <= io.open && AcceptsFresh(io, accepts, cfg)
    ensures Heard(AfterAccepts(io, accepts, cfg), LoggedAccepts(log, accepts))
    decreases |accepts|
  {
    if accepts != [] {
      match accepts[0]
      case Accepted(fd, registered) =>
        AcceptsHeard(AfterAccept(io, fd, registered, cfg), accepts[1..], cfg, log[fd := []]);
      case Retry => AcceptsHeard(io, accepts[1..], cfg, log);
      case NoMore =>
    }
  }

  /** What a call on `fd` received belongs at the end of its log. */
  lemma ReceivedIsHeard(io: IO, after: IO, fd: nat, got: bytes, log: Log)
    requires Heard(io, log) && fd in io.slots && Received(io, after, fd, got)
    ensures Heard(after, log[fd := log[fd] + got])
    ensures got == [] ==> Heard(after, log)
  {
    assert log[fd] + [] == log[fd];
    forall g | g in after.slots ensures g in io.slots { assert g in after.slots.Keys; }
  }

  lemma ClientHeard(io: IO, event: Event, cfg: Config, log: Log)
    requires event.Client? && event.fd in io.slots && !cfg.pooled && Sane(io, cfg) && Heard(io, log)
    ensures Heard(AfterEvent(io, event, cfg), LoggedEvent(log, event))
  {
    hide AfterClient, Sane, Drained, Received;
    var (fd, read) := (event.fd, event.read);
    var got := if event.readable then Drained(read.recvs, read.bufsz) else [];
    ClientReceives(io, fd, event.hup, event.readable, read, cfg);
    ReceivedIsHeard(io, AfterEvent(io, event, cfg), fd, got, log);
  }

  lemma EventHeard(io: IO, event: Event, cfg: Config, log: Log)
    requires Accounted(io, cfg) && !cfg.pooled && Sane(io, cfg) && Heard(io, log)
    requires event.Client? ==> event.fd in io.open
    requires event.Listener? ==> AcceptsFresh(io, event.accepts, cfg)
    ensures Heard(AfterEvent(io, event, cfg), LoggedEvent(log, event))
  {
    SlotKeysAreOpen(io, cfg);
    hide Accounted, AfterClient, AfterAccepts, Sane, LoggedAccepts, AcceptsFresh, Heard;
    match event
    case Notify(_) => NoCompletions(io, cfg);
    case Listener(accepts) => AcceptsHeard(io, accepts, cfg, log);
    case Client(fd, _, _, _) => ClientHeard(io, event, cfg, log);
  }

  lemma NoCompletions(io: IO, cfg: Config)
    requires Accounted(io, cfg)
    ensures io.(completed := []) == io && io.completed == []
  {
    hide Faithful;
  }

  lemma {:induction false} EventsHeard(io: IO, events: seq<Event>, cfg: Config, log: Log)
    requires Accounted(io, cfg) && !cfg.pooled && Sane(io, cfg) && Heard(io, log)
    requires Reported(events, io.open) && KernelOk(io, events, cfg)
    ensures Heard(AfterEvents(io, events, cfg), LoggedEvents(log, events))
    decreases |events|
  {
    hide Accounted, Sane, Heard, Reported, KernelOk, AcceptsFresh, AfterEvent, LoggedEvent;
    if events != [] {
      assert events[0].Client? ==> events[0].fd in io.open by { ReportedRest(events, io.open, io.open); }
      KernelStep(io, events, cfg);
      EventAccounted(io, events[0], cfg);
      EventHeard(io, events[0], cfg, log);
      ReportedRest(events, io.open, AfterEvent(io, events[0], cfg).open);
      EventsHeard(AfterEvent(io, events[0], cfg), events[1..], cfg, LoggedEvent(log, events[0]));
      EventsStep(io, events, cfg);
    }
  }

  lemma SweptHeard(io: IO, fds: set<nat>, log: Log)
    requires Heard(io, log)
    ensures Heard(Swept(io, fds), log)
  {
  }

  lemma {:induction false} RunHeard(io: IO, batches: seq<Batch>, end: IO, cfg: Config, log: Log)
    requires Accounted(io, cfg) && !cfg.pooled && Sane(io, cfg) && Heard(io, log) && Runs(io, batches, end, cfg)
    ensures Heard(end, LogOf(log, batches))
    decreases |batches|
  {
    if batches != [] {
      EventsAccounted(io, batches[0].events, cfg);
      EventsHeard(io, batches[0].events, cfg, log);
      var after := AfterEvents(io, batches[0].events, cfg);
      var next := LoggedEvents(log, batches[0].events);
      assert Stale(after, batches[0].expired) <= after.open;
      SweptAccounted(after, Stale(after, batches[0].expired), cfg);
      SweptHeard(after, Stale(after, batches[0].expired), next);
      hide Accounted, AfterEvents, Sane, KernelOk, Heard, LoggedEvents;
      RunHeard(AfterDispatch(io, batches[0], cfg), batches[1..], end, cfg, next);
    }
  }

  /**
   * In every run each open connection has received exactly what its socket handed over since it was accepted, and was
   * served the requests these bytes hold.
   */
  lemma DeliveredIsServed(batches: seq<Batch>, io: IO, cfg: Config, fd: nat)
    requires !cfg.pooled && Sane(START, cfg) && Runs(START, batches, io, cfg) && fd in io.open
    ensures var log := LogOf(map[], batches);
            && fd in io.slots && fd in log
            && io.slots[fd].received == log[fd] && io.slots[fd].served == CutAll(log[fd])
            && io.slots[fd].conn == AtRest(Leftover(log[fd]))
  {
    StartIsAccounted(cfg);
    RunHeard(START, batches, io, cfg, map[]);
    RunsAccounted(START, batches, io, cfg);
    SlotKeysAreOpen(io, cfg);
    SlotIsFaithful(io, fd, cfg);
    hide Accounted, Runs, LogOf, CutAll, Leftover, AtRest, CacheOk;
  }
}
