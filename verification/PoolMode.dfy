/** The loop with a pool: who owns each descriptor, in every interleaving of the loop and the workers. */
module PoolMode {
  import opened Bytes
  import opened Connection
  import KeepAlive
  import opened LoopState

  /** The loop's state with what is outside it: events `reported` but not yet handled, requests `running` on
    * workers, and completions `done` that a drain has taken but not yet handled. */
  datatype State = State(io: IO, reported: set<nat>, running: seq<Task>, done: seq<Completion>)

  datatype Step =
    | Accept(fd: nat, registered: bool)
    | Report(fds: set<nat>)
    | Handle(fd: nat, hup: bool, readable: bool, read: Read)
    | TakeCompletions
    | HandleCompletion(read: Read)
    | Sweep(expired: set<nat>)
    | WorkerTakes
    | WorkerFinishes(i: nat, keepAlive: bool)

  /** One-shot registrations: only armed descriptors are reported, and a report disarms. The loop thread does one
    * thing at a time; workers may move between any two of its steps. A request that does not ask for it is never
    * kept alive; the server's setting and the handler's response may end any connection. */
  predicate Enabled(s: State, step: Step) {
    match step
    case Accept(fd, _) => fd !in s.io.open && s.done == []
    case Report(fds) => fds <= s.io.armed && s.reported == {} && s.done == []
    case Handle(fd, _, _, _) => fd in s.reported && s.done == []
    case TakeCompletions => s.done == []
    case HandleCompletion(_) => s.done != []
    case Sweep(_) => s.reported == {} && s.done == []
    case WorkerTakes => s.io.tasks != []
    case WorkerFinishes(i, keepAlive) => i < |s.running| && (keepAlive ==> KeepAlive.AsksToStay(s.running[i].raw))
  }

  function Next(s: State, step: Step, cfg: Config): State
    requires Enabled(s, step) && Sane(s.io, cfg)
  {
    match step
    case Accept(fd, registered) => s.(io := AfterAccept(s.io, fd, registered, cfg))
    case Report(fds) => s.(io := s.io.(armed := s.io.armed - fds), reported := fds)
    case Handle(fd, hup, readable, read) =>
      s.(io := AfterClient(s.io, fd, hup, readable, read, cfg), reported := s.reported - {fd})
    case TakeCompletions => s.(io := s.io.(completed := []), done := s.io.completed)
    case HandleCompletion(read) => s.(io := AfterCompletion(s.io, s.done[0], read, cfg), done := s.done[1..])
    case Sweep(expired) => s.(io := Swept(s.io, Stale(s.io, expired)))
    case WorkerTakes => s.(io := s.io.(tasks := s.io.tasks[1..]), running := s.running + [s.io.tasks[0]])
    case WorkerFinishes(i, keepAlive) =>
      s.(io := s.io.(completed := s.io.completed + [Completion(s.running[i].fd, keepAlive)],
                     handled := s.io.handled + 1),
         running := s.running[..i] + s.running[i + 1..])
  }

  // ---- ownership --------------------------------------------------------------------------------------------

  function TaskFds(tasks: seq<Task>): seq<nat> { seq(|tasks|, i requires 0 <= i < |tasks| => tasks[i].fd) }
  function CompletionFds(cs: seq<Completion>): seq<nat> { seq(|cs|, i requires 0 <= i < |cs| => cs[i].fd) }

  /** Descriptors out of the loop's hands: queued, running, completed or being drained. */
  function Flight(s: State): multiset<nat> {
    multiset(TaskFds(s.io.tasks)) + multiset(TaskFds(s.running))
    + multiset(CompletionFds(s.io.completed)) + multiset(CompletionFds(s.done))
  }

  predicate Waits(s: State, fd: nat) { fd in s.io.slots && !s.io.slots[fd].conn.dispatching }

  predicate Books(io: IO) { io.active == |io.open| && io.accepted == io.closed + |io.open| && !io.misused }

  /** Ownership, for any account `flight` of what is out of the loop's hands. */
  ghost predicate OwnedBy(s: State, flight: multiset<nat>) {
    && Books(s.io)
    && (forall fd :: fd in flight ==> flight[fd] == 1 && fd in s.io.open && !Waits(s, fd))
    && (forall fd :: fd in s.io.slots ==> fd in s.io.open && (Waits(s, fd) || fd in flight))
    && (forall fd :: fd in s.io.open ==> Waits(s, fd) || fd in flight)
    && (forall fd :: fd in s.io.armed || fd in s.reported ==> Waits(s, fd))
    && s.io.armed !! s.reported
  }

  /** Every open descriptor either waits in its slot or is in flight exactly once; only waiting ones can be reported. */
  ghost predicate Owned(s: State) { OwnedBy(s, Flight(s)) }

  // ---- how each step moves the flight --------------------------------------------------------------------------

  lemma SnocFds(tasks: seq<Task>, t: Task, cs: seq<Completion>, c: Completion)
    ensures TaskFds(tasks + [t]) == TaskFds(tasks) + [t.fd]
    ensures CompletionFds(cs + [c]) == CompletionFds(cs) + [c.fd]
  {
  }

  lemma FirstFds(tasks: seq<Task>, cs: seq<Completion>)
    ensures tasks != [] ==> TaskFds(tasks) == [tasks[0].fd] + TaskFds(tasks[1..])
    ensures cs != [] ==> CompletionFds(cs) == [cs[0].fd] + CompletionFds(cs[1..])
  {
  }

  lemma RemovedFds(tasks: seq<Task>, i: nat)
    requires i < |tasks|
    ensures multiset(TaskFds(tasks)) == multiset(TaskFds(tasks[..i] + tasks[i + 1..])) + multiset{tasks[i].fd}
  {
    var fds := TaskFds(tasks);
    assert fds == fds[..i] + [fds[i]] + fds[i + 1..];
    assert TaskFds(tasks[..i] + tasks[i + 1..]) == fds[..i] + fds[i + 1..];
  }

  lemma TakeKeepsFlight(s: State, cfg: Config)
    requires Enabled(s, WorkerTakes) && Sane(s.io, cfg)
    ensures Flight(Next(s, WorkerTakes, cfg)) == Flight(s)
  {
    FirstFds(s.io.tasks, []);
    SnocFds(s.running, s.io.tasks[0], [], Completion(0, false));
  }

  lemma FinishKeepsFlight(s: State, i: nat, keepAlive: bool, cfg: Config)
    requires Enabled(s, WorkerFinishes(i, keepAlive)) && Sane(s.io, cfg)
    ensures Flight(Next(s, WorkerFinishes(i, keepAlive), cfg)) == Flight(s)
  {
    hide KeepAlive.AsksToStay;
    SnocFds([], Task(0, []), s.io.completed, Completion(s.running[i].fd, keepAlive));
    RemovedFds(s.running, i);
  }

  lemma WorkersKeepFlight(s: State, step: Step, cfg: Config)
    requires Enabled(s, step) && Sane(s.io, cfg)
    requires step.WorkerTakes? || step.WorkerFinishes? || step.TakeCompletions?
    ensures Flight(Next(s, step, cfg)) == Flight(s)
  {
    match step
    case WorkerTakes => TakeKeepsFlight(s, cfg);
    case WorkerFinishes(i, keepAlive) => FinishKeepsFlight(s, i, keepAlive, cfg);
    case TakeCompletions =>
  }

  lemma OwnedSame(s: State, t: State, flight: multiset<nat>)
    requires OwnedBy(s, flight) && t.reported == s.reported
    requires t.io == s.io.(tasks := t.io.tasks, completed := t.io.completed, handled := t.io.handled)
    ensures OwnedBy(t, flight)
  {
    assert forall fd :: Waits(t, fd) <==> Waits(s, fd);
  }

  lemma WorkersKeepOwned(s: State, step: Step, cfg: Config)
    requires Enabled(s, step) && Sane(s.io, cfg) && Owned(s)
    requires step.WorkerTakes? || step.WorkerFinishes? || step.TakeCompletions?
    ensures Owned(Next(s, step, cfg))
  {
    hide Flight, OwnedBy, Sane, KeepAlive.AsksToStay, AfterClient, AfterCompletion, AfterAccept, Swept;
    WorkersKeepFlight(s, step, cfg);
    OwnedSame(s, Next(s, step, cfg), Flight(s));
  }

  // ---- the loop's steps -----------------------------------------------------------------------------------------

  /** The turn of the framing loop that a read leads to, if it leads to one. */
  function TurnOf(io: IO, fd: nat, read: Read, cfg: Config): (t: Option<Turn>)
    requires Sane(io, cfg)
  {
    hide CacheOk, NextTurn, Receive;
    OpeningIsSane(cfg.maxRequestSize);
    var c := WithSlot(io, fd).slots[fd].conn;
    match Receive(c.buffer, read.recvs, read.bufsz, cfg.maxRequestSize)
    case Got(buffer, closed) =>
      CacheSurvives(c, buffer, cfg.maxRequestSize);
      if buffer == [] then None else Some(NextTurn(c.(buffer := buffer), closed, read.deadline, cfg.maxRequestSize))
    case _ => None
  }

  /** The read completes a request and the pool takes it. */
  predicate HandsOff(io: IO, fd: nat, read: Read, cfg: Config)
    requires Sane(io, cfg)
  {
    var t := TurnOf(io, fd, read, cfg);
    t.Some? && t.value.Cut? && read.poolAccepts
  }

  lemma GoneOwned(s: State, fd: nat, code: nat, flight: multiset<nat>)
    requires OwnedBy(s, flight) && Waits(s, fd) && fd !in s.reported
    ensures OwnedBy(s.(io := Gone(s.io, fd)), flight) && OwnedBy(s.(io := HungUp(s.io, fd)), flight)
    ensures OwnedBy(s.(io := Rejected(s.io, fd, code)), flight)
  {
    var gone := s.(io := Gone(s.io, fd));
    assert forall g :: Waits(gone, g) <==> g != fd && Waits(s, g);
    hide Waits;
    OnlyCounters(gone, s.(io := HungUp(s.io, fd)), flight);
    OnlyCounters(gone, s.(io := Rejected(s.io, fd, code)), flight);
  }

  /** Counters and statuses do not matter to ownership. */
  lemma OnlyCounters(s: State, t: State, flight: multiset<nat>)
    requires OwnedBy(s, flight) && t.reported == s.reported
    requires t.io == s.io.(handled := t.io.handled, refused := t.io.refused)
    ensures OwnedBy(t, flight)
  {
    assert forall fd :: Waits(t, fd) <==> Waits(s, fd);
  }

  lemma ArmedOwned(s: State, fd: nat, ses: Session, flight: multiset<nat>)
    requires OwnedBy(s, flight) && Waits(s, fd) && fd !in s.reported && !ses.conn.dispatching
    ensures OwnedBy(s.(io := s.io.(slots := s.io.slots[fd := ses])), flight)
    ensures OwnedBy(s.(io := s.io.(slots := s.io.slots[fd := ses], armed := s.io.armed + {fd})), flight)
  {
  }

  /** The slot of a request that is handed off: dropped, or kept for its leftover bytes. */
  ghost predicate SetAside(io: IO, fd: nat, after: IO) {
    && fd !in (after.slots.Keys - io.slots.Keys)
    && after == io.(slots := after.slots) && after.slots - {fd} == io.slots - {fd}
    && (fd in after.slots ==> after.slots[fd].conn.dispatching)
  }

  lemma HandedOffOwned(s: State, fd: nat, raw: bytes, io: IO, flight: multiset<nat>)
    requires OwnedBy(s, flight) && Waits(s, fd) && fd !in s.reported && SetAside(s.io, fd, io)
    ensures OwnedBy(s.(io := HandedOff(io, fd, raw, true)), flight + multiset{fd}) <==> fd !in s.io.armed
  {
    var t := s.(io := HandedOff(io, fd, raw, true));
    assert fd in flight + multiset{fd} && !Waits(t, fd);
    forall g | g != fd ensures Waits(t, g) <==> Waits(s, g) {
      assert g in io.slots <==> g in (io.slots - {fd});
      assert g in s.io.slots <==> g in (s.io.slots - {fd});
      if g in s.io.slots { assert io.slots[g] == (io.slots - {fd})[g] == (s.io.slots - {fd})[g]; }
    }
    var all := flight + multiset{fd};
    assert forall g :: all[g] == flight[g] + (if g == fd then 1 else 0);
    assert fd !in flight;
    assert Books(t.io);
    assert forall g :: g in all ==> all[g] == 1 && g in t.io.open && !Waits(t, g);
    assert forall g :: g in t.io.slots && g != fd ==> g in s.io.slots by {
      assert forall g :: g in t.io.slots && g != fd ==> g in (io.slots - {fd});
    }
    assert forall g :: g in t.io.slots ==> g in t.io.open && (Waits(t, g) || g in all);
    assert forall g :: g in t.io.open ==> Waits(t, g) || g in all;
  }

  lemma TurnedAwayOwned(s: State, fd: nat, raw: bytes, io: IO, flight: multiset<nat>)
    requires OwnedBy(s, flight) && Waits(s, fd) && fd !in s.reported && SetAside(s.io, fd, io)
    ensures HandedOff(io, fd, raw, false) == Rejected(s.io, fd, 503)
  {
  }

  lemma TurnOwned(s: State, fd: nat, t: Turn, accepts: bool, flight: multiset<nat>)
    requires OwnedBy(s, flight) && Waits(s, fd) && fd !in s.reported
    requires t.Wait? ==> !t.next.dispatching
    ensures var after := s.(io := AfterTurn(s.io, fd, t, accepts));
            if t.Cut? && accepts then OwnedBy(after, flight + multiset{fd}) <==> fd !in s.io.armed
            else OwnedBy(after, flight)
  {
    hide OwnedBy;
    match t
    case Wait(next) => ArmedOwned(s, fd, s.io.slots[fd].(conn := next), flight);
    case Refuse(code) => GoneOwned(s, fd, code, flight);
    case Cut(raw, rest) => {
      var io := if rest.buffer != [] then WithConn(s.io, fd, rest.(dispatching := true)) else Dropped(s.io, fd);
      assert io.slots - {fd} == s.io.slots - {fd};
      assert SetAside(s.io, fd, io);
      HandedOffOwned(s, fd, raw, io, flight);
      TurnedAwayOwned(s, fd, raw, io, flight);
      GoneOwned(s, fd, 503, flight);
    }
  }

  lemma TurnKeepsFlag(c: Conn, closed: bool, deadline: bool, max: nat)
    requires c.buffer != [] && CacheOk(c, max)
    ensures var t := NextTurn(c, closed, deadline, max); t.Wait? ==> t.next.dispatching == c.dispatching
  {
    hide Message.InspectionOf;
  }

  lemma ReadableOwned(s: State, fd: nat, read: Read, cfg: Config, flight: multiset<nat>)
    requires cfg.pooled && Sane(s.io, cfg) && OwnedBy(s, flight) && Waits(s, fd) && fd !in s.reported
    ensures var after := s.(io := AfterReadable(s.io, fd, read, cfg));
            if HandsOff(s.io, fd, read, cfg) then OwnedBy(after, flight + multiset{fd}) <==> fd !in s.io.armed
            else OwnedBy(after, flight)
  {
    hide CacheOk, NextTurn, Receive, OwnedBy, AfterTurn;
    OpeningIsSane(cfg.maxRequestSize);
    var ses := s.io.slots[fd];
    match Receive(ses.conn.buffer, read.recvs, read.bufsz, cfg.maxRequestSize)
    case TooLarge(_) => GoneOwned(s, fd, 413, flight);
    case Failed(_) => GoneOwned(s, fd, 400, flight);
    case Got(buffer, closed) => {
      var c := ses.conn.(buffer := buffer);
      CacheSurvives(ses.conn, buffer, cfg.maxRequestSize);
      if buffer == [] {
        ArmedOwned(s, fd, ses, flight);
        assert s.io.slots[fd := ses] == s.io.slots;
      } else {
        var t := NextTurn(c, closed, read.deadline, cfg.maxRequestSize);
        TurnKeepsFlag(c, closed, read.deadline, cfg.maxRequestSize);
        ArmedOwned(s, fd, ses.(conn := c), flight);
        TurnOwned(s.(io := WithConn(s.io, fd, c)), fd, t, read.poolAccepts, flight);
      }
    }
  }

  // ---- what a read adds to the flight -----------------------------------------------------------------------------

  lemma TurnTasks(io: IO, fd: nat, t: Turn, accepts: bool)
    requires fd in io.slots
    ensures var after := AfterTurn(io, fd, t, accepts);
            && after.completed == io.completed
            && after.tasks == (if t.Cut? && accepts then io.tasks + [Task(fd, t.raw)] else io.tasks)
            && (t.Cut? && accepts ==> (fd in after.slots <==> t.rest.buffer != []))
  {
  }

  lemma ReadableTasks(io: IO, fd: nat, read: Read, cfg: Config)
    requires cfg.pooled && Sane(io, cfg)
    ensures var after := AfterReadable(io, fd, read, cfg);
            && after.completed == io.completed
            && (if HandsOff(io, fd, read, cfg) then after.tasks == io.tasks + [Task(fd, TurnOf(io, fd, read,
                    cfg).value.raw)]
                else after.tasks == io.tasks)
            && (HandsOff(io, fd, read, cfg) ==>
                  (fd in after.slots <==> TurnOf(io, fd, read, cfg).value.rest.buffer != []))
  {
    hide CacheOk, NextTurn, Receive, AfterTurn;
    OpeningIsSane(cfg.maxRequestSize);
    var slotted := WithSlot(io, fd);
    var c := slotted.slots[fd].conn;
    var r := Receive(c.buffer, read.recvs, read.bufsz, cfg.maxRequestSize);
    if r.Got? && r.buffer != [] {
      var grown := c.(buffer := r.buffer);
      CacheSurvives(c, r.buffer, cfg.maxRequestSize);
      TurnTasks(WithConn(slotted, fd, grown), fd,
                NextTurn(grown, r.closed, read.deadline, cfg.maxRequestSize), read.poolAccepts);
    }
  }

  /** A hand-off that keeps leftover bytes in the slot. */
  predicate LeavesBytes(io: IO, fd: nat, read: Read, cfg: Config)
    requires Sane(io, cfg)
  {
    HandsOff(io, fd, read, cfg) && TurnOf(io, fd, read, cfg).value.rest.buffer != []
  }

  /** The slot as `RearmConnection` resets it. */
  function Reset(io: IO, fd: nat): IO {
    var slotted := WithSlot(io, fd);
    WithConn(slotted, fd, Conn(slotted.slots[fd].conn.buffer, 0, false, false))
  }

  lemma ResetSane(io: IO, fd: nat, armed: set<nat>, cfg: Config)
    requires Sane(io, cfg)
    ensures Sane(Reset(io, fd).(armed := armed), cfg)
  {
    hide CacheOk;
    OpeningIsSane(cfg.maxRequestSize);
    ResetIsSane(WithSlot(io, fd).slots[fd].conn.buffer, cfg.maxRequestSize);
  }

  /** Re-arming hands leftover bytes off at once, as a further request. */
  predicate RearmHandsOff(io: IO, fd: nat, read: Read, cfg: Config)
    requires Sane(io, cfg)
  {
    hide CacheOk, Sane;
    ResetSane(io, fd, io.armed, cfg);
    Reset(io, fd).slots[fd].conn.buffer != [] && HandsOff(Reset(io, fd), fd, read, cfg)
  }

  /** The two places where the code loses track of a descriptor. */
  predicate Safe(s: State, step: Step, cfg: Config)
    requires Sane(s.io, cfg)
  {
    match step
    case Handle(fd, hup, readable, read) => !(hup && readable && LeavesBytes(s.io, fd, read, cfg))
    case HandleCompletion(read) => s.done != [] && s.done[0].keepAlive ==> !RearmHandsOff(s.io, s.done[0].fd, read, cfg)
    case _ => true
  }

  // ---- each step, exactly -----------------------------------------------------------------------------------------

  lemma TakenOff(s: State, fd: nat, flight: multiset<nat>)
    requires OwnedBy(s, flight)
    ensures OwnedBy(s.(reported := s.reported - {fd}), flight)
  {
  }

  /** Closing a descriptor that is in flight is not recovered from. */
  lemma ClosedInFlight(s: State, fd: nat, flight: multiset<nat>)
    requires fd in flight
    ensures !OwnedBy(s.(io := HungUp(s.io, fd)), flight)
  {
    assert fd !in HungUp(s.io, fd).open;
  }

  lemma HandleOwned(s: State, step: Step, cfg: Config)
    requires cfg.pooled && Sane(s.io, cfg) && step.Handle? && Enabled(s, step) && Owned(s)
    ensures Owned(Next(s, step, cfg)) <==> Safe(s, step, cfg)
  {
    var (fd, read) := (step.fd, step.read);
    var flight := Flight(s);
    var here := s.(reported := s.reported - {fd});
    assert Waits(s, fd) && fd !in s.io.armed;
    TakenOff(s, fd, flight);
    if step.readable {
      ReadableOwned(here, fd, read, cfg, flight);
      ReadableTasks(s.io, fd, read, cfg);
    }
    HandleSplit(s, step, cfg, flight);
  }

  /** The flight after an event, from what it added to the queue. */
  lemma FlightAdds(s: State, t: State, fd: nat)
    requires t.running == s.running && t.done == s.done && t.io.completed == s.io.completed
    ensures t.io.tasks == s.io.tasks ==> Flight(t) == Flight(s)
    ensures (exists raw :: t.io.tasks == s.io.tasks + [Task(fd, raw)]) ==> Flight(t) == Flight(s) + multiset{fd}
  {
    if raw :| t.io.tasks == s.io.tasks + [Task(fd, raw)] {
      SnocFds(s.io.tasks, Task(fd, raw), [], Completion(0, false));
    }
  }

  lemma HandleSplit(s: State, step: Step, cfg: Config, flight: multiset<nat>)
    requires cfg.pooled && Sane(s.io, cfg) && step.Handle? && Enabled(s, step) && flight == Flight(s)
    requires var here := s.(reported := s.reported - {step.fd});
             && OwnedBy(here, flight) && Waits(here, step.fd) && step.fd !in here.io.armed
             && (step.readable ==>
                   var after := AfterReadable(s.io, step.fd, step.read, cfg);
                   && after.completed == s.io.completed
                   && (if HandsOff(s.io, step.fd, step.read, cfg) then
                         && OwnedBy(here.(io := after), flight + multiset{step.fd})
                         && after.tasks == s.io.tasks + [Task(step.fd, TurnOf(s.io, step.fd, step.read, cfg).value.raw)]
                         && (step.fd in after.slots <==> TurnOf(s.io, step.fd, step.read, cfg).value.rest.buffer != [])
                       else
                         OwnedBy(here.(io := after), flight) && after.tasks == s.io.tasks))
    ensures Owned(Next(s, step, cfg)) <==> Safe(s, step, cfg)
  {
    var fd := step.fd;
    var here := s.(reported := s.reported - {fd});
    assert fd !in flight && fd !in here.reported;
    hide AfterReadable, OwnedBy, Flight, HandsOff, TurnOf, Sane;
    var after := if step.readable then AfterReadable(s.io, fd, step.read, cfg) else s.io;
    var t := here.(io := after);
    FlightAdds(s, t, fd);
    FlightAdds(s, Next(s, step, cfg), fd);
    if step.hup && fd in after.slots {
      assert Next(s, step, cfg) == t.(io := HungUp(after, fd));
      if step.readable && HandsOff(s.io, fd, step.read, cfg) {
        ClosedInFlight(t, fd, flight + multiset{fd});
      } else {
        SlotWaits(t, fd, flight);
        GoneOwned(t, fd, 0, flight);
      }
    } else {
      assert Next(s, step, cfg) == t;
    }
  }

  lemma SlotWaits(t: State, fd: nat, flight: multiset<nat>)
    requires OwnedBy(t, flight) && fd in t.io.slots && fd !in flight
    ensures Waits(t, fd)
  {
  }

  lemma OneLess(base: multiset<nat>, fd: nat)
    requires (base + multiset{fd})[fd] == 1
    ensures fd !in base && forall g :: g in base ==> g in base + multiset{fd} && base[g] == (base + multiset{fd})[g]
    ensures forall g :: g != fd && g in base + multiset{fd} ==> g in base
  {
  }

  /** A connection comes back from flight and is closed. */
  lemma LandedAndGone(s: State, fd: nat, base: multiset<nat>)
    requires OwnedBy(s, base + multiset{fd})
    ensures OwnedBy(s.(io := Gone(s.io, fd)), base)
  {
    var t := s.(io := Gone(s.io, fd));
    assert fd in base + multiset{fd};
    OneLess(base, fd);
    assert forall g :: Waits(t, g) <==> g != fd && Waits(s, g);
  }

  /** A connection comes back from flight: its reset slot may wait. */
  lemma LandedAndWaits(s: State, fd: nat, base: multiset<nat>)
    requires OwnedBy(s, base + multiset{fd})
    ensures var t := s.(io := Reset(s.io, fd).(armed := s.io.armed + {fd}));
            OwnedBy(t, base) && Waits(t, fd) && fd !in t.reported
  {
    var t := s.(io := Reset(s.io, fd).(armed := s.io.armed + {fd}));
    assert fd in base + multiset{fd};
    OneLess(base, fd);
    assert forall g :: Waits(t, g) <==> g == fd || Waits(s, g);
  }

  lemma ArmingIsApart(io: IO, armed: set<nat>, fd: nat, read: Read, cfg: Config)
    requires Sane(io, cfg) && Sane(io.(armed := armed), cfg)
    ensures HandsOff(io.(armed := armed), fd, read, cfg) == HandsOff(io, fd, read, cfg)
  {
    hide CacheOk, NextTurn, Receive;
    OpeningIsSane(cfg.maxRequestSize);
  }

  lemma FirstDone(s: State)
    requires s.done != [] && Owned(s)
    ensures var rest := s.(done := s.done[1..]); OwnedBy(rest, Flight(rest) + multiset{s.done[0].fd})
  {
    var rest := s.(done := s.done[1..]);
    FirstFds([], s.done);
    assert Flight(s) == Flight(rest) + multiset{s.done[0].fd};
    OwnedSame(s, rest, Flight(s));
  }

  lemma CompletionOwned(s: State, read: Read, cfg: Config)
    requires cfg.pooled && Sane(s.io, cfg) && s.done != [] && Owned(s)
    ensures Owned(Next(s, HandleCompletion(read), cfg)) <==> Safe(s, HandleCompletion(read), cfg)
  {
    hide OwnedBy, Flight, CacheOk, Sane, AfterRearm, RearmHandsOff;
    var c, rest := s.done[0], s.(done := s.done[1..]);
    FirstDone(s);
    if c.keepAlive {
      RearmOwned(rest, c.fd, read, cfg, Flight(rest));
    } else {
      LandedAndGone(rest, c.fd, Flight(rest));
      FlightAdds(rest, rest.(io := Gone(s.io, c.fd)), c.fd);
    }
  }

  lemma RearmOwned(s: State, fd: nat, read: Read, cfg: Config, base: multiset<nat>)
    requires cfg.pooled && Sane(s.io, cfg) && base == Flight(s) && OwnedBy(s, base + multiset{fd})
    ensures Owned(s.(io := AfterRearm(s.io, fd, read, cfg))) <==> !RearmHandsOff(s.io, fd, read, cfg)
  {
    hide OwnedBy, Flight, CacheOk, Sane, AfterReadable, TurnOf;
    LandedAndWaits(s, fd, base);
    var t := s.(io := Reset(s.io, fd).(armed := s.io.armed + {fd}));
    FlightAdds(s, t, fd);
    ResetSane(s.io, fd, s.io.armed, cfg);
    ResetSane(s.io, fd, s.io.armed + {fd}, cfg);
    assert Reset(s.io, fd).(armed := s.io.armed) == Reset(s.io, fd);
    if t.io.slots[fd].conn.buffer != [] {
      ReadableOwned(t, fd, read, cfg, base);
      ReadableTasks(t.io, fd, read, cfg);
      ArmingIsApart(Reset(s.io, fd), t.io.armed, fd, read, cfg);
      var after := t.(io := AfterReadable(t.io, fd, read, cfg));
      FlightAdds(t, after, fd);
      assert AfterRearm(s.io, fd, read, cfg) == after.io;
      assert RearmHandsOff(s.io, fd, read, cfg) == HandsOff(t.io, fd, read, cfg);
      if HandsOff(t.io, fd, read, cfg) {
        assert after.io.tasks == t.io.tasks + [Task(fd, TurnOf(t.io, fd, read, cfg).value.raw)];
        assert Flight(after) == base + multiset{fd};
        assert fd in t.io.armed;
        assert !OwnedBy(after, base + multiset{fd});
      }
    }
  }

  lemma AcceptOwnedBy(s: State, fd: nat, registered: bool, cfg: Config, flight: multiset<nat>)
    requires OwnedBy(s, flight) && fd !in s.io.open
    ensures OwnedBy(s.(io := AfterAccept(s.io, fd, registered, cfg)), flight)
  {
    var t := s.(io := AfterAccept(s.io, fd, registered, cfg));
    assert s.io.open + {fd} - {fd} == s.io.open;
    assert s.io.armed - {fd} == s.io.armed by { assert fd !in s.io.armed; }
    assert fd !in flight && fd !in s.io.slots;
    assert forall g :: Waits(t, g) <==> Waits(s, g) || (g == fd && fd in t.io.open);
  }

  lemma AcceptOwned(s: State, fd: nat, registered: bool, cfg: Config)
    requires Owned(s) && fd !in s.io.open
    ensures Owned(s.(io := AfterAccept(s.io, fd, registered, cfg)))
  {
    AcceptOwnedBy(s, fd, registered, cfg, Flight(s));
    hide Flight, OwnedBy;
    FlightAdds(s, s.(io := AfterAccept(s.io, fd, registered, cfg)), fd);
  }

  lemma ReportOwnedBy(s: State, fds: set<nat>, flight: multiset<nat>)
    requires OwnedBy(s, flight) && fds <= s.io.armed && s.reported == {}
    ensures OwnedBy(s.(io := s.io.(armed := s.io.armed - fds), reported := fds), flight)
  {
    var t := s.(io := s.io.(armed := s.io.armed - fds), reported := fds);
    assert forall fd :: Waits(t, fd) <==> Waits(s, fd);
  }

  lemma ReportOwned(s: State, fds: set<nat>)
    requires Owned(s) && fds <= s.io.armed && s.reported == {}
    ensures Owned(s.(io := s.io.(armed := s.io.armed - fds), reported := fds))
  {
    ReportOwnedBy(s, fds, Flight(s));
    hide OwnedBy;
    FlightAdds(s, s.(io := s.io.(armed := s.io.armed - fds), reported := fds), 0);
    hide Flight;
  }

  lemma SweptOwnedBy(s: State, fds: set<nat>, flight: multiset<nat>)
    requires OwnedBy(s, flight) && s.reported == {} && forall fd :: fd in fds ==> Waits(s, fd)
    ensures OwnedBy(s.(io := Swept(s.io, fds)), flight)
  {
    var t := s.(io := Swept(s.io, fds));
    assert fds <= s.io.open && fds * s.io.open == fds;
    assert forall g :: Waits(t, g) <==> g !in fds && Waits(s, g);
  }

  lemma SweepOwned(s: State, expired: set<nat>)
    requires Owned(s) && s.reported == {}
    ensures Owned(s.(io := Swept(s.io, Stale(s.io, expired))))
  {
    var fds := Stale(s.io, expired);
    SweptOwnedBy(s, fds, Flight(s));
    hide Flight, OwnedBy;
    FlightAdds(s, s.(io := Swept(s.io, fds)), 0);
  }

  /** A step keeps ownership exactly when it is not one of the two that lose it. */
  lemma StepOwned(s: State, step: Step, cfg: Config)
    requires cfg.pooled && Sane(s.io, cfg) && Enabled(s, step) && Owned(s)
    ensures Owned(Next(s, step, cfg)) <==> Safe(s, step, cfg)
  {
    hide Owned, Sane;
    match step
    case Accept(fd, registered) => AcceptOwned(s, fd, registered, cfg);
    case Report(fds) => ReportOwned(s, fds);
    case Handle(_, _, _, _) => HandleOwned(s, step, cfg);
    case HandleCompletion(read) => CompletionOwned(s, read, cfg);
    case Sweep(expired) => SweepOwned(s, expired);
    case _ => WorkersKeepOwned(s, step, cfg);
  }

  /** A read that finds the peer closed: without bytes the descriptor is armed again, whatever the peer did; with
    * bytes the connection survives exactly when they hold a complete request that the pool takes. */
  lemma ClosedPeerStays(io: IO, fd: nat, read: Read, buffer: bytes, cfg: Config)
    requires cfg.pooled && Sane(io, cfg) && fd in io.open && fd in io.slots && !io.slots[fd].conn.dispatching
    requires Receive(io.slots[fd].conn.buffer, read.recvs, read.bufsz, cfg.maxRequestSize) == Got(buffer, true)
    ensures buffer == [] ==> AfterReadable(io, fd, read, cfg) == io.(armed := io.armed + {fd})
    ensures buffer != [] ==>
              (fd in AfterReadable(io, fd, read, cfg).open
               <==> Message.InspectionOf(buffer).framing == Message.Complete && read.poolAccepts)
  {
    hide CacheOk, NextTurn, Receive, Message.InspectionOf, AfterTurn, Sane;
    var c := io.slots[fd].conn.(buffer := buffer);
    SlotCache(io, fd, cfg);
    CacheSurvives(io.slots[fd].conn, buffer, cfg.maxRequestSize);
    if buffer == [] {
      assert Rearmed(io, fd, true) == io.(armed := io.armed + {fd});
    } else {
      ClosedTurn(c, read.deadline, cfg.maxRequestSize);
      TurnOpens(WithConn(io, fd, c), fd, NextTurn(c, true, read.deadline, cfg.maxRequestSize), read.poolAccepts);
    }
  }

  lemma SlotCache(io: IO, fd: nat, cfg: Config)
    requires Sane(io, cfg) && fd in io.slots
    ensures CacheOk(io.slots[fd].conn, cfg.maxRequestSize)
  {
  }

  /** Where the peer has closed a turn never waits, and cuts exactly a complete request. */
  lemma ClosedTurn(c: Conn, deadline: bool, max: nat)
    requires c.buffer != [] && CacheOk(c, max)
    ensures !NextTurn(c, true, deadline, max).Wait?
    ensures NextTurn(c, true, deadline, max).Cut? <==> Message.InspectionOf(c.buffer).framing == Message.Complete
  {
    hide Message.InspectionOf;
    if c.headKnown { CacheIsVerdict(c, max); }
  }

  lemma TurnOpens(io: IO, fd: nat, t: Turn, accepts: bool)
    requires fd in io.slots && fd in io.open && !t.Wait?
    ensures fd in AfterTurn(io, fd, t, accepts).open <==> t.Cut? && accepts
  {
  }

  // ---- whole runs ---------------------------------------------------------------------------------------------------

  lemma NextSane(s: State, step: Step, cfg: Config)
    requires Enabled(s, step) && Sane(s.io, cfg)
    ensures Sane(Next(s, step, cfg).io, cfg)
  {
    hide CacheOk, AfterReadable, AfterRearm;
    OpeningIsSane(cfg.maxRequestSize);
    match step
    case Handle(fd, _, _, read) => ReadableSane(s.io, fd, read, cfg);
    case HandleCompletion(read) => CompletionSane(s.io, s.done[0], read, cfg);
    case _ =>
  }

  const IDLE := State(START, {}, [], [])

  /** `steps` lead from `s` to `t`; each satisfies `ok`. */
  ghost predicate Leads(s: State, steps: seq<Step>, t: State, cfg: Config)
    requires Sane(s.io, cfg)
    decreases steps
  {
    hide Sane;
    if steps == [] then s == t
    else if !Enabled(s, steps[0]) then false
    else
      NextSane(s, steps[0], cfg);
      Leads(Next(s, steps[0], cfg), steps[1..], t, cfg)
  }

  /** No step of the run is one that loses a descriptor. */
  ghost predicate AllSafe(s: State, steps: seq<Step>, cfg: Config)
    requires Sane(s.io, cfg)
    decreases steps
  {
    hide Sane;
    if steps == [] || !Enabled(s, steps[0]) then true
    else
      NextSane(s, steps[0], cfg);
      Safe(s, steps[0], cfg) && AllSafe(Next(s, steps[0], cfg), steps[1..], cfg)
  }

  lemma {:induction false} RunOwned(s: State, steps: seq<Step>, t: State, cfg: Config)
    requires cfg.pooled && Sane(s.io, cfg) && Owned(s) && Leads(s, steps, t, cfg) && AllSafe(s, steps, cfg)
    requires WithinLimit(s.io, cfg)
    ensures Owned(t) && WithinLimit(t.io, cfg)
    decreases steps
  {
    hide Owned, Sane, Next, Enabled, Safe, WithinLimit;
    if steps != [] {
      StepOwned(s, steps[0], cfg);
      LimitKept(s, steps[0], cfg);
      NextSane(s, steps[0], cfg);
      RunOwned(Next(s, steps[0], cfg), steps[1..], t, cfg);
    }
  }

  lemma TurnShrinks(io: IO, fd: nat, t: Turn, accepts: bool)
    requires fd in io.slots
    ensures AfterTurn(io, fd, t, accepts).open <= io.open
  {
  }

  lemma ReadableShrinks(io: IO, fd: nat, read: Read, cfg: Config)
    requires cfg.pooled && Sane(io, cfg)
    ensures AfterReadable(io, fd, read, cfg).open <= io.open
  {
    hide CacheOk, NextTurn, Receive, AfterTurn;
    OpeningIsSane(cfg.maxRequestSize);
    var slotted := WithSlot(io, fd);
    var c := slotted.slots[fd].conn;
    var r := Receive(c.buffer, read.recvs, read.bufsz, cfg.maxRequestSize);
    if r.Got? && r.buffer != [] {
      var grown := c.(buffer := r.buffer);
      CacheSurvives(c, r.buffer, cfg.maxRequestSize);
      TurnShrinks(WithConn(slotted, fd, grown), fd,
                  NextTurn(grown, r.closed, read.deadline, cfg.maxRequestSize), read.poolAccepts);
    }
  }

  lemma CompletionShrinks(io: IO, c: Completion, read: Read, cfg: Config)
    requires cfg.pooled && Sane(io, cfg)
    ensures AfterCompletion(io, c, read, cfg).open <= io.open
  {
    hide CacheOk, Sane, AfterReadable;
    if c.keepAlive {
      ResetSane(io, c.fd, io.armed + {c.fd}, cfg);
      ReadableShrinks(Reset(io, c.fd).(armed := io.armed + {c.fd}), c.fd, read, cfg);
    }
  }

  lemma OpenShrinks(s: State, step: Step, cfg: Config)
    requires cfg.pooled && Enabled(s, step) && Sane(s.io, cfg) && !step.Accept?
    ensures Next(s, step, cfg).io.open <= s.io.open
  {
    hide Sane, AfterReadable, AfterCompletion, KeepAlive.AsksToStay;
    match step
    case Handle(fd, _, _, read) => ReadableShrinks(s.io, fd, read, cfg);
    case HandleCompletion(read) => CompletionShrinks(s.io, s.done[0], read, cfg);
    case _ =>
  }

  predicate WithinLimit(io: IO, cfg: Config) { cfg.maxConnections != 0 ==> |io.open| <= cfg.maxConnections }

  lemma LimitKept(s: State, step: Step, cfg: Config)
    requires cfg.pooled && Enabled(s, step) && Sane(s.io, cfg) && Owned(s) && WithinLimit(s.io, cfg)
    ensures WithinLimit(Next(s, step, cfg).io, cfg)
  {
    if step.Accept? {
      assert Books(s.io);
      assert s.io.open + {step.fd} - {step.fd} == s.io.open;
    } else {
      OpenShrinks(s, step, cfg);
      SubsetIsSmaller(Next(s, step, cfg).io.open, s.io.open);
    }
    hide Owned, Sane, Next;
  }

  lemma SubsetIsSmaller(a: set<nat>, b: set<nat>)
    requires a <= b
    ensures |a| <= |b|
  {
    assert b == a + (b - a);
  }

  lemma IdleIsOwned(cfg: Config)
    ensures Owned(IDLE) && Sane(IDLE.io, cfg)
  {
  }

  lemma {:induction false} AllGoneOwned(s: State, done: seq<Completion>)
    requires OwnedBy(s, multiset(CompletionFds(done)))
    ensures OwnedBy(s.(io := AllGone(s.io, done)), multiset{})
    decreases |done|
  {
    hide OwnedBy;
    if done != [] {
      FirstFds([], done);
      var base := multiset(CompletionFds(done[1..]));
      assert multiset(CompletionFds(done)) == base + multiset{done[0].fd};
      LandedAndGone(s, done[0].fd, base);
      AllGoneOwned(s.(io := Gone(s.io, done[0].fd)), done[1..]);
    } else {
      assert multiset(CompletionFds(done)) == multiset{};
    }
  }

  /** With the workers joined and no drain under way, a shutdown closes every descriptor exactly once. */
  lemma ShutdownClosesAll(s: State)
    requires Owned(s) && s.io.tasks == [] && s.running == [] && s.done == []
    ensures var end := AfterShutdown(s.io);
            end.active == 0 && end.open == {} && end.slots == map[] && !end.misused && end.closed == end.accepted
  {
    var done := s.io.completed;
    assert Flight(s) == multiset(CompletionFds(done));
    var t := s.(io := s.io.(completed := []));
    OwnedSame(s, t, Flight(s));
    AllGoneOwned(t, done);
    hide Flight;
    var io := AllGone(t.io, done);
    assert forall fd :: fd in io.open <==> fd in io.slots;
    assert io.open == io.slots.Keys && |io.slots| == |io.open|;
  }

  /** In every run of loop and workers that avoids the two unsafe steps: each open descriptor waits in its slot or
    * is in flight exactly once, the books balance, and a shutdown leaves nothing open. */
  lemma PoolRuns(steps: seq<Step>, t: State, cfg: Config)
    requires cfg.pooled && Sane(IDLE.io, cfg) && Leads(IDLE, steps, t, cfg) && AllSafe(IDLE, steps, cfg)
    ensures t.io.active == |t.io.open| && !t.io.misused
    ensures cfg.maxConnections != 0 ==> t.io.active <= cfg.maxConnections
    ensures forall fd :: fd in t.io.open <==> Waits(t, fd) || fd in Flight(t)
    ensures forall fd :: fd in Flight(t) ==> Flight(t)[fd] == 1 && !Waits(t, fd)
    ensures t.io.tasks == [] && t.running == [] && t.done == [] ==>
              var end := AfterShutdown(t.io);
              end.active == 0 && end.open == {} && !end.misused && end.closed == end.accepted
  {
    IdleIsOwned(cfg);
    RunOwned(IDLE, steps, t, cfg);
    if t.io.tasks == [] && t.running == [] && t.done == [] { ShutdownClosesAll(t); }
    hide Flight, AfterShutdown;
  }

  // ---- runs in which every hand-off empties the buffer ----------

  predicate Empties(s: State, step: Step, cfg: Config)
    requires Sane(s.io, cfg)
  {
    step.Handle? ==> !LeavesBytes(s.io, step.fd, step.read, cfg)
  }

  ghost predicate AllEmpty(s: State, steps: seq<Step>, cfg: Config)
    requires Sane(s.io, cfg)
    decreases steps
  {
    hide Sane;
    if steps == [] || !Enabled(s, steps[0]) then true
    else
      NextSane(s, steps[0], cfg);
      Empties(s, steps[0], cfg) && AllEmpty(Next(s, steps[0], cfg), steps[1..], cfg)
  }

  /** No slot is set aside for leftover bytes. */
  predicate NoneAside(io: IO) { forall fd :: fd in io.slots ==> !io.slots[fd].conn.dispatching }

  lemma TurnNoneAside(io: IO, fd: nat, t: Turn, accepts: bool)
    requires fd in io.slots && NoneAside(Dropped(io, fd)) && (t.Wait? ==> !t.next.dispatching)
    requires t.Cut? && accepts ==> t.rest.buffer == []
    ensures NoneAside(AfterTurn(io, fd, t, accepts))
  {
    var dropped := Dropped(io, fd);
    forall g | g in io.slots && g != fd ensures !io.slots[g].conn.dispatching {
      assert g in dropped.slots && dropped.slots[g] == io.slots[g];
    }
  }

  lemma ReadableNoneAside(io: IO, fd: nat, read: Read, cfg: Config)
    requires cfg.pooled && Sane(io, cfg) && NoneAside(io) && !LeavesBytes(io, fd, read, cfg)
    ensures NoneAside(AfterReadable(io, fd, read, cfg))
  {
    hide CacheOk, NextTurn, Receive, AfterTurn;
    OpeningIsSane(cfg.maxRequestSize);
    var slotted := WithSlot(io, fd);
    var c := slotted.slots[fd].conn;
    var r := Receive(c.buffer, read.recvs, read.bufsz, cfg.maxRequestSize);
    if r.Got? && r.buffer != [] {
      var grown := c.(buffer := r.buffer);
      CacheSurvives(c, r.buffer, cfg.maxRequestSize);
      TurnKeepsFlag(grown, r.closed, read.deadline, cfg.maxRequestSize);
      TurnNoneAside(WithConn(slotted, fd, grown), fd,
                    NextTurn(grown, r.closed, read.deadline, cfg.maxRequestSize), read.poolAccepts);
    }
  }

  lemma DoneHasNoSlot(s: State)
    requires NoneAside(s.io) && Owned(s) && s.done != []
    ensures s.done[0].fd !in s.io.slots
  {
    var fd, rest := s.done[0].fd, s.(done := s.done[1..]);
    FirstDone(s);
    hide Flight;
    var base := Flight(rest);
    assert fd in base + multiset{fd};
    assert !Waits(rest, fd);
  }

  lemma CompletionNoneAside(s: State, read: Read, cfg: Config)
    requires cfg.pooled && Sane(s.io, cfg) && NoneAside(s.io) && Owned(s) && s.done != []
    ensures Safe(s, HandleCompletion(read), cfg) && NoneAside(Next(s, HandleCompletion(read), cfg).io)
  {
    hide Owned, CacheOk, Sane, AfterReadable, HandsOff;
    DoneHasNoSlot(s);
    ResetSane(s.io, s.done[0].fd, s.io.armed, cfg);
  }

  lemma StepNoneAside(s: State, step: Step, cfg: Config)
    requires cfg.pooled && Sane(s.io, cfg) && NoneAside(s.io) && Owned(s) && Enabled(s, step) && Empties(s, step, cfg)
    ensures Safe(s, step, cfg) && NoneAside(Next(s, step, cfg).io)
  {
    hide Owned, Sane, LeavesBytes, AfterReadable, AfterRearm;
    match step
    case Handle(fd, _, readable, read) => ReadableNoneAside(s.io, fd, read, cfg);
    case HandleCompletion(read) => CompletionNoneAside(s, read, cfg);
    case _ =>
  }

  /** Runs whose hand-offs always empty the buffer are safe. */
  lemma {:induction false} EmptyingRunsAreSafe(s: State, steps: seq<Step>, cfg: Config)
    requires cfg.pooled && Sane(s.io, cfg) && NoneAside(s.io) && Owned(s) && AllEmpty(s, steps, cfg)
    ensures AllSafe(s, steps, cfg)
    decreases steps
  {
    hide Owned, Sane, Next, Enabled, Safe, Empties, NoneAside;
    if steps != [] && Enabled(s, steps[0]) {
      StepNoneAside(s, steps[0], cfg);
      StepOwned(s, steps[0], cfg);
      NextSane(s, steps[0], cfg);
      EmptyingRunsAreSafe(Next(s, steps[0], cfg), steps[1..], cfg);
    }
  }

  // ---- the two ways to lose a descriptor ----------

  /** A read that finds `chunk` and nothing more, with a pool that has room. */
  function Finds(chunk: bytes): Read { Read([Bytes(chunk)], |chunk| + 1, false, _ => false, true) }

  /** A read that finds nothing. */
  const QUIET := Read([], 1, false, _ => false, true)

  /** Two complete requests in one buffer: the first is cut off, the second is left. */
  lemma FirstOfTwo(r: bytes, more: bytes, max: nat)
    requires StandsAlone(r) && r != []
    ensures NextTurn(Conn(r + more, 0, false, false), false, false, max) == Cut(r, Conn(more, 0, false, false))
  {
    Message.CompleteSurvives(r, more);
    hide Message.InspectionOf;
    assert (r + more)[..|r|] == r && (r + more)[|r|..] == more;
  }

  function Aside(r: bytes): Session { Session(Conn(r, 0, false, true), [], []) }

  ghost predicate IsRequest(r: bytes, cfg: Config) {
    && r != [] && StandsAlone(r)
    && |r + r| <= cfg.maxRequestSize && cfg.pooled
  }

  /** Reading two requests at once hands off the first and sets the second aside. */
  lemma ReadsTwo(fd: nat, r: bytes, cfg: Config)
    requires IsRequest(r, cfg)
    ensures var io := IO(map[fd := OPENING], 1, 0, [], [], {fd}, {}, 1, 0, false, map[]);
            && Sane(io, cfg)
            && AfterReadable(io, fd, Finds(r + r), cfg)
               == IO(map[fd := Aside(r)], 1, 0, [Task(fd, r)], [], {fd}, {}, 1, 0, false, map[])
  {
    hide Message.InspectionOf;
    FirstOfTwo(r, r, cfg.maxRequestSize);
    OpeningIsSane(cfg.maxRequestSize);
    assert [] + (r + r) == r + r;
    assert Receive([], Finds(r + r).recvs, |r + r| + 1, cfg.maxRequestSize) == Got(r + r, false);
    var slots := map[fd := OPENING];
    assert slots[fd := Session(Conn(r + r, 0, false, false), [], [])][fd := Aside(r)] == map[fd := Aside(r)];
  }

  /** Re-arming a slot that holds a complete request arms the descriptor and queues it as well. */
  lemma RearmQueues(fd: nat, r: bytes, cfg: Config)
    requires IsRequest(r, cfg)
    ensures var io := IO(map[fd := Aside(r)], 1, 1, [], [], {fd}, {}, 1, 0, false, map[]);
            && Sane(io, cfg)
            && AfterRearm(io, fd, QUIET, cfg) == IO(map[], 1, 1, [Task(fd, r)], [], {fd}, {fd}, 1, 0, false, map[])
  {
    hide Message.InspectionOf;
    FirstOfTwo(r, [], cfg.maxRequestSize);
    assert r + [] == r;
    var slots := map[fd := Aside(r)];
    assert slots[fd := Session(Conn(r, 0, false, false), [], [])] - {fd} == map[];
    assert slots[fd := Session(Conn(r, 0, false, false), [], [])][fd := Session(Conn(r, 0, false, false), [],
                                                                                [])] - {fd} == map[];
  }

  /** A further read on a descriptor that is already queued queues it again. */
  lemma ReadsAgain(fd: nat, r: bytes, cfg: Config)
    requires IsRequest(r, cfg)
    ensures var io := IO(map[], 1, 1, [Task(fd, r)], [], {fd}, {}, 1, 0, false, map[]);
            && Sane(io, cfg)
            && AfterReadable(io, fd, Finds(r), cfg) == IO(map[], 1, 1, [Task(fd, r), Task(fd, r)], [], {fd}, {}, 1, 0,
                                                          false, map[])
  {
    hide Message.InspectionOf;
    FirstOfTwo(r, [], cfg.maxRequestSize);
    OpeningIsSane(cfg.maxRequestSize);
    assert r + [] == r && [] + r == r;
    assert Receive([], Finds(r).recvs, |r| + 1, cfg.maxRequestSize) == Got(r, false);
    var slots: map<nat, Session> := map[];
    assert slots[fd := OPENING][fd := Session(Conn(r, 0, false, false), [], [])] - {fd} == map[];
  }

  lemma LeadsStep(s: State, step: Step, next: State, rest: seq<Step>, t: State, cfg: Config)
    requires Sane(s.io, cfg) && Enabled(s, step) && Next(s, step, cfg) == next
    requires Sane(next.io, cfg) && Leads(next, rest, t, cfg)
    ensures Leads(s, [step] + rest, t, cfg)
  {
    hide Sane, Next, Enabled;
    assert ([step] + rest)[1..] == rest;
  }

  // The states of the run, in order; `r` is pipelined twice by the peer behind `fd`.

  function Heard(fd: nat): State { State(IO(map[fd := OPENING], 1, 0, [], [], {fd}, {fd}, 1, 0, false, map[]), {}, [],
        []) }
  function Noticed(fd: nat): State { State(IO(map[fd := OPENING], 1, 0, [], [], {fd}, {}, 1, 0, false, map[]), {fd},
        [], []) }

  function Queued(fd: nat, r: bytes): State {
    State(IO(map[fd := Aside(r)], 1, 0, [Task(fd, r)], [], {fd}, {}, 1, 0, false, map[]), {}, [], [])
  }

  function HungUpOn(fd: nat, r: bytes): State {
    State(IO(map[], 0, 1, [Task(fd, r)], [], {}, {}, 1, 1, false, map[]), {}, [], [])
  }

  /** The first request has been served and its completion taken by the drain. */
  function Served(s: State, fd: nat, keepAlive: bool): State {
    State(s.io.(tasks := [], handled := s.io.handled + 1), {}, [], [Completion(fd, keepAlive)])
  }

  function Requeued(fd: nat, r: bytes): State {
    State(IO(map[], 1, 1, [Task(fd, r)], [], {fd}, {fd}, 1, 0, false, map[]), {}, [], [])
  }

  function Renoticed(fd: nat, r: bytes): State {
    State(IO(map[], 1, 1, [Task(fd, r)], [], {fd}, {}, 1, 0, false, map[]), {fd}, [], [])
  }

  function Doubled(fd: nat, r: bytes): State {
    State(IO(map[], 1, 1, [Task(fd, r), Task(fd, r)], [], {fd}, {}, 1, 0, false, map[]), {}, [], [])
  }

  lemma SaneStates(fd: nat, r: bytes, cfg: Config)
    requires IsRequest(r, cfg)
    ensures Sane(IDLE.io, cfg) && Sane(Heard(fd).io, cfg) && Sane(Noticed(fd).io, cfg)
    ensures Sane(Queued(fd, r).io, cfg) && Sane(HungUpOn(fd, r).io, cfg) && Sane(Requeued(fd, r).io, cfg)
    ensures Sane(Renoticed(fd, r).io, cfg) && Sane(Doubled(fd, r).io, cfg)
  {
    hide Message.InspectionOf;
    OpeningIsSane(cfg.maxRequestSize);
  }

  lemma Hears(fd: nat, rest: seq<Step>, t: State, cfg: Config)
    requires Sane(Noticed(fd).io, cfg) && Leads(Noticed(fd), rest, t, cfg)
    ensures Sane(IDLE.io, cfg) && Leads(IDLE, [Accept(fd, true), Report({fd})] + rest, t, cfg)
  {
    hide CacheOk, Leads, KeepAlive.AsksToStay;
    assert Next(Heard(fd), Report({fd}), cfg) == Noticed(fd);
    LeadsStep(Heard(fd), Report({fd}), Noticed(fd), rest, t, cfg);
    assert Next(IDLE, Accept(fd, true), cfg) == Heard(fd);
    LeadsStep(IDLE, Accept(fd, true), Heard(fd), [Report({fd})] + rest, t, cfg);
    assert [Accept(fd, true), Report({fd})] + rest == [Accept(fd, true)] + ([Report({fd})] + rest);
  }

  /** A worker takes the one task of `s`, serves it and reports; the loop takes the completion. */
  lemma Serves(s: State, fd: nat, r: bytes, keepAlive: bool, rest: seq<Step>, t: State, cfg: Config)
    requires keepAlive ==> KeepAlive.AsksToStay(r)
    requires s.io.tasks == [Task(fd, r)] && s.io.completed == [] && s == State(s.io, {}, [], [])
    requires Sane(s.io, cfg) && Sane(Served(s, fd, keepAlive).io, cfg) && Leads(Served(s, fd, keepAlive), rest, t, cfg)
    ensures Leads(s, [WorkerTakes, WorkerFinishes(0, keepAlive), TakeCompletions] + rest, t, cfg)
  {
    hide CacheOk, Leads, KeepAlive.AsksToStay;
    var s1 := State(s.io.(tasks := []), {}, [Task(fd, r)], []);
    var s2 := State(s.io.(tasks := [], handled := s.io.handled + 1, completed := [Completion(fd, keepAlive)]), {}, [],
                    []);
    assert Next(s2, TakeCompletions, cfg) == Served(s, fd, keepAlive);
    LeadsStep(s2, TakeCompletions, Served(s, fd, keepAlive), rest, t, cfg);
    assert Next(s1, WorkerFinishes(0, keepAlive), cfg) == s2;
    var last := [TakeCompletions] + rest;
    LeadsStep(s1, WorkerFinishes(0, keepAlive), s2, last, t, cfg);
    assert Next(s, WorkerTakes, cfg) == s1;
    LeadsStep(s, WorkerTakes, s1, [WorkerFinishes(0, keepAlive)] + last, t, cfg);
    assert [WorkerTakes, WorkerFinishes(0, keepAlive), TakeCompletions] + rest
        == [WorkerTakes] + ([WorkerFinishes(0, keepAlive)] + last);
  }

  lemma QueuedOnceThenTwice(fd: nat, r: bytes, cfg: Config)
    requires Sane(Doubled(fd, r).io, cfg)
    ensures var q := Queued(fd, r); q.io.tasks == [Task(fd, r)] && q.io.completed == [] && q == State(q.io, {}, [], [])
    ensures Leads(Doubled(fd, r), [], Doubled(fd, r), cfg) && Flight(Doubled(fd, r))[fd] == 2
  {
    hide Sane, Leads;
    LeadsNowhere(Doubled(fd, r), cfg);
    assert TaskFds(Doubled(fd, r).io.tasks) == [fd, fd];
  }

  lemma ServedIsSane(s: State, fd: nat, keepAlive: bool, cfg: Config)
    requires Sane(s.io, cfg)
    ensures Sane(Served(s, fd, keepAlive).io, cfg)
  {
    hide CacheOk;
  }

  lemma HandsFirst(fd: nat, r: bytes, cfg: Config)
    requires IsRequest(r, cfg) && Sane(Noticed(fd).io, cfg)
    ensures Enabled(Noticed(fd), Handle(fd, false, true, Finds(r + r)))
    ensures Enabled(Noticed(fd), Handle(fd, true, true, Finds(r + r)))
    ensures Next(Noticed(fd), Handle(fd, false, true, Finds(r + r)), cfg) == Queued(fd, r)
    ensures Next(Noticed(fd), Handle(fd, true, true, Finds(r + r)), cfg) == HungUpOn(fd, r)
  {
    hide Message.InspectionOf;
    ReadsTwo(fd, r, cfg);
    hide AfterReadable, CacheOk;
    assert map[fd := Aside(r)] - {fd} == map[];
  }

  lemma HandsSecond(fd: nat, r: bytes, cfg: Config)
    requires IsRequest(r, cfg) && Sane(Served(Queued(fd, r), fd, true).io, cfg)
    ensures Enabled(Served(Queued(fd, r), fd, true), HandleCompletion(QUIET))
    ensures Next(Served(Queued(fd, r), fd, true), HandleCompletion(QUIET), cfg) == Requeued(fd, r)
  {
    hide Message.InspectionOf;
    RearmQueues(fd, r, cfg);
    hide AfterRearm, CacheOk;
  }

  lemma HandsAgain(fd: nat, r: bytes, cfg: Config)
    requires IsRequest(r, cfg) && Sane(Renoticed(fd, r).io, cfg) && Sane(Requeued(fd, r).io, cfg)
    ensures Enabled(Requeued(fd, r), Report({fd})) && Enabled(Renoticed(fd, r), Handle(fd, false, true, Finds(r)))
    ensures Next(Requeued(fd, r), Report({fd}), cfg) == Renoticed(fd, r)
    ensures Next(Renoticed(fd, r), Handle(fd, false, true, Finds(r)), cfg) == Doubled(fd, r)
  {
    hide Message.InspectionOf;
    ReadsAgain(fd, r, cfg);
    hide AfterReadable, CacheOk;
  }

  /** Whatever the request `r` that asks to stay: a peer that sends it twice at once, and once more after the first
    * answer, has its descriptor in flight twice. */
  lemma TwiceInFlight(fd: nat, r: bytes, cfg: Config) returns (steps: seq<Step>, t: State)
    requires IsRequest(r, cfg) && KeepAlive.AsksToStay(r)
    ensures Sane(IDLE.io, cfg) && Leads(IDLE, steps, t, cfg) && Flight(t)[fd] == 2
  {
    SaneStates(fd, r, cfg);
    HandsFirst(fd, r, cfg);
    ServedIsSane(Queued(fd, r), fd, true, cfg);
    HandsSecond(fd, r, cfg);
    HandsAgain(fd, r, cfg);
    QueuedOnceThenTwice(fd, r, cfg);
    hide *;
    steps, t := [], Doubled(fd, r);
    LeadsStep(Renoticed(fd, r), Handle(fd, false, true, Finds(r)), t, steps, t, cfg);
    steps := [Handle(fd, false, true, Finds(r))] + steps;
    LeadsStep(Requeued(fd, r), Report({fd}), Renoticed(fd, r), steps, t, cfg);
    steps := [Report({fd})] + steps;
    LeadsStep(Served(Queued(fd, r), fd, true), HandleCompletion(QUIET), Requeued(fd, r), steps, t, cfg);
    steps := [HandleCompletion(QUIET)] + steps;
    Serves(Queued(fd, r), fd, r, true, steps, t, cfg);
    steps := [WorkerTakes, WorkerFinishes(0, true), TakeCompletions] + steps;
    LeadsStep(Noticed(fd), Handle(fd, false, true, Finds(r + r)), Queued(fd, r), steps, t, cfg);
    steps := [Handle(fd, false, true, Finds(r + r))] + steps;
    Hears(fd, steps, t, cfg);
    steps := [Accept(fd, true), Report({fd})] + steps;
  }

  const LOST := State(IO(map[], -1, 2, [], [], {}, {}, 1, 2, true, map[]), {}, [], [])

  /** The completion of a request whose descriptor was closed meanwhile closes it again. */
  lemma ClosesAgain(fd: nat, r: bytes, cfg: Config)
    requires Sane(HungUpOn(fd, r).io, cfg)
    ensures var s, h := Served(HungUpOn(fd, r), fd, false), HungUpOn(fd, r);
            && Sane(s.io, cfg) && Sane(LOST.io, cfg) && Enabled(s, HandleCompletion(QUIET))
            && Next(s, HandleCompletion(QUIET), cfg) == LOST && Leads(LOST, [], LOST, cfg)
            && h.io.tasks == [Task(fd, r)] && h.io.completed == [] && h == State(h.io, {}, [], [])
    ensures LOST.io.misused && LOST.io.accepted == 1 && LOST.io.closed == 2 && LOST.io.active == -1
  {
    hide CacheOk, AfterRearm, Leads;
    var none: map<nat, Session> := map[];
    assert none - {fd} == none;
    LeadsNowhere(LOST, cfg);
  }

  lemma LeadsNowhere(s: State, cfg: Config)
    requires Sane(s.io, cfg)
    ensures Leads(s, [], s, cfg)
  {
  }

  /** Whatever the request `r`, when it is answered with a close: a peer that sends it twice at once and hangs up has
    * its descriptor closed twice. */
  lemma ClosedTwice(fd: nat, r: bytes, cfg: Config) returns (steps: seq<Step>, t: State)
    requires IsRequest(r, cfg)
    ensures Sane(IDLE.io, cfg) && Leads(IDLE, steps, t, cfg)
    ensures t.io.misused && t.io.accepted == 1 && t.io.closed == 2 && t.io.active == -1
  {
    SaneStates(fd, r, cfg);
    HandsFirst(fd, r, cfg);
    ClosesAgain(fd, r, cfg);
    hide *;
    var s := Served(HungUpOn(fd, r), fd, false);
    steps, t := [], LOST;
    LeadsStep(s, HandleCompletion(QUIET), t, steps, t, cfg);
    steps := [HandleCompletion(QUIET)] + steps;
    Serves(HungUpOn(fd, r), fd, r, false, steps, t, cfg);
    steps := [WorkerTakes, WorkerFinishes(0, false), TakeCompletions] + steps;
    LeadsStep(Noticed(fd), Handle(fd, true, true, Finds(r + r)), HungUpOn(fd, r), steps, t, cfg);
    steps := [Handle(fd, true, true, Finds(r + r))] + steps;
    Hears(fd, steps, t, cfg);
    steps := [Accept(fd, true), Report({fd})] + steps;
  }

  /** There is such a request: `GET / HTTP/1.1` with a Host line. */
  lemma SuchARequest(cfg: Config)
    requires cfg.pooled && cfg.maxRequestSize >= 54
    ensures IsRequest(KeepAlive.GET_HOST, cfg) && KeepAlive.AsksToStay(KeepAlive.GET_HOST)
  {
    KeepAlive.GetHostStays();
    hide Message.InspectionOf, KeepAlive.AsksToStay;
  }
}
