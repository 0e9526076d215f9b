/** The dispatch loop with a pool: every wake-up of the loop is a run of the steps that ownership is proved about. */
module PoolDispatch {
  import opened Bytes
  import opened Connection
  import opened LoopState
  import opened Inline
  import opened PoolMode

  // ---- the steps of each event --------------------------------------------------------------------

  /** Completion `i` and the ones behind it, `n` in all. */
  function DrainSteps(n: nat, finds: nat -> Read, i: nat): seq<Step> {
    if n == 0 then [] else [HandleCompletion(finds(i))] + DrainSteps(n - 1, finds, i + 1)
  }

  /** Every descriptor handed out before there are no more; an interruption is passed over. */
  function AcceptSteps(accepts: seq<LoopState.Accept>): seq<Step>
    decreases |accepts|
  {
    if accepts == [] then []
    else match accepts[0]
      case Accepted(fd, registered) => [PoolMode.Accept(fd, registered)] + AcceptSteps(accepts[1..])
      case Retry => AcceptSteps(accepts[1..])
      case NoMore => []
  }

  function EventSteps(io: IO, event: Event): seq<Step> {
    match event
    case Notify(finds) => [TakeCompletions] + DrainSteps(|io.completed|, finds, 0)
    case Listener(accepts) => AcceptSteps(accepts)
    case Client(fd, hup, readable, read) => [Handle(fd, hup, readable, read)]
  }

  function EventsSteps(io: IO, events: seq<Event>, cfg: Config): seq<Step>
    requires Sane(io, cfg)
    decreases |events|
  {
    hide Sane, AfterEvent;
    if events == [] then []
    else EventSteps(io, events[0]) + EventsSteps(AfterEvent(io, events[0], cfg), events[1..], cfg)
  }

  /** A wake-up: the events in order, then the sweep. */
  function BatchSteps(io: IO, batch: Batch, cfg: Config): seq<Step>
    requires Sane(io, cfg)
  {
    EventsSteps(io, batch.events, cfg) + [Sweep(batch.expired)]
  }

  // ---- runs, end to end ----------------------------------------------------------------------------

  lemma LeadsFirst(s: State, step: Step, rest: seq<Step>, t: State, cfg: Config)
    requires Sane(s.io, cfg) && Enabled(s, step) && Sane(Next(s, step, cfg).io, cfg)
    requires Leads(Next(s, step, cfg), rest, t, cfg)
    ensures Leads(s, [step] + rest, t, cfg)
  {
    hide Sane, Next, Enabled;
    assert ([step] + rest)[1..] == rest;
  }

  lemma NoSteps(s: State, cfg: Config)
    requires Sane(s.io, cfg)
    ensures Leads(s, [], s, cfg)
  {
    hide Sane;
  }

  lemma OneStep(s: State, step: Step, cfg: Config)
    requires Sane(s.io, cfg) && Enabled(s, step)
    ensures Sane(Next(s, step, cfg).io, cfg) && Leads(s, [step], Next(s, step, cfg), cfg)
  {
    NextSane(s, step, cfg);
    hide Sane, Next, Enabled, Leads;
    NoSteps(Next(s, step, cfg), cfg);
    LeadsFirst(s, step, [], Next(s, step, cfg), cfg);
    assert [step] + [] == [step];
  }

  lemma FirstOfRun(s: State, steps: seq<Step>, t: State, cfg: Config)
    requires Sane(s.io, cfg) && steps != [] && Leads(s, steps, t, cfg)
    ensures Enabled(s, steps[0]) && Sane(Next(s, steps[0], cfg).io, cfg)
    ensures Leads(Next(s, steps[0], cfg), steps[1..], t, cfg)
  {
    hide Sane, Next, Enabled;
    NextSane(s, steps[0], cfg);
  }

  lemma {:induction false} LeadsOn(s: State, first: seq<Step>, mid: State, second: seq<Step>, t: State, cfg: Config)
    requires Sane(s.io, cfg) && Sane(mid.io, cfg) && Leads(s, first, mid, cfg) && Leads(mid, second, t, cfg)
    ensures Leads(s, first + second, t, cfg)
    decreases |first|
  {
    if first == [] {
      hide Sane;
      assert first + second == second;
    } else {
      hide *;
      FirstOfRun(s, first, mid, cfg);
      LeadsOn(Next(s, first[0], cfg), first[1..], mid, second, t, cfg);
      LeadsFirst(s, first[0], first[1..] + second, t, cfg);
      assert first + second == [first[0]] + (first[1..] + second);
    }
  }

  // ---- events are runs -----------------------------------------------------------------------------

  lemma CompletionIsAStep(s: State, read: Read, cfg: Config)
    requires Sane(s.io, cfg) && s.done != []
    ensures Enabled(s, HandleCompletion(read))
    ensures Next(s, HandleCompletion(read), cfg)
            == s.(io := AfterCompletion(s.io, s.done[0], read, cfg), done := s.done[1..])
  {
    hide Sane, AfterCompletion;
  }

  lemma DrainUnfold(io: IO, done: seq<Completion>, finds: nat -> Read, i: nat, cfg: Config)
    requires Sane(io, cfg)
    ensures done == [] ==> AfterDrain(io, done, finds, i, cfg) == io
    ensures done != [] ==>
              && Sane(AfterCompletion(io, done[0], finds(i), cfg), cfg)
              && AfterDrain(io, done, finds, i, cfg)
                 == AfterDrain(AfterCompletion(io, done[0], finds(i), cfg), done[1..], finds, i + 1, cfg)
  {
    hide Sane, AfterCompletion;
    if done != [] { CompletionSane(io, done[0], finds(i), cfg); }
  }

  lemma {:induction false} DrainIsARun(s: State, finds: nat -> Read, i: nat, cfg: Config)
    requires Sane(s.io, cfg)
    ensures Leads(s, DrainSteps(|s.done|, finds, i),
                  s.(io := AfterDrain(s.io, s.done, finds, i, cfg), done := []), cfg)
    decreases |s.done|
  {
    hide Sane, AfterCompletion, AfterDrain, Leads, Next, Enabled;
    DrainUnfold(s.io, s.done, finds, i, cfg);
    if s.done == [] {
      NoSteps(s, cfg);
      assert s.(done := []) == s;
    } else {
      CompletionIsAStep(s, finds(i), cfg);
      var next := Next(s, HandleCompletion(finds(i)), cfg);
      DrainIsARun(next, finds, i + 1, cfg);
      LeadsFirst(s, HandleCompletion(finds(i)), DrainSteps(|s.done| - 1, finds, i + 1),
                 s.(io := AfterDrain(s.io, s.done, finds, i, cfg), done := []), cfg);
    }
  }

  lemma AcceptIsAStep(s: State, fd: nat, registered: bool, cfg: Config)
    requires Sane(s.io, cfg) && s.done == [] && fd !in s.io.open
    ensures Enabled(s, PoolMode.Accept(fd, registered))
    ensures Next(s, PoolMode.Accept(fd, registered), cfg) == s.(io := AfterAccept(s.io, fd, registered, cfg))
  {
    hide Sane, AfterAccept;
  }

  lemma {:induction false} AcceptsAreARun(s: State, accepts: seq<LoopState.Accept>, cfg: Config)
    requires Sane(s.io, cfg) && s.done == [] && AcceptsFresh(s.io, accepts, cfg)
    ensures Leads(s, AcceptSteps(accepts), s.(io := AfterAccepts(s.io, accepts, cfg)), cfg)
    decreases |accepts|
  {
    hide Sane, AfterAccept, Leads, Next, Enabled;
    if accepts == [] {
      NoSteps(s, cfg);
    } else {
      match accepts[0]
      case Accepted(fd, registered) => {
        AcceptIsAStep(s, fd, registered, cfg);
        NextSane(s, PoolMode.Accept(fd, registered), cfg);
        var next := s.(io := AfterAccept(s.io, fd, registered, cfg));
        AcceptsAreARun(next, accepts[1..], cfg);
        LeadsFirst(s, PoolMode.Accept(fd, registered), AcceptSteps(accepts[1..]),
                   s.(io := AfterAccepts(s.io, accepts, cfg)), cfg);
      }
      case Retry => AcceptsAreARun(s, accepts[1..], cfg);
      case NoMore => NoSteps(s, cfg);
    }
  }

  /** The descriptor whose report an event uses up. */
  function Used(event: Event): set<nat> { if event.Client? then {event.fd} else {} }

  function After(s: State, event: Event, cfg: Config): State
    requires Sane(s.io, cfg)
  {
    s.(io := AfterEvent(s.io, event, cfg), reported := s.reported - Used(event))
  }

  lemma NotifyIsARun(s: State, finds: nat -> Read, cfg: Config)
    requires Sane(s.io, cfg) && s.done == []
    ensures Leads(s, EventSteps(s.io, Notify(finds)), s.(io := AfterEvent(s.io, Notify(finds), cfg)), cfg)
  {
    hide Sane, AfterDrain, Leads, DrainSteps;
    assert Enabled(s, TakeCompletions);
    var next := Next(s, TakeCompletions, cfg);
    NextSane(s, TakeCompletions, cfg);
    assert next == s.(io := s.io.(completed := []), done := s.io.completed);
    hide Next, Enabled;
    DrainIsARun(next, finds, 0, cfg);
    LeadsFirst(s, TakeCompletions, DrainSteps(|s.io.completed|, finds, 0),
               s.(io := AfterEvent(s.io, Notify(finds), cfg)), cfg);
  }

  lemma ClientIsAStep(s: State, event: Event, cfg: Config)
    requires Sane(s.io, cfg) && s.done == [] && event.Client? && event.fd in s.reported
    ensures var step := Handle(event.fd, event.hup, event.readable, event.read);
            Enabled(s, step) && Next(s, step, cfg) == After(s, event, cfg)
  {
    hide Sane, AfterClient;
  }

  lemma EventIsARun(s: State, event: Event, cfg: Config)
    requires Sane(s.io, cfg) && s.done == []
    requires event.Client? ==> event.fd in s.reported
    requires event.Listener? ==> AcceptsFresh(s.io, event.accepts, cfg)
    ensures Leads(s, EventSteps(s.io, event), After(s, event, cfg), cfg)
  {
    hide Sane, Leads, Next, Enabled, AfterDrain, AfterAccepts, AfterClient, AcceptsFresh, AcceptSteps;
    assert s.reported - {} == s.reported;
    match event
    case Notify(finds) => NotifyIsARun(s, finds, cfg);
    case Listener(accepts) => AcceptsAreARun(s, accepts, cfg);
    case Client(fd, hup, readable, read) => {
      ClientIsAStep(s, event, cfg);
      OneStep(s, Handle(fd, hup, readable, read), cfg);
    }
  }

  /** The descriptors of all events. */
  function AllUsed(events: seq<Event>): set<nat> {
    if events == [] then {} else Used(events[0]) + AllUsed(events[1..])
  }

  /** What is left of a report has been reported, each descriptor once. */
  lemma ReportLeft(events: seq<Event>, open: set<nat>)
    requires events != [] && Reported(events, open)
    ensures events[0].Client? ==> events[0].fd in open
    ensures Reported(events[1..], open - Used(events[0]))
  {
    var rest := events[1..];
    assert forall i :: 0 <= i < |rest| ==> rest[i] == events[i + 1];
  }

  lemma {:induction false} EventsAreARun(s: State, events: seq<Event>, cfg: Config)
    requires Sane(s.io, cfg) && s.done == [] && Reported(events, s.reported) && KernelOk(s.io, events, cfg)
    ensures Leads(s, EventsSteps(s.io, events, cfg),
                  s.(io := AfterEvents(s.io, events, cfg), reported := s.reported - AllUsed(events)), cfg)
    decreases |events|
  {
    hide Sane, Leads, Next, Enabled, AfterEvent, EventSteps, AcceptsFresh, Reported, Used;
    if events == [] {
      assert s.reported - {} == s.reported;
      NoSteps(s, cfg);
    } else {
      ReportLeft(events, s.reported);
      KernelStep(s.io, events, cfg);
      EventIsARun(s, events[0], cfg);
      var next := After(s, events[0], cfg);
      EventsAreARun(next, events[1..], cfg);
      EventsStep(s.io, events, cfg);
      assert s.reported - AllUsed(events) == next.reported - AllUsed(events[1..]);
      LeadsOn(s, EventSteps(s.io, events[0]), next, EventsSteps(next.io, events[1..], cfg),
              s.(io := AfterEvents(s.io, events, cfg), reported := s.reported - AllUsed(events)), cfg);
    }
  }

  /**
   * What the dispatch loop does in one wake-up is a run of the ownership model, from the report of the descriptors its
   * events name to an empty report: each event is one step, a notification one step for every completion, and a
   * listener event one for every connection it was handed.
   */
  lemma DispatchIsARun(s: State, batch: Batch, cfg: Config)
    requires Sane(s.io, cfg) && s.done == [] && s.reported == AllUsed(batch.events)
    requires Reported(batch.events, s.reported) && KernelOk(s.io, batch.events, cfg)
    ensures Leads(s, BatchSteps(s.io, batch, cfg), s.(io := AfterDispatch(s.io, batch, cfg), reported := {}), cfg)
  {
    hide Sane, Leads, AfterEvents, EventsSteps, Reported, KernelOk, Swept, Stale, AllUsed;
    EventsAreARun(s, batch.events, cfg);
    var mid := s.(io := AfterEvents(s.io, batch.events, cfg), reported := {});
    assert s.reported - AllUsed(batch.events) == {};
    assert Enabled(mid, Sweep(batch.expired));
    assert Next(mid, Sweep(batch.expired), cfg)
        == s.(io := AfterDispatch(s.io, batch, cfg), reported := {});
    hide Next, Enabled;
    OneStep(mid, Sweep(batch.expired), cfg);
    LeadsOn(s, EventsSteps(s.io, batch.events, cfg), mid, [Sweep(batch.expired)],
            s.(io := AfterDispatch(s.io, batch, cfg), reported := {}), cfg);
  }
}
