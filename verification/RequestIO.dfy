/** The class behind the loop: a vector of optional slots, counters, and the code that updates them. */
module RequestIO {
  import opened Bytes
  import opened Connection
  import opened LoopState

  /** The engaged slots of the vector. */
  function Slots(pending: seq<Option<Session>>): map<nat, Session> {
    map fd: nat | 0 <= fd < |pending| && pending[fd].Some? :: pending[fd].value
  }

  lemma SlotsSet(pending: seq<Option<Session>>, fd: nat, s: Session)
    requires fd < |pending|
    ensures Slots(pending[fd := Some(s)]) == Slots(pending)[fd := s]
    ensures Slots(pending[fd := None]) == Slots(pending) - {fd}
  {
  }

  lemma SlotsGrow(pending: seq<Option<Session>>, n: nat)
    ensures Slots(pending + seq(n, _ => None)) == Slots(pending)
  {
    var grown := pending + seq(n, _ => None);
    assert forall fd :: 0 <= fd < |pending| ==> grown[fd] == pending[fd];
  }

  /** `at` is `io` after `i` more requests on `fd`, whose session went from `s` to `now`; `more` is what the loop
    * goes on to do. */
  ghost predicate Onward(io: IO, at: IO, fd: nat, s: Session, now: Session, i: nat, more: Handled, all: Handled) {
    && at == io.(handled := io.handled + i, slots := io.slots[fd := now])
    && now.received == s.received && s.served <= now.served && |now.served| == |s.served| + i
    && all == Handled(now.served[|s.served|..] + more.served, more.end)
  }

  lemma OnwardNone(io: IO, fd: nat, s: Session, all: Handled)
    requires fd in io.slots && io.slots[fd] == s
    ensures Onward(io, io, fd, s, s, 0, all, all)
  {
    assert io.slots[fd := s] == io.slots;
    assert s.served[|s.served|..] + all.served == all.served;
  }

  lemma OnwardOne(io: IO, at: IO, fd: nat, s: Session, now: Session, i: nat, raw: bytes, more: Handled, all: Handled,
        next: Session)
    requires Onward(io, at, fd, s, now, i, Handled([raw] + more.served, more.end), all)
    requires next.received == now.received && next.served == now.served + [raw]
    ensures Onward(io, at.(handled := at.handled + 1, slots := at.slots[fd := next]), fd, s, next, i + 1, more, all)
  {
    var n := |s.served|;
    assert (now.served + [raw])[n..] == now.served[n..] + [raw];
    assert now.served[n..] + ([raw] + more.served) == (now.served + [raw])[n..] + more.served;
  }

  /** The loop is over: its effect on the state, by how it ended. */
  lemma OnwardDone(io: IO, at: IO, fd: nat, s: Session, now: Session, i: nat, end: End, all: Handled)
    requires Onward(io, at, fd, s, now, i, Handled([], end), all)
    ensures AfterServe(io, fd, s, all) == match end
              case StillOpen(c) => at.(slots := at.slots[fd := now.(conn := c)])
              case Refused(code) => Rejected(at, fd, code)
              case Finished => Gone(at, fd)
  {
    var n := |s.served|;
    assert s.served + now.served[n..] == now.served;
    assert now.served[n..] + [] == now.served[n..];
    assert io.slots[fd := now] - {fd} == io.slots - {fd};
  }

  /** What the slot held before the loop does not matter to its effect. */
  lemma SlotIsReplaced(io: IO, fd: nat, s: Session, t: Session, h: Handled)
    requires s.received == t.received && s.served == t.served
    ensures AfterServe(io.(slots := io.slots[fd := t]), fd, t, h) == AfterServe(io, fd, s, h)
  {
    assert io.slots[fd := t] - {fd} == io.slots - {fd};
    if h.end.StillOpen? {
      var last := s.(conn := h.end.conn, served := s.served + h.served);
      assert io.slots[fd := t][fd := last] == io.slots[fd := last];
    }
  }

  lemma ServeLoopStep(c: Conn, closed: bool, deadline: bool, keep: nat -> bool, i: nat, max: nat)
    requires c.buffer != [] && CacheOk(c, max)
    ensures ServeLoop(c, closed, deadline, keep, i, max) ==
            match NextTurn(c, closed, deadline, max)
            case Wait(next) => Handled([], StillOpen(next))
            case Refuse(code) => Handled([], Refused(code))
            case Cut(raw, rest) =>
              if !keep(i) then Handled([raw], Finished)
              else
                var more := ServeLoop(rest, closed, deadline, keep, i + 1, max);
                Handled([raw] + more.served, more.end)
  {
    hide CacheOk, NextTurn;
  }

  class RequestIO {
    const cfg: Config
    var pending: seq<Option<Session>>
    var active: int
    var handled: nat
    var tasks: seq<Task>
    var completed: seq<Completion>
    var open: set<nat>
    var armed: set<nat>
    var accepted: nat
    var closed: nat
    var misused: bool
    var refused: map<nat, nat>

    ghost function View(): IO
      reads this
    {
      IO(Slots(pending), active, handled, tasks, completed, open, armed, accepted, closed, misused, refused)
    }

    constructor (cfg: Config)
      ensures this.cfg == cfg && View() == START
    {
      this.cfg := cfg;
      pending, active, handled, tasks, completed, open, armed := [], 0, 0, [], [], {}, {};
      accepted, closed, misused, refused := 0, 0, false, map[];
    }

    predicate HasPending(fd: nat)
      reads this
      ensures HasPending(fd) <==> fd in View().slots
      ensures HasPending(fd) ==> View().slots[fd] == pending[fd].value
    {
      fd < |pending| && pending[fd].Some?
    }

    method PendingSlot(fd: nat)
      modifies this`pending
      ensures View() == WithSlot(old(View()), fd) && HasPending(fd)
    {
      if fd >= |pending| {
        SlotsGrow(pending, fd + 1 - |pending|);
        pending := pending + seq(fd + 1 - |pending|, _ => None);
      }
      if pending[fd].None? {
        SlotsSet(pending, fd, OPENING);
        pending := pending[fd := Some(OPENING)];
      }
    }

    method SetSlot(fd: nat, s: Session)
      requires HasPending(fd)
      modifies this`pending
      ensures View() == old(View()).(slots := old(View()).slots[fd := s]) && HasPending(fd) && pending[fd] == Some(s)
    {
      SlotsSet(pending, fd, s);
      pending := pending[fd := Some(s)];
    }

    method DropPending(fd: nat)
      modifies this`pending
      ensures View() == Dropped(old(View()), fd) && |pending| == old(|pending|)
    {
      if fd < |pending| {
        SlotsSet(pending, fd, OPENING);
        pending := pending[fd := None];
      } else {
        assert Slots(pending) - {fd} == Slots(pending);
      }
    }

    /** The system call `close`. */
    method Close(fd: nat)
      modifies this`open, this`armed, this`closed, this`misused
      ensures View() == Closed(old(View()), fd)
    {
      misused := misused || fd !in open;
      open, armed, closed := open - {fd}, armed - {fd}, closed + 1;
    }

    /** Closed, dropped and no longer counted. */
    method Forget(fd: nat)
      modifies this
      ensures View() == Gone(old(View()), fd) && |pending| == old(|pending|)
    {
      Close(fd);
      DropPending(fd);
      active := active - 1;
    }

    /** Gone, and counted as handled. */
    method HangUp(fd: nat)
      modifies this
      ensures View() == HungUp(old(View()), fd) && |pending| == old(|pending|)
    {
      Forget(fd);
      handled := handled + 1;
    }

    /** Sends an error response with the status `code` and hangs up. */
    method Reject(fd: nat, code: nat)
      modifies this
      ensures View() == Rejected(old(View()), fd, code) && |pending| == old(|pending|)
    {
      refused := refused[fd := code];
      Close(fd);
      DropPending(fd);
      active := active - 1;
      handled := handled + 1;
    }

    method RearmWait(fd: nat)
      modifies this`armed
      ensures View() == Rearmed(old(View()), fd, cfg.pooled)
    {
      if !cfg.pooled { return; }
      armed := armed + {fd};
    }

    method AcceptPending(accepts: seq<Accept>)
      modifies this
      ensures View() == AfterAccepts(old(View()), accepts, cfg)
    {
      for i := 0 to |accepts|
        invariant AfterAccepts(View(), accepts[i..], cfg) == AfterAccepts(old(View()), accepts, cfg)
      {
        assert accepts[i..][0] == accepts[i] && accepts[i..][1..] == accepts[i + 1..];
        match accepts[i]
        case NoMore => return;
        case Retry =>
        case Accepted(fd, registered) => AcceptConnection(fd, registered);
      }
    }

    /** What the accept loop does with one new descriptor. */
    method AcceptConnection(fd: nat, registered: bool)
      modifies this
      ensures View() == AfterAccept(old(View()), fd, registered, cfg)
    {
      open, accepted := open + {fd}, accepted + 1;
      if cfg.maxConnections != 0 && active >= cfg.maxConnections {
        Close(fd);
        return;
      }
      if !registered {
        Close(fd);
        return;
      }
      armed := armed + {fd};
      active := active + 1;
      PendingSlot(fd);
      SetSlot(fd, OPENING);
    }

    /** Hands a request to the pool, whose answer is `accepts`. */
    method DispatchTask(fd: nat, raw: bytes, accepts: bool)
      modifies this
      ensures View() == HandedOff(old(View()), fd, raw, accepts)
    {
      if accepts {
        tasks := tasks + [Task(fd, raw)];
        return;
      }
      refused := refused[fd := 503];
      Close(fd);
      DropPending(fd);
      active := active - 1;
      handled := handled + 1;
    }

    method HandleReadable(fd: nat, read: Read)
      requires Sane(View(), cfg)
      modifies this
      ensures View() == AfterReadable(old(View()), fd, read, cfg)
    {
      hide CacheOk, ServeLoop, NextTurn, Receive, AfterServe, AfterTurn;
      OpeningIsSane(cfg.maxRequestSize);
      PendingSlot(fd);
      var s := pending[fd].value;
      var received := ReceiveAll(s.conn.buffer, read.recvs, read.bufsz, cfg.maxRequestSize);
      match received
      case TooLarge(_) => Reject(fd, 413);
      case Failed(_) => Reject(fd, 400);
      case Got(buffer, closed) => {
        CacheSurvives(s.conn, buffer, cfg.maxRequestSize);
        var c := s.conn.(buffer := buffer);
        if cfg.pooled {
          SetSlot(fd, s.(conn := c));
          if buffer == [] {
            RearmWait(fd);
            return;
          }
          DispatchFirst(fd, closed, read);
        } else {
          ghost var slotted := View();
          s := s.(received := s.received + buffer[|s.conn.buffer|..]);
          SetSlot(fd, s.(conn := c));
          ServeAll(fd, closed, read);
          SlotIsReplaced(slotted, fd, s, s.(conn := c),
                         ServeLoop(c, closed, read.deadline, read.keep, 0, cfg.maxRequestSize));
        }
      }
    }

    /** The framing loop with a pool: it returns after its first turn. */
    method DispatchFirst(fd: nat, closed: bool, read: Read)
      requires cfg.pooled && HasPending(fd) && pending[fd].value.conn.buffer != []
      requires CacheOk(pending[fd].value.conn, cfg.maxRequestSize)
      modifies this
      ensures View() == AfterTurn(old(View()), fd,
                NextTurn(old(pending[fd].value.conn), closed, read.deadline, cfg.maxRequestSize), read.poolAccepts)
    {
      hide CacheOk, NextTurn;
      var s := pending[fd].value;
      var turn := TakeTurn(s.conn, closed, read.deadline, cfg.maxRequestSize);
      match turn
      case Wait(next) => {
        SetSlot(fd, s.(conn := next));
        RearmWait(fd);
      }
      case Refuse(code) => Reject(fd, code);
      case Cut(raw, rest) => {
        if rest.buffer != [] {
          SetSlot(fd, s.(conn := rest.(dispatching := true)));
        } else {
          DropPending(fd);
        }
        DispatchTask(fd, raw, read.poolAccepts);
      }
    }

    /** The framing loop without a pool: requests are served from the front until one may not be. */
    method ServeAll(fd: nat, closed: bool, read: Read)
      requires !cfg.pooled && HasPending(fd) && CacheOk(pending[fd].value.conn, cfg.maxRequestSize)
      modifies this
      ensures View() == AfterServe(old(View()), fd, old(pending[fd].value),
                ServeLoop(old(pending[fd].value.conn), closed, read.deadline, read.keep, 0, cfg.maxRequestSize))
    {
      hide CacheOk, NextTurn, ServeLoop, AfterServe, Onward, Slots, Rejected, Gone, Closed, Dropped;
      var s := pending[fd].value;
      var i := 0;
      ghost var max, io := cfg.maxRequestSize, View();
      ghost var all := ServeLoop(s.conn, closed, read.deadline, read.keep, 0, max);
      OnwardNone(io, fd, s, all);
      while pending[fd].value.conn.buffer != []
        invariant HasPending(fd) && CacheOk(pending[fd].value.conn, max)
        invariant Onward(io, View(), fd, s, pending[fd].value, i,
                         ServeLoop(pending[fd].value.conn, closed, read.deadline, read.keep, i, max), all)
        decreases |pending[fd].value.conn.buffer|
      {
        var now := pending[fd].value;
        ghost var at := View();
        ServeLoopStep(now.conn, closed, read.deadline, read.keep, i, max);
        var turn := TakeTurn(now.conn, closed, read.deadline, cfg.maxRequestSize);
        match turn {
          case Wait(next) =>
            OnwardDone(io, at, fd, s, now, i, StillOpen(next), all);
            SetSlot(fd, now.(conn := next));
            return;
          case Refuse(code) =>
            OnwardDone(io, at, fd, s, now, i, Refused(code), all);
            Reject(fd, code);
            return;
          case Cut(raw, rest) =>
            var served := now.(conn := rest, served := now.served + [raw]);
            SetSlot(fd, served);
            handled := handled + 1;
            if !read.keep(i) {
              assert [raw] + [] == [raw];
              OnwardOne(io, at, fd, s, now, i, raw, Handled([], Finished), all, served);
              OnwardDone(io, View(), fd, s, served, i + 1, Finished, all);
              Forget(fd);
              return;
            }
            OnwardOne(io, at, fd, s, now, i, raw, ServeLoop(rest, closed, read.deadline, read.keep, i + 1, max), all,
                      served);
            i := i + 1;
        }
      }
      ServeLoopEnd(pending[fd].value.conn, closed, read.deadline, read.keep, i, max);
      OnwardDone(io, View(), fd, s, pending[fd].value, i, StillOpen(pending[fd].value.conn), all);
      assert View().slots[fd := pending[fd].value] == View().slots;
    }

    /** The slots whose deadline is over and that do not wait for a worker. */
    method SweepStale(expired: set<nat>)
      modifies this
      ensures View() == Swept(old(View()), Stale(old(View()), expired))
    {
      ghost var io, n := View(), |pending|;
      ghost var stale := Stale(io, expired);
      assert forall fd :: fd in stale ==> fd < n;
      BelowStep(stale, 0);
      SweptNothing(io);
      hide Slots, Rejected, Swept, Below, Stale;
      for i := 0 to |pending|
        invariant |pending| == n
        invariant View() == Swept(io, Below(stale, i))
      {
        BelowStep(stale, i);
        SlotUnswept(io, Below(stale, i), i);
        StaleMeans(io, expired, i);
        if pending[i].None? || pending[i].value.conn.dispatching || i !in expired { continue; }
        SweptOne(io, Below(stale, i), i);
        Reject(i, 408);
      }
      BelowAll(stale, n);
    }

    /** Resets the slot, arms the descriptor, and handles leftover bytes at once. */
    method RearmConnection(fd: nat, read: Read)
      requires Sane(View(), cfg)
      modifies this
      ensures View() == AfterRearm(old(View()), fd, read, cfg)
    {
      hide CacheOk, AfterReadable;
      OpeningIsSane(cfg.maxRequestSize);
      PendingSlot(fd);
      var s := pending[fd].value;
      ResetIsSane(s.conn.buffer, cfg.maxRequestSize);
      SetSlot(fd, s.(conn := Conn(s.conn.buffer, 0, false, false)));
      armed := armed + {fd};
      if s.conn.buffer != [] { HandleReadable(fd, read); }
    }

    /** Takes all completions at once and ends or re-arms each connection, in order. */
    method DrainCompletions(finds: nat -> Read)
      requires Sane(View(), cfg)
      modifies this
      ensures View() == AfterEvent(old(View()), Notify(finds), cfg)
    {
      hide CacheOk, Sane, AfterReadable, AfterCompletion;
      ghost var io := View();
      StillSane(io, [], cfg);
      var done := completed;
      completed := [];
      for i := 0 to |done|
        invariant Sane(View(), cfg)
        invariant AfterDrain(View(), done[i..], finds, i, cfg) == AfterDrain(io.(completed := []), done, finds, 0, cfg)
      {
        assert done[i..][0] == done[i] && done[i..][1..] == done[i + 1..];
        CompletionSane(View(), done[i], finds(i), cfg);
        Complete(done[i], finds(i));
      }
    }

    method Complete(c: Completion, read: Read)
      requires Sane(View(), cfg)
      modifies this
      ensures View() == AfterCompletion(old(View()), c, read, cfg)
    {
      hide AfterRearm, Sane;
      if c.keepAlive {
        RearmConnection(c.fd, read);
      } else {
        Forget(c.fd);
      }
    }

    /** A wake-up with its events; none of them when the wait timed out or failed. */
    method Dispatch(events: seq<Event>, expired: set<nat>)
      requires Sane(View(), cfg)
      modifies this
      ensures View() == AfterDispatch(old(View()), Batch(events, expired), cfg)
    {
      hide CacheOk, Sane, AfterEvent, AfterReadable;
      for i := 0 to |events|
        invariant Sane(View(), cfg)
        invariant AfterEvents(View(), events[i..], cfg) == AfterEvents(old(View()), events, cfg)
      {
        assert events[i..][0] == events[i] && events[i..][1..] == events[i + 1..];
        DispatchEvent(events[i]);
      }
      SweepStale(expired);
    }

    /** The body of the dispatch loop. */
    method DispatchEvent(event: Event)
      requires Sane(View(), cfg)
      modifies this
      ensures View() == AfterEvent(old(View()), event, cfg)
    {
      hide CacheOk, AfterReadable, AfterDrain, AfterAccepts;
      match event
      case Notify(finds) => DrainCompletions(finds);
      case Listener(accepts) => AcceptPending(accepts);
      case Client(fd, hup, readable, read) => {
        if hup {
          if readable { HandleReadable(fd, read); }
          if HasPending(fd) { HangUp(fd); }
        } else if readable {
          HandleReadable(fd, read);
        }
      }
    }

    /** Closes what the workers left behind and every slot; the pool has been joined. */
    method Shutdown()
      modifies this
      ensures View() == AfterShutdown(old(View())) && pending == []
    {
      var done := completed;
      completed := [];
      ghost var io := View();
      for i := 0 to |done|
        invariant AllGone(View(), done[i..]) == AllGone(io, done)
      {
        assert done[i..][0] == done[i] && done[i..][1..] == done[i + 1..];
        Forget(done[i].fd);
      }
      CloseAll();
      pending := [];
      assert Slots(pending) == map[];
    }

    /** Closes the descriptor of every engaged slot. */
    method CloseAll()
      modifies this`open, this`armed, this`closed, this`misused, this`active
      ensures View().(slots := map[]) == Cleared(old(View()))
    {
      ghost var io, fds := View(), View().slots.Keys;
      assert forall fd :: fd in fds ==> fd < |pending|;
      assert Below(fds, 0) == {};
      hide Slots, Closed, ClosedOff, Below;
      assert ClosedOff(io, {}) == io by { NoneClosed(io); }
      for i := 0 to |pending|
        invariant View() == ClosedOff(io, Below(fds, i))
      {
        assert HasPending(i) <==> i in fds;
        BelowStep(fds, i);
        if pending[i].None? { continue; }
        ClosedOne(io, Below(fds, i), i);
        Close(i);
        active := active - 1;
      }
      assert Below(fds, |pending|) == fds by { BelowAll(fds, |pending|); }
      AllClosed(io);
    }
  }

  /** The descriptors `fds` closed, their slots still there. */
  function ClosedOff(io: IO, fds: set<nat>): IO {
    io.(open := io.open - fds, armed := io.armed - fds, active := io.active - |fds|,
        closed := io.closed + |fds|, misused := io.misused || !(fds <= io.open))
  }

  lemma NoneClosed(io: IO)
    ensures ClosedOff(io, {}) == io
  {
  }

  lemma ClosedOne(io: IO, fds: set<nat>, fd: nat)
    requires fd !in fds
    ensures var next := Closed(ClosedOff(io, fds), fd);
            next.(active := next.active - 1) == ClosedOff(io, fds + {fd})
  {
    assert io.open - fds - {fd} == io.open - (fds + {fd});
    assert io.armed - fds - {fd} == io.armed - (fds + {fd});
  }

  lemma AllClosed(io: IO)
    ensures ClosedOff(io, io.slots.Keys).(slots := map[]) == Cleared(io)
  {
  }

  lemma BelowStep(fds: set<nat>, i: nat)
    ensures Below(fds, 0) == {} && Below(fds, i + 1) == if i in fds then Below(fds, i) + {i} else Below(fds, i)
    ensures i !in Below(fds, i)
  {
  }

  lemma BelowAll(fds: set<nat>, n: nat)
    requires forall fd :: fd in fds ==> fd < n
    ensures Below(fds, n) == fds
  {
  }

  lemma StillSane(io: IO, completed: seq<Completion>, cfg: Config)
    requires Sane(io, cfg)
    ensures Sane(io.(completed := completed), cfg)
  {
  }

  function Below(fds: set<nat>, n: nat): set<nat> { set fd | fd in fds && fd < n }

  lemma SweptNothing(io: IO)
    ensures Swept(io, {}) == io
  {
    assert io.slots - {} == io.slots && io.open - {} == io.open && io.armed - {} == io.armed;
  }

  lemma SlotUnswept(io: IO, fds: set<nat>, fd: nat)
    requires fd !in fds
    ensures fd in Swept(io, fds).slots <==> fd in io.slots
    ensures fd in io.slots ==> Swept(io, fds).slots[fd] == io.slots[fd]
  {
  }

  lemma StaleMeans(io: IO, expired: set<nat>, fd: nat)
    ensures fd in Stale(io, expired) <==> fd in io.slots && fd in expired && !io.slots[fd].conn.dispatching
  {
  }

  lemma TimedOutOne(refused: map<nat, nat>, fds: set<nat>, fd: nat)
    ensures TimedOut(refused, fds)[fd := 408] == TimedOut(refused, fds + {fd})
  {
  }

  lemma SweptOne(io: IO, fds: set<nat>, fd: nat)
    requires fd !in fds
    ensures Rejected(Swept(io, fds), fd, 408) == Swept(io, fds + {fd})
  {
    TimedOutOne(io.refused, fds, fd);
    hide TimedOut;
    ClosedOne(io, fds, fd);
    assert io.slots - fds - {fd} == io.slots - (fds + {fd});
  }

  lemma ServeLoopEnd(c: Conn, closed: bool, deadline: bool, keep: nat -> bool, i: nat, max: nat)
    requires c.buffer == [] && CacheOk(c, max)
    ensures ServeLoop(c, closed, deadline, keep, i, max) == Handled([], StillOpen(c))
  {
    hide CacheOk, NextTurn;
  }
}
