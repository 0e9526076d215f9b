/** The bounded thread pool: its critical sections, and every interleaving of them. */
module ThreadPool {
  import opened Bytes

  const MIN_QUEUE_CAPACITY := 1024
  const QUEUE_CAPACITY_PER_THREAD := 256
  const TWO_TO_THE_64 := 0x1_0000_0000_0000_0000

  /** Capacity of the queue; the product wraps like `size_t`. */
  function QueueCapacity(threads: nat, configured: nat): (r: nat)
    ensures r >= 1
    ensures configured != 0 ==> r == configured
    ensures configured == 0 && 256 * threads < TWO_TO_THE_64 ==>
              1024 <= r && 256 * threads <= r && (r == 1024 || r == 256 * threads)
  {
    if configured != 0 then configured
    else
      var wanted := threads * QUEUE_CAPACITY_PER_THREAD % TWO_TO_THE_64;
      if wanted < MIN_QUEUE_CAPACITY then MIN_QUEUE_CAPACITY else wanted
  }

  /** A task, known by a number. */
  type Task = nat

  // ---- the critical sections ----------------------------------------------------------------

  /** What the mutex guards. */
  datatype Monitor = Monitor(queue: seq<Task>, stop: bool, capacity: nat)

  datatype WorkerTurn = WorkerWaits | WorkerExits | WorkerTakes(task: Task)
  datatype AddTurn = AddWaits | AddThrows | AddAccepts

  /** A worker evaluates its wait predicate and, past it, leaves or takes the oldest task. */
  function WorkerSection(m: Monitor): (Monitor, WorkerTurn) {
    if m.queue != [] then (m.(queue := m.queue[1..]), WorkerTakes(m.queue[0]))
    else if m.stop then (m, WorkerExits)
    else (m, WorkerWaits)
  }

  /** A caller of `addTask` evaluates its wait predicate and, past it, throws or queues its task. */
  function AddSection(m: Monitor, task: Task): (Monitor, AddTurn) {
    if m.stop then (m, AddThrows)
    else if |m.queue| >= m.capacity then (m, AddWaits)
    else (m.(queue := m.queue + [task]), AddAccepts)
  }

  /** `tryAddTask` never waits. */
  function TryAddSection(m: Monitor, task: Task): (Monitor, bool) {
    var (after, turn) := AddSection(m, task);
    (after, turn.AddAccepts?)
  }

  /** The pool's own fields; each method is one stretch of code under the mutex. */
  class Pool {
    const size: nat
    const maxQueueSize: nat
    var queue: seq<Task>
    var stop: bool

    ghost function State(): Monitor
      reads this
    {
      Monitor(queue, stop, maxQueueSize)
    }

    constructor (threads: nat, maxQueueSize: nat)
      ensures size == (if threads == 0 then 1 else threads)
      ensures State() == Monitor([], false, QueueCapacity(size, maxQueueSize))
    {
      size := if threads == 0 then 1 else threads;
      this.maxQueueSize := QueueCapacity(if threads == 0 then 1 else threads, maxQueueSize);
      queue, stop := [], false;
    }

    method TakeTask() returns (turn: WorkerTurn)
      modifies this
      ensures (State(), turn) == WorkerSection(old(State()))
      ensures stop == old(stop) && (turn.WorkerTakes? <==> old(queue) != []) && (turn.WorkerWaits? ==> !old(stop))
      ensures turn.WorkerExits? ==> old(stop)
      ensures if old(queue) != [] then old(queue) == [turn.task] + queue else queue == []
    {
      if !stop && queue == [] { return WorkerWaits; }
      if stop && queue == [] { return WorkerExits; }
      turn := WorkerTakes(queue[0]);
      queue := queue[1..];
    }

    method AddTask(task: Task) returns (turn: AddTurn)
      modifies this
      ensures (State(), turn) == AddSection(old(State()), task)
      ensures turn.AddThrows? <==> old(stop)
      ensures turn.AddWaits? <==> !old(stop) && |old(queue)| >= maxQueueSize
      ensures queue == old(queue) + (if turn.AddAccepts? then [task] else []) && stop == old(stop)
    {
      if !(stop || |queue| < maxQueueSize) { return AddWaits; }
      if stop { return AddThrows; }
      queue := queue + [task];
      return AddAccepts;
    }

    method TryAddTask(task: Task) returns (accepted: bool)
      modifies this
      ensures (State(), accepted) == TryAddSection(old(State()), task)
      ensures accepted <==> !old(stop) && |old(queue)| < maxQueueSize
      ensures queue == old(queue) + (if accepted then [task] else []) && stop == old(stop)
    {
      if stop { return false; }
      if |queue| >= maxQueueSize { return false; }
      queue := queue + [task];
      return true;
    }

    method Kill()
      modifies this
      ensures State() == old(State()).(stop := true)
    {
      stop := true;
    }
  }

  // ---- interleavings ------------------------------------------------------------------------

  /** Where a worker thread stands; `slot` is the place of its task among all tasks taken. */
  datatype Worker = Ready | Asleep | Running(slot: nat) | Exited

  /** Where a calling thread stands: what is left of its call. */
  datatype Client = Idle | Asking(task: Task) | Blocked(task: Task) | OwesOne | OwesWorkers | OwesClients | Joining

  /** The pool with its threads; `accepted`, `taken` and `finished` are histories. */
  datatype State = State(
    m: Monitor, accepted: seq<Task>, taken: seq<Task>, finished: set<nat>,
    workers: map<nat, Worker>, clients: map<nat, Client>)

  /** `pick` is the thread that a notification happens to wake, if one sleeps. */
  datatype Step =
    | WorkerStep(w: nat, pick: Option<nat>)
    | Finish(w: nat)
    | CallAdd(c: nat, task: Task)
    | AddStep(c: nat)
    | TryAdd(c: nat, task: Task)
    | NotifyOne(c: nat, pick: Option<nat>)
    | CallKill(c: nat)
    | NotifyWorkers(c: nat)
    | NotifyClients(c: nat)
    | KillReturns(c: nat)
    | SpuriousWorker(w: nat)
    | SpuriousClient(c: nat)

  /** Steps a thread inside the pool takes by itself: not new calls, not wake-ups out of nowhere. */
  predicate Internal(step: Step) {
    !step.CallAdd? && !step.TryAdd? && !step.CallKill? && !step.SpuriousWorker? && !step.SpuriousClient?
  }

  predicate AnyAsleep(workers: map<nat, Worker>) { exists w :: w in workers && workers[w].Asleep? }
  predicate AnyBlocked(clients: map<nat, Client>) { exists c :: c in clients && clients[c].Blocked? }
  predicate AllExited(workers: map<nat, Worker>) { forall w :: w in workers ==> workers[w].Exited? }

  predicate WakesWorker(s: State, pick: Option<nat>) {
    if pick.Some? then pick.value in s.workers && s.workers[pick.value].Asleep? else !AnyAsleep(s.workers)
  }

  predicate WakesClient(s: State, pick: Option<nat>) {
    if pick.Some? then pick.value in s.clients && s.clients[pick.value].Blocked? else !AnyBlocked(s.clients)
  }

  predicate Enabled(s: State, step: Step) {
    match step
    case WorkerStep(w, pick) =>
      && w in s.workers && s.workers[w].Ready?
      && (if WorkerSection(s.m).1.WorkerTakes? then WakesClient(s, pick) else pick.None?)
    case Finish(w) => w in s.workers && s.workers[w].Running?
    case CallAdd(c, _) => c in s.clients && s.clients[c].Idle?
    case AddStep(c) => c in s.clients && s.clients[c].Asking?
    case TryAdd(c, _) => c in s.clients && s.clients[c].Idle?
    case NotifyOne(c, pick) => c in s.clients && s.clients[c].OwesOne? && WakesWorker(s, pick)
    case CallKill(c) => c in s.clients && s.clients[c].Idle?
    case NotifyWorkers(c) => c in s.clients && s.clients[c].OwesWorkers?
    case NotifyClients(c) => c in s.clients && s.clients[c].OwesClients?
    case KillReturns(c) => c in s.clients && s.clients[c].Joining? && AllExited(s.workers)
    case SpuriousWorker(w) => w in s.workers && s.workers[w].Asleep?
    case SpuriousClient(c) => c in s.clients && s.clients[c].Blocked?
  }

  /** A woken client evaluates its predicate again. */
  function Woken(clients: map<nat, Client>, pick: Option<nat>): map<nat, Client>
    requires pick.Some? ==> pick.value in clients && clients[pick.value].Blocked?
  {
    if pick.Some? then clients[pick.value := Asking(clients[pick.value].task)] else clients
  }

  function AllReady(workers: map<nat, Worker>): map<nat, Worker> {
    map w | w in workers :: if workers[w].Asleep? then Ready else workers[w]
  }

  function AllAsking(clients: map<nat, Client>): map<nat, Client> {
    map c | c in clients :: if clients[c].Blocked? then Asking(clients[c].task) else clients[c]
  }

  function Next(s: State, step: Step): State
    requires Enabled(s, step)
  {
    match step
    case WorkerStep(w, pick) => (
      match WorkerSection(s.m)
      case (_, WorkerWaits) => s.(workers := s.workers[w := Asleep])
      case (_, WorkerExits) => s.(workers := s.workers[w := Exited])
      case (m, WorkerTakes(task)) =>
        s.(m := m, taken := s.taken + [task], workers := s.workers[w := Running(|s.taken|)],
           clients := Woken(s.clients, pick)))
    case Finish(w) =>
      s.(finished := s.finished + {s.workers[w].slot}, workers := s.workers[w := Ready])
    case CallAdd(c, task) => s.(clients := s.clients[c := Asking(task)])
    case AddStep(c) =>
      var task := s.clients[c].task;
      (match AddSection(s.m, task)
       case (_, AddWaits) => s.(clients := s.clients[c := Blocked(task)])
       case (_, AddThrows) => s.(clients := s.clients[c := Idle])
       case (m, AddAccepts) => s.(m := m, accepted := s.accepted + [task], clients := s.clients[c := OwesOne]))
    case TryAdd(c, task) => (
      match TryAddSection(s.m, task)
      case (_, false) => s
      case (m, true) => s.(m := m, accepted := s.accepted + [task], clients := s.clients[c := OwesOne]))
    case NotifyOne(c, pick) =>
      s.(workers := if pick.Some? then s.workers[pick.value := Ready] else s.workers, clients := s.clients[c := Idle])
    case CallKill(c) => s.(m := s.m.(stop := true), clients := s.clients[c := OwesWorkers])
    case NotifyWorkers(c) => s.(workers := AllReady(s.workers), clients := s.clients[c := OwesClients])
    case NotifyClients(c) => s.(clients := AllAsking(s.clients)[c := Joining])
    case KillReturns(c) => s.(clients := s.clients[c := Idle])
    case SpuriousWorker(w) => s.(workers := s.workers[w := Ready])
    case SpuriousClient(c) => s.(clients := s.clients[c := Asking(s.clients[c].task)])
  }

  function Initial(workers: set<nat>, capacity: nat, callers: set<nat>): State {
    State(Monitor([], false, capacity), [], [], {}, map w | w in workers :: Ready, map c | c in callers :: Idle)
  }

  /** `steps` lead from `s` to `t`. */
  predicate Leads(s: State, steps: seq<Step>, t: State)
    decreases steps
  {
    if steps == [] then s == t
    else Enabled(s, steps[0]) && Leads(Next(s, steps[0]), steps[1..], t)
  }

  // ---- invariants ---------------------------------------------------------------------------

  /** First in, first out, nothing lost, within the bound. */
  predicate Ordered(s: State) {
    s.taken + s.m.queue == s.accepted && |s.m.queue| <= s.m.capacity
  }

  predicate Runs(s: State, w: nat, slot: nat) { w in s.workers && s.workers[w] == Running(slot) }

  /** Every task taken is either finished or running on one worker. */
  ghost predicate Placed(s: State) {
    && (forall k :: k in s.finished ==> k < |s.taken|)
    && (forall w, k: nat :: Runs(s, w, k) ==> k < |s.taken| && k !in s.finished)
    && (forall w, v, k: nat :: Runs(s, w, k) && Runs(s, v, k) ==> w == v)
    && (forall k :: 0 <= k < |s.taken| ==> k in s.finished || exists w :: Runs(s, w, k))
  }

  function ReadyOnes(workers: map<nat, Worker>): set<nat> { set w | w in workers && workers[w].Ready? }
  function Owing(clients: map<nat, Client>): set<nat> { set c | c in clients && clients[c].OwesOne? }
  function AskingOnes(clients: map<nat, Client>): set<nat> { set c | c in clients && clients[c].Asking? }

  predicate AnyOwes(clients: map<nat, Client>, clientsToo: bool) {
    exists c :: c in clients && (clients[c].OwesWorkers? || (clientsToo && clients[c].OwesClients?))
  }

  /** No sleeping worker is missed: the queue is covered by workers on their way and notifications owed. */
  predicate WorkersCovered(s: State) {
    && (AnyAsleep(s.workers) ==> |s.m.queue| <= |ReadyOnes(s.workers)| + |Owing(s.clients)|)
    && (s.m.stop && AnyAsleep(s.workers) ==> AnyOwes(s.clients, false))
    && (forall w :: w in s.workers && s.workers[w].Exited? ==> s.m.stop && s.m.queue == [])
  }

  /** No blocked caller is missed: the free places are covered by callers on their way. */
  predicate ClientsCovered(s: State) {
    && (!s.m.stop && AnyBlocked(s.clients) ==> |s.m.queue| + |AskingOnes(s.clients)| >= s.m.capacity)
    && (s.m.stop && AnyBlocked(s.clients) ==> AnyOwes(s.clients, true))
  }

  ghost predicate Inv(s: State) {
    Ordered(s) && Placed(s) && WorkersCovered(s) && ClientsCovered(s)
  }

  lemma OrderedKept(s: State, step: Step)
    requires Ordered(s) && Enabled(s, step)
    ensures Ordered(Next(s, step))
  {
    var t := Next(s, step);
    if step.WorkerStep? && s.m.queue != [] {
      assert s.m.queue == [s.m.queue[0]] + s.m.queue[1..];
      assert t.taken + t.m.queue == s.taken + ([s.m.queue[0]] + s.m.queue[1..]);
    } else if t.m.queue != s.m.queue {
      var task := t.m.queue[|s.m.queue|];
      assert t.taken + t.m.queue == s.taken + s.m.queue + [task];
    }
  }

  lemma PlacedKept(s: State, step: Step)
    requires Placed(s) && Enabled(s, step)
    ensures Placed(Next(s, step))
  {
    var t := Next(s, step);
    match step
    case WorkerStep(w, _) => {
      if s.m.queue != [] { assert Runs(t, w, |s.taken|); }
      assert forall v, k: nat :: Runs(s, v, k) ==> Runs(t, v, k);
      assert forall v, k: nat :: Runs(t, v, k) ==> Runs(s, v, k) || (v == w && k == |s.taken|);
    }
    case Finish(w) => {
      assert Runs(s, w, s.workers[w].slot);
      assert forall v, k: nat :: Runs(t, v, k) <==> Runs(s, v, k) && v != w;
    }
    case _ => assert forall v, k: nat :: Runs(t, v, k) <==> Runs(s, v, k);
  }

  lemma ReadyUpdate(workers: map<nat, Worker>, w: nat, to: Worker)
    requires w in workers
    ensures ReadyOnes(workers[w := to]) == if to.Ready? then ReadyOnes(workers) + {w} else ReadyOnes(workers) - {w}
  {
  }

  lemma ClientUpdate(clients: map<nat, Client>, c: nat, to: Client)
    requires c in clients
    ensures Owing(clients[c := to]) == if to.OwesOne? then Owing(clients) + {c} else Owing(clients) - {c}
    ensures AskingOnes(clients[c := to]) == if to.Asking? then AskingOnes(clients) + {c} else AskingOnes(clients) - {c}
  {
  }

  lemma WorkersCoveredByWorker(s: State, step: Step)
    requires step.WorkerStep? || step.Finish? || step.SpuriousWorker?
    requires WorkersCovered(s) && Enabled(s, step)
    ensures WorkersCovered(Next(s, step))
  {
    var t := Next(s, step);
    assert forall c :: c in s.clients && s.clients[c].OwesWorkers? ==> t.clients[c].OwesWorkers?;
    assert Owing(t.clients) == Owing(s.clients);
    WorkerMoved(s, step);
    hide Next, Enabled, Owing;
    CoveredByMove(s, t, step.w);
  }

  /** What a worker's own step does: it sleeps or exits beside an empty queue, takes a task, or becomes ready. */
  lemma WorkerMoved(s: State, step: Step)
    requires step.WorkerStep? || step.Finish? || step.SpuriousWorker?
    requires Enabled(s, step)
    ensures var t, w := Next(s, step), step.w;
            && w in s.workers && w in t.workers && t.workers == s.workers[w := t.workers[w]] && t.m.stop == s.m.stop
            && (t.workers[w].Ready? ==> !s.workers[w].Ready? && !s.workers[w].Exited? && t.m.queue == s.m.queue)
            && (t.workers[w].Running? ==> s.workers[w].Ready? && |t.m.queue| == |s.m.queue| - 1)
            && (t.workers[w].Asleep? ==> !s.m.stop && t.m.queue == s.m.queue == [])
            && (t.workers[w].Exited? ==> s.m.stop && t.m.queue == s.m.queue == [])
  {
  }

  /** Two sets that differ at most in `x`. */
  lemma DifferInOne(a: set<nat>, b: set<nat>, x: nat)
    requires a - {x} == b - {x}
    ensures |b| == |a| - (if x in a then 1 else 0) + (if x in b then 1 else 0)
  {
    assert a == if x in a then (a - {x}) + {x} else a - {x};
    assert b == if x in b then (a - {x}) + {x} else a - {x};
  }

  lemma ReadyMoved(workers: map<nat, Worker>, w: nat, to: Worker)
    requires w in workers
    ensures |ReadyOnes(workers[w := to])|
            == |ReadyOnes(workers)| - (if workers[w].Ready? then 1 else 0) + (if to.Ready? then 1 else 0)
  {
    ReadyUpdate(workers, w, to);
    var a, b := ReadyOnes(workers), ReadyOnes(workers[w := to]);
    assert a - {w} == b - {w} && (w in a <==> workers[w].Ready?) && (w in b <==> to.Ready?);
    hide ReadyOnes;
    DifferInOne(a, b, w);
  }

  lemma ExitedMoved(s: State, t: State, w: nat)
    requires forall v :: v in s.workers && s.workers[v].Exited? ==> s.m.stop && s.m.queue == []
    requires w in s.workers && w in t.workers && t.workers == s.workers[w := t.workers[w]] && t.m.stop == s.m.stop
    requires s.m.queue == [] ==> t.m.queue == [] || t.workers[w].Running?
    requires t.workers[w].Running? ==> s.m.queue != []
    requires t.workers[w].Exited? ==> s.m.stop && t.m.queue == []
    ensures forall v :: v in t.workers && t.workers[v].Exited? ==> t.m.stop && t.m.queue == []
  {
    forall v | v in t.workers && t.workers[v].Exited? ensures t.m.stop && t.m.queue == [] {
      assert v != w ==> s.workers[v] == t.workers[v];
    }
  }

  lemma AsleepMoved(workers: map<nat, Worker>, moved: map<nat, Worker>, w: nat)
    requires w in workers && w in moved && moved == workers[w := moved[w]]
    ensures AnyAsleep(moved) ==> AnyAsleep(workers) || moved[w].Asleep?
  {
  }

  lemma OwesStays(clients: map<nat, Client>, later: map<nat, Client>)
    requires forall c :: c in clients && clients[c].OwesWorkers? ==> c in later && later[c].OwesWorkers?
    ensures AnyOwes(clients, false) ==> AnyOwes(later, false)
  {
  }

  lemma CoveredByMove(s: State, t: State, w: nat)
    requires WorkersCovered(s) && w in s.workers && w in t.workers && t.workers == s.workers[w := t.workers[w]]
    requires t.m.stop == s.m.stop && Owing(t.clients) == Owing(s.clients)
    requires forall c :: c in s.clients && s.clients[c].OwesWorkers? ==> c in t.clients && t.clients[c].OwesWorkers?
    requires t.workers[w].Ready? ==> !s.workers[w].Ready? && !s.workers[w].Exited? && t.m.queue == s.m.queue
    requires t.workers[w].Running? ==> s.workers[w].Ready? && |t.m.queue| == |s.m.queue| - 1
    requires t.workers[w].Asleep? ==> !s.m.stop && t.m.queue == s.m.queue == []
    requires t.workers[w].Exited? ==> s.m.stop && t.m.queue == s.m.queue == []
    ensures WorkersCovered(t)
  {
    ReadyMoved(s.workers, w, t.workers[w]);
    AsleepMoved(s.workers, t.workers, w);
    OwesStays(s.clients, t.clients);
    ExitedMoved(s, t, w);
    hide Owing, ReadyOnes, AnyAsleep, AnyOwes;
  }

  lemma WorkersCoveredByNotify(s: State, step: Step)
    requires step.NotifyOne? || step.NotifyWorkers? || step.NotifyClients?
    requires WorkersCovered(s) && Enabled(s, step)
    ensures WorkersCovered(Next(s, step))
  {
    var t := Next(s, step);
    if !step.NotifyClients? { ClientUpdate(s.clients, step.c, t.clients[step.c]); }
    match step
    case NotifyOne(c, pick) => {
      assert forall k :: k in s.clients && s.clients[k].OwesWorkers? ==> t.clients[k].OwesWorkers?;
      if pick.Some? { ReadyUpdate(s.workers, pick.value, Ready); }
    }
    case NotifyWorkers(c) =>
    case NotifyClients(c) => {
      assert forall k :: k in s.clients && s.clients[k].OwesWorkers? ==> t.clients[k].OwesWorkers?;
      assert Owing(t.clients) == Owing(s.clients);
    }
  }

  /** One calling thread `c` moved, and no worker. */
  predicate CallerMoved(s: State, t: State, c: nat) {
    && c in s.clients && c in t.clients && t.clients == s.clients[c := t.clients[c]] && t.workers == s.workers
    && t.m.capacity == s.m.capacity
    && !s.clients[c].OwesOne?
    && |t.m.queue| == |s.m.queue| + (if t.clients[c].OwesOne? then 1 else 0)
    && (s.m.stop ==> t.m.stop && t.m.queue == s.m.queue)
    && (t.m.stop && !s.m.stop ==> t.clients[c].OwesWorkers?)
    && (!t.m.stop && s.clients[c].Asking? ==>
          t.clients[c].OwesOne? || (t.clients[c].Blocked? && |s.m.queue| >= s.m.capacity))
    && (t.clients[c].Blocked? ==> !t.m.stop && |s.m.queue| >= s.m.capacity)
  }

  predicate IsCall(step: Step) {
    step.CallAdd? || step.AddStep? || step.TryAdd? || step.CallKill? || step.KillReturns? || step.SpuriousClient?
  }

  lemma CallMoves(s: State, step: Step)
    requires IsCall(step) && Enabled(s, step)
    ensures CallerMoved(s, Next(s, step), step.c) && !s.clients[step.c].OwesWorkers? && !s.clients[step.c].OwesClients?
  {
    var t := Next(s, step);
    assert t.clients == s.clients[step.c := t.clients[step.c]];
  }

  lemma WorkersCoveredByCall(s: State, t: State, c: nat)
    requires CallerMoved(s, t, c) && WorkersCovered(s) && !s.clients[c].OwesWorkers?
    ensures WorkersCovered(t)
  {
    assert forall k :: k in s.clients && s.clients[k].OwesWorkers? ==> t.clients[k].OwesWorkers?;
    ClientUpdate(s.clients, c, t.clients[c]);
  }

  lemma ClientsCoveredByCall(s: State, t: State, c: nat)
    requires CallerMoved(s, t, c) && ClientsCovered(s) && !s.clients[c].OwesWorkers? && !s.clients[c].OwesClients?
    ensures ClientsCovered(t)
  {
    assert forall k :: k in s.clients && k != c ==> t.clients[k] == s.clients[k];
    ClientUpdate(s.clients, c, t.clients[c]);
  }

  lemma WorkersCoveredKept(s: State, step: Step)
    requires WorkersCovered(s) && Enabled(s, step)
    ensures WorkersCovered(Next(s, step))
  {
    hide WorkersCovered, Next, Enabled;
    if step.WorkerStep? || step.Finish? || step.SpuriousWorker? {
      WorkersCoveredByWorker(s, step);
    } else if step.NotifyOne? || step.NotifyWorkers? || step.NotifyClients? {
      WorkersCoveredByNotify(s, step);
    } else {
      CallMoves(s, step);
      WorkersCoveredByCall(s, Next(s, step), step.c);
    }
  }

  lemma ClientsCoveredByWorker(s: State, step: Step)
    requires step.WorkerStep? || step.Finish? || step.SpuriousWorker?
    requires ClientsCovered(s) && Enabled(s, step)
    ensures ClientsCovered(Next(s, step))
  {
    var t := Next(s, step);
    assert forall k ::
      k in s.clients && (s.clients[k].OwesWorkers? || s.clients[k].OwesClients?) ==> t.clients[k] == s.clients[k];
    if step.WorkerStep? && step.pick.Some? { ClientUpdate(s.clients, step.pick.value, t.clients[step.pick.value]); }
  }

  lemma ClientsCoveredByNotify(s: State, step: Step)
    requires step.NotifyOne? || step.NotifyWorkers? || step.NotifyClients?
    requires ClientsCovered(s) && Enabled(s, step)
    ensures ClientsCovered(Next(s, step))
  {
    var t := Next(s, step);
    if step.NotifyClients? {
      assert !AnyBlocked(t.clients);
    } else {
      assert forall k :: k in s.clients && k != step.c ==> t.clients[k] == s.clients[k];
      ClientUpdate(s.clients, step.c, t.clients[step.c]);
    }
  }

  lemma ClientsCoveredKept(s: State, step: Step)
    requires ClientsCovered(s) && Enabled(s, step)
    ensures ClientsCovered(Next(s, step))
  {
    hide ClientsCovered, Next, Enabled;
    if step.WorkerStep? || step.Finish? || step.SpuriousWorker? {
      ClientsCoveredByWorker(s, step);
    } else if step.NotifyOne? || step.NotifyWorkers? || step.NotifyClients? {
      ClientsCoveredByNotify(s, step);
    } else {
      CallMoves(s, step);
      ClientsCoveredByCall(s, Next(s, step), step.c);
    }
  }

  lemma {:induction false} InvHolds(s: State, steps: seq<Step>, t: State)
    requires Inv(s) && Leads(s, steps, t)
    ensures Inv(t)
    decreases steps
  {
    if steps != [] {
      OrderedKept(s, steps[0]);
      PlacedKept(s, steps[0]);
      WorkersCoveredKept(s, steps[0]);
      ClientsCoveredKept(s, steps[0]);
      InvHolds(Next(s, steps[0]), steps[1..], t);
    }
  }

  /** Every accepted task has been taken and has finished. */
  ghost predicate AllRan(s: State) {
    s.taken == s.accepted && forall k :: k in s.finished <==> 0 <= k < |s.taken|
  }

  /** In every run: first in first out, bounded, each task run at most once, and all of them once the workers are
    * joined. */
  lemma PoolSafety(workers: set<nat>, capacity: nat, callers: set<nat>, steps: seq<Step>, t: State)
    requires Leads(Initial(workers, capacity, callers), steps, t)
    ensures t.taken + t.m.queue == t.accepted && |t.m.queue| <= capacity
    ensures forall w, v, k: nat :: Runs(t, w, k) && Runs(t, v, k) ==> w == v && k !in t.finished
    ensures workers != {} && AllExited(t.workers) ==> t.m.stop && AllRan(t)
    ensures AnyAsleep(t.workers) ==> |t.m.queue| <= |ReadyOnes(t.workers)| + |Owing(t.clients)|
    ensures !t.m.stop && AnyBlocked(t.clients) ==> |t.m.queue| + |AskingOnes(t.clients)| >= capacity
  {
    var s := Initial(workers, capacity, callers);
    InvHolds(s, steps, t);
    ShapeKept(s, steps, t);
    if workers != {} && AllExited(t.workers) {
      var w :| w in workers;
      assert w in t.workers && t.workers[w].Exited?;
      assert forall v, k: nat :: !Runs(t, v, k);
    }
  }

  /** The threads and the capacity never change. */
  lemma {:induction false} ShapeKept(s: State, steps: seq<Step>, t: State)
    requires Leads(s, steps, t)
    ensures t.m.capacity == s.m.capacity && t.workers.Keys == s.workers.Keys && t.clients.Keys == s.clients.Keys
    decreases steps
  {
    if steps != [] { ShapeKept(Next(s, steps[0]), steps[1..], t); }
  }

  /** The pool is stopped exactly when somebody has called `kill`. */
  lemma {:induction false} StoppedIffKilled(s: State, steps: seq<Step>, t: State)
    requires Leads(s, steps, t)
    ensures t.m.stop <==> s.m.stop || exists i :: 0 <= i < |steps| && steps[i].CallKill?
    decreases steps
  {
    if steps != [] {
      var next, rest := Next(s, steps[0]), steps[1..];
      StoppedIffKilled(next, rest, t);
      assert next.m.stop <==> s.m.stop || steps[0].CallKill?;
      hide Next, Enabled, Leads;
      if i :| 0 <= i < |rest| && rest[i].CallKill? { assert steps[i + 1].CallKill?; }
      if i :| 1 <= i < |steps| && steps[i].CallKill? { assert rest[i - 1].CallKill?; }
    }
  }

  /** How many accepted tasks no worker has taken yet. */
  function Waiting(s: State): int { |s.accepted| - |s.taken| }

  /** In every interleaving a call that does not wait is accepted exactly while there is no stop and a place is free. */
  lemma TryAddAnswered(workers: set<nat>, capacity: nat, callers: set<nat>, steps: seq<Step>, s: State, c: nat,
        task: Task)
    requires Leads(Initial(workers, capacity, callers), steps, s) && Enabled(s, TryAdd(c, task))
    ensures var t := Next(s, TryAdd(c, task));
            && t.accepted == s.accepted + (if !s.m.stop && Waiting(s) < capacity then [task] else [])
            && t.taken == s.taken && t.finished == s.finished && t.m.stop == s.m.stop
            && (t == s || (t.clients == s.clients[c := OwesOne] && t.m.queue == s.m.queue + [task]))
  {
    PoolSafety(workers, capacity, callers, steps, s);
    ShapeKept(Initial(workers, capacity, callers), steps, s);
  }

  /** A call that may wait throws exactly after a stop, and waits exactly while there is none and no free place. */
  lemma AddAnswered(workers: set<nat>, capacity: nat, callers: set<nat>, steps: seq<Step>, s: State, c: nat)
    requires Leads(Initial(workers, capacity, callers), steps, s) && Enabled(s, AddStep(c))
    ensures var t := Next(s, AddStep(c));
            var task := s.clients[c].task;
            && (t.clients[c] == Idle <==> s.m.stop)
            && (t.clients[c] == Blocked(task) <==> !s.m.stop && Waiting(s) >= capacity)
            && (t.clients[c] == OwesOne <==> !s.m.stop && Waiting(s) < capacity)
            && t.accepted == s.accepted + (if t.clients[c].OwesOne? then [task] else [])
            && t.taken == s.taken && t.finished == s.finished && t.m.stop == s.m.stop
  {
    PoolSafety(workers, capacity, callers, steps, s);
    ShapeKept(Initial(workers, capacity, callers), steps, s);
  }

  /** A ready worker takes the oldest task there is, leaves once there is none after a stop, and sleeps otherwise. */
  lemma WorkerServed(workers: set<nat>, capacity: nat, callers: set<nat>, steps: seq<Step>, s: State, w: nat,
        pick: Option<nat>)
    requires Leads(Initial(workers, capacity, callers), steps, s) && Enabled(s, WorkerStep(w, pick))
    ensures var t := Next(s, WorkerStep(w, pick));
            && (if Waiting(s) > 0 then t.taken == s.accepted[..|s.taken| + 1] && t.workers[w] == Running(|s.taken|)
                else t.taken == s.taken && t.workers[w] == if s.m.stop then Exited else Asleep)
            && t.accepted == s.accepted && t.finished == s.finished && t.m.stop == s.m.stop
  {
    PoolSafety(workers, capacity, callers, steps, s);
  }

  /** After a stop nothing more is accepted. */
  lemma {:induction false} StopIsFinal(s: State, steps: seq<Step>, t: State)
    requires s.m.stop && Leads(s, steps, t)
    ensures t.m.stop && t.accepted == s.accepted
    decreases steps
  {
    if steps != [] { StopIsFinal(Next(s, steps[0]), steps[1..], t); }
  }

  /** Some thread of the pool can move by itself. */
  ghost predicate CanMove(s: State) { exists step :: Internal(step) && Enabled(s, step) }

  lemma AWorkerCanMove(s: State, w: nat)
    requires w in s.workers && (s.workers[w].Ready? || s.workers[w].Running?)
    ensures CanMove(s)
  {
    if s.workers[w].Running? {
      assert Enabled(s, Finish(w));
    } else if WorkerSection(s.m).1.WorkerTakes? && AnyBlocked(s.clients) {
      var c :| c in s.clients && s.clients[c].Blocked?;
      assert Enabled(s, WorkerStep(w, Some(c)));
    } else {
      assert Enabled(s, WorkerStep(w, None));
    }
  }

  lemma AClientCanMove(s: State, c: nat)
    requires c in s.clients && !s.clients[c].Idle? && !s.clients[c].Blocked?
    requires s.clients[c].Joining? ==> AllExited(s.workers)
    ensures CanMove(s)
  {
    match s.clients[c]
    case Asking(_) => assert Enabled(s, AddStep(c));
    case OwesOne => {
      if AnyAsleep(s.workers) {
        var w :| w in s.workers && s.workers[w].Asleep?;
        assert Enabled(s, NotifyOne(c, Some(w)));
      } else {
        assert Enabled(s, NotifyOne(c, None));
      }
    }
    case OwesWorkers => assert Enabled(s, NotifyWorkers(c));
    case OwesClients => assert Enabled(s, NotifyClients(c));
    case Joining => assert Enabled(s, KillReturns(c));
  }

  /** A run that can go no further by itself has run every accepted task and left no caller blocked or joining. */
  lemma NeverStuck(workers: set<nat>, capacity: nat, callers: set<nat>, steps: seq<Step>, t: State)
    requires capacity >= 1 && workers != {}
    requires Leads(Initial(workers, capacity, callers), steps, t) && !CanMove(t)
    ensures AllRan(t)
    ensures forall c :: c in t.clients ==> t.clients[c].Idle?
    ensures t.m.stop ==> AllExited(t.workers)
    ensures !t.m.stop ==> forall w :: w in t.workers ==> t.workers[w].Asleep?
  {
    var s := Initial(workers, capacity, callers);
    InvHolds(s, steps, t);
    ShapeKept(s, steps, t);
    forall w | w in t.workers ensures t.workers[w].Asleep? || t.workers[w].Exited? {
      if !t.workers[w].Asleep? && !t.workers[w].Exited? { AWorkerCanMove(t, w); }
    }
    forall c | c in t.clients ensures t.clients[c].Idle? || t.clients[c].Blocked? || t.clients[c].Joining? {
      if !t.clients[c].Idle? && !t.clients[c].Blocked? && !t.clients[c].Joining? { AClientCanMove(t, c); }
    }
    assert ReadyOnes(t.workers) == {} && Owing(t.clients) == {} && AskingOnes(t.clients) == {};
    assert t.m.stop ==> AllExited(t.workers);
    var w :| w in workers;
    assert w in t.workers;
    assert t.m.queue == [];
    assert forall v, k: nat :: !Runs(t, v, k);
    assert AllRan(t);
    StoppedByKill(s, steps, t);
    forall c | c in t.clients ensures t.clients[c].Idle? {
      if t.clients[c].Joining? && AllExited(t.workers) { AClientCanMove(t, c); }
    }
  }

  /** A caller that joins has stopped the pool. */
  lemma {:induction false} StoppedByKill(s: State, steps: seq<Step>, t: State)
    requires Leads(s, steps, t)
    requires forall c ::
               c in s.clients && (s.clients[c].OwesWorkers? || s.clients[c].OwesClients? || s.clients[c].Joining?)
               ==> s.m.stop
    ensures forall c :: c in t.clients && t.clients[c].Joining? ==> t.m.stop
    decreases steps
  {
    if steps != [] { StoppedByKill(Next(s, steps[0]), steps[1..], t); }
  }

  // ---- how long the pool can go on by itself ------------------------------------------------------------

  function WorkerKind(w: Worker): nat {
    match w case Asleep => 0 case Exited => 0 case Ready => 1 case Running(_) => 2
  }

  function ClientKind(c: Client): nat {
    match c
    case Idle => 0
    case Joining => 1
    case OwesOne => 2
    case Blocked(_) => 3
    case Asking(_) => 4
    case OwesClients => 5
    case OwesWorkers => 6
  }

  function WorkersOf(workers: map<nat, Worker>, kind: nat): set<nat> {
    set w | w in workers && WorkerKind(workers[w]) == kind
  }

  function ClientsOf(clients: map<nat, Client>, kind: nat): set<nat> {
    set c | c in clients && ClientKind(clients[c]) == kind
  }

  /** What the workers' own steps may still cost. */
  function WorkerRank(workers: map<nat, Worker>): nat {
    |WorkersOf(workers, 1)| + 2 * |WorkersOf(workers, 2)|
  }

  /** What the callers' steps may still cost, broadcasts apart. */
  function ClientRank(clients: map<nat, Client>): nat {
    |ClientsOf(clients, 1)| + 2 * |ClientsOf(clients, 2)| + 5 * |ClientsOf(clients, 3)| + 6 * |ClientsOf(clients, 4)|
  }

  /** Broadcasts still owed by calls of `kill`: first to the workers, then to the callers. */
  function Broadcasts(clients: map<nat, Client>): nat {
    2 * |ClientsOf(clients, 6)| + |ClientsOf(clients, 5)|
  }

  /** A broadcast wakes every thread at most. */
  function WakeCost(s: State): nat { |s.workers| + |s.clients| + 2 }

  /** An upper bound on the steps that the pool can take without a new call or a spurious wake-up. */
  function Rank(s: State): nat {
    3 * |s.m.queue| + WorkerRank(s.workers) + ClientRank(s.clients) + Broadcasts(s.clients) * WakeCost(s)
  }

  lemma WorkerKindMoves(workers: map<nat, Worker>, w: nat, to: Worker, kind: nat)
    requires w in workers
    ensures |WorkersOf(workers[w := to], kind)| == |WorkersOf(workers, kind)|
            - (if WorkerKind(workers[w]) == kind then 1 else 0) + (if WorkerKind(to) == kind then 1 else 0)
  {
    var a, b := WorkersOf(workers, kind), WorkersOf(workers[w := to], kind);
    assert a - {w} == b - {w};
    assert (w in a <==> WorkerKind(workers[w]) == kind) && (w in b <==> WorkerKind(to) == kind);
    hide WorkersOf, WorkerKind;
    DifferInOne(a, b, w);
  }

  lemma WorkerMoves(workers: map<nat, Worker>, w: nat, to: Worker)
    requires w in workers
    ensures WorkerRank(workers[w := to]) == WorkerRank(workers) - WorkerKind(workers[w]) + WorkerKind(to)
    ensures |workers[w := to]| == |workers|
  {
    hide WorkersOf;
    WorkerKindMoves(workers, w, to, 1);
    WorkerKindMoves(workers, w, to, 2);
    assert workers[w := to].Keys == workers.Keys;
    assert |workers[w := to]| == |workers[w := to].Keys| && |workers| == |workers.Keys|;
  }

  function ClientCost(c: Client): nat {
    match c
    case Joining => 1
    case OwesOne => 2
    case Blocked(_) => 5
    case Asking(_) => 6
    case _ => 0
  }

  function BroadcastCost(c: Client): nat {
    match c case OwesWorkers => 2 case OwesClients => 1 case _ => 0
  }

  lemma KindMoves(clients: map<nat, Client>, c: nat, to: Client, kind: nat)
    requires c in clients
    ensures |ClientsOf(clients[c := to], kind)| == |ClientsOf(clients, kind)|
            - (if ClientKind(clients[c]) == kind then 1 else 0) + (if ClientKind(to) == kind then 1 else 0)
  {
    var a, b := ClientsOf(clients, kind), ClientsOf(clients[c := to], kind);
    assert a - {c} == b - {c};
    assert (c in a <==> ClientKind(clients[c]) == kind) && (c in b <==> ClientKind(to) == kind);
    hide ClientsOf, ClientKind;
    DifferInOne(a, b, c);
  }

  lemma ClientMoves(clients: map<nat, Client>, c: nat, to: Client)
    requires c in clients
    ensures ClientRank(clients[c := to]) == ClientRank(clients) - ClientCost(clients[c]) + ClientCost(to)
    ensures Broadcasts(clients[c := to]) == Broadcasts(clients) - BroadcastCost(clients[c]) + BroadcastCost(to)
    ensures |clients[c := to]| == |clients|
  {
    hide ClientsOf;
    KindMoves(clients, c, to, 1);
    KindMoves(clients, c, to, 2);
    KindMoves(clients, c, to, 3);
    KindMoves(clients, c, to, 4);
    KindMoves(clients, c, to, 5);
    KindMoves(clients, c, to, 6);
    assert clients[c := to].Keys == clients.Keys;
    assert |clients[c := to]| == |clients[c := to].Keys| && |clients| == |clients.Keys|;
  }

  lemma SubsetIsSmaller(a: set<nat>, b: set<nat>)
    requires a <= b
    ensures |a| <= |b|
  {
    assert b == a + (b - a);
  }

  lemma AllReadyCost(workers: map<nat, Worker>)
    ensures WorkerRank(AllReady(workers)) <= WorkerRank(workers) + |workers| && |AllReady(workers)| == |workers|
  {
    var woken := AllReady(workers);
    var asleep := set w | w in workers && workers[w].Asleep?;
    assert WorkersOf(woken, 1) == WorkersOf(workers, 1) + asleep && WorkersOf(woken, 2) == WorkersOf(workers, 2);
    assert asleep <= workers.Keys;
    SubsetIsSmaller(asleep, workers.Keys);
    assert woken.Keys == workers.Keys;
    assert |woken| == |woken.Keys| && |workers| == |workers.Keys|;
  }

  lemma AllAskingCost(clients: map<nat, Client>)
    ensures ClientRank(AllAsking(clients)) <= ClientRank(clients) + |clients|
    ensures Broadcasts(AllAsking(clients)) == Broadcasts(clients) && |AllAsking(clients)| == |clients|
  {
    var woken := AllAsking(clients);
    assert ClientsOf(woken, 4) == ClientsOf(clients, 4) + ClientsOf(clients, 3);
    assert ClientsOf(woken, 3) == {};
    assert ClientsOf(woken, 1) == ClientsOf(clients, 1) && ClientsOf(woken, 2) == ClientsOf(clients, 2);
    assert ClientsOf(woken, 5) == ClientsOf(clients, 5) && ClientsOf(woken, 6) == ClientsOf(clients, 6);
    SubsetIsSmaller(ClientsOf(clients, 3), clients.Keys);
    assert woken.Keys == clients.Keys;
    assert |woken| == |woken.Keys| && |clients| == |clients.Keys|;
  }

  lemma WorkerStepFalls(s: State, step: Step)
    requires Enabled(s, step) && (step.WorkerStep? || step.Finish?)
    ensures Rank(Next(s, step)) < Rank(s)
  {
    var t := Next(s, step);
    WorkerMoves(s.workers, step.w, t.workers[step.w]);
    if step.WorkerStep? && step.pick.Some? {
      ClientMoves(s.clients, step.pick.value, t.clients[step.pick.value]);
    }
    hide WorkerRank, ClientRank, Broadcasts;
    SameProduct(Broadcasts(t.clients), Broadcasts(s.clients), WakeCost(t), WakeCost(s));
  }

  lemma SameProduct(a: nat, b: nat, c: nat, d: nat)
    requires a == b && c == d
    ensures a * c == b * d
  {
  }

  lemma CallerStepFalls(s: State, step: Step)
    requires Enabled(s, step) && (step.AddStep? || step.NotifyOne? || step.KillReturns?)
    ensures Rank(Next(s, step)) < Rank(s)
  {
    hide WorkerRank, ClientRank, Broadcasts, WakesWorker;
    var t := Next(s, step);
    ClientMoves(s.clients, step.c, t.clients[step.c]);
    assert t.clients == s.clients[step.c := t.clients[step.c]];
    SameProduct(Broadcasts(t.clients), Broadcasts(s.clients), |s.workers| + |s.clients| + 2, WakeCost(s));
    if step.NotifyOne? { NotifyMoves(s, step); }
  }

  lemma NotifyMoves(s: State, step: Step)
    requires step.NotifyOne? && Enabled(s, step)
    ensures var t := Next(s, step); WorkerRank(t.workers) <= WorkerRank(s.workers) + 1 && |t.workers| == |s.workers|
  {
    if step.pick.Some? { WorkerMoves(s.workers, step.pick.value, Ready); }
    hide WorkerRank;
  }

  lemma OneLess(n: nat, cost: nat)
    requires n >= 1
    ensures (n - 1) * cost == n * cost - cost
  {
  }

  lemma BroadcastFalls(s: State, step: Step)
    requires Enabled(s, step) && (step.NotifyWorkers? || step.NotifyClients?)
    ensures Rank(Next(s, step)) < Rank(s)
  {
    hide WorkerRank, ClientRank, Broadcasts, AllReady, AllAsking;
    BroadcastMoves(s, step);
    OneLess(Broadcasts(s.clients), WakeCost(s));
    SameProduct(Broadcasts(Next(s, step).clients), Broadcasts(s.clients) - 1, WakeCost(Next(s, step)), WakeCost(s));
    hide Next, Enabled;
  }

  /** One broadcast fewer is owed, and what it wakes costs less. */
  lemma BroadcastMoves(s: State, step: Step)
    requires Enabled(s, step) && (step.NotifyWorkers? || step.NotifyClients?)
    ensures var t := Next(s, step);
            && t.m == s.m && Broadcasts(s.clients) >= 1 && Broadcasts(t.clients) == Broadcasts(s.clients) - 1
            && WakeCost(t) == WakeCost(s)
            && WorkerRank(t.workers) + ClientRank(t.clients)
               < WorkerRank(s.workers) + ClientRank(s.clients) + WakeCost(s)
  {
    hide WorkerRank, ClientRank, Broadcasts, AllReady, AllAsking;
    if step.NotifyWorkers? {
      AllReadyCost(s.workers);
      ClientMoves(s.clients, step.c, OwesClients);
    } else {
      AllAskingCost(s.clients);
      StillOwes(s.clients, step.c);
      ClientMoves(AllAsking(s.clients), step.c, Joining);
    }
  }

  lemma StillOwes(clients: map<nat, Client>, c: nat)
    requires c in clients && clients[c].OwesClients?
    ensures c in AllAsking(clients) && AllAsking(clients)[c] == OwesClients
  {
  }

  lemma RankFalls(s: State, step: Step)
    requires Enabled(s, step) && Internal(step)
    ensures Rank(Next(s, step)) < Rank(s)
  {
    hide Rank, Enabled, Next;
    match step
    case WorkerStep(_, _) => WorkerStepFalls(s, step);
    case Finish(_) => WorkerStepFalls(s, step);
    case NotifyWorkers(_) => BroadcastFalls(s, step);
    case NotifyClients(_) => BroadcastFalls(s, step);
    case _ => CallerStepFalls(s, step);
  }

  predicate AllInternal(steps: seq<Step>) { forall i :: 0 <= i < |steps| ==> Internal(steps[i]) }

  lemma {:induction false} RunIsShort(s: State, steps: seq<Step>, t: State)
    requires Leads(s, steps, t) && AllInternal(steps)
    ensures |steps| + Rank(t) <= Rank(s)
    decreases steps
  {
    hide Rank, Internal, Next, Enabled;
    if steps != [] {
      assert Internal(steps[0]);
      RankFalls(s, steps[0]);
      RunIsShort(Next(s, steps[0]), steps[1..], t);
    }
  }

  /** Once no more calls arrive, the pool comes to rest within `Rank` steps; at rest every accepted task has run and
    * no caller is left blocked or joining. */
  lemma ComesToRest(workers: set<nat>, capacity: nat, callers: set<nat>, before: seq<Step>, s: State,
        after: seq<Step>, t: State)
    requires capacity >= 1 && workers != {} && Leads(Initial(workers, capacity, callers), before, s)
    requires Leads(s, after, t) && AllInternal(after)
    ensures |after| <= Rank(s)
    ensures !CanMove(t) ==> AllRan(t) && forall c :: c in t.clients ==> t.clients[c].Idle?
  {
    RunIsShort(s, after, t);
    LeadsOn(Initial(workers, capacity, callers), before, s, after, t);
    if !CanMove(t) { NeverStuck(workers, capacity, callers, before + after, t); }
    hide *;
  }

  lemma {:induction false} LeadsOn(s: State, first: seq<Step>, mid: State, second: seq<Step>, t: State)
    requires Leads(s, first, mid) && Leads(mid, second, t)
    ensures Leads(s, first + second, t)
    decreases first
  {
    hide Next, Enabled;
    if first == [] {
      assert first + second == second;
    } else {
      LeadsOn(Next(s, first[0]), first[1..], mid, second, t);
      assert (first + second)[1..] == first[1..] + second;
    }
  }
}
