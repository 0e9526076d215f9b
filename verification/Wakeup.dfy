/** How workers wake the loop: one list, one counter and one eventfd, in every interleaving of their atomic steps. */
module Wakeup {
  /** A completion, known by a number. */
  type Item = nat

  /** What a worker still has to do for the completion it pushed. */
  datatype WorkerPc = Idle | OwesAdd | OwesWrite

  /** How far the loop is in a drain: it has read the eventfd, then also stored zero; then it swaps. */
  datatype LoopPc = Waiting | HasRead | HasStored

  /** `completed`, `notify` and `eventfd` are shared; `pushed` and `taken` are histories. */
  datatype State = State(
    completed: seq<Item>, notify: nat, eventfd: nat,
    workers: map<nat, WorkerPc>, loop: LoopPc,
    pushed: seq<Item>, taken: seq<Item>)

  datatype Step =
    | Push(w: nat, item: Item)
    | FetchAdd(w: nat)
    | Write(w: nat)
    | ReadCounter
    | StoreZero
    | Swap

  predicate At(s: State, w: nat, pc: WorkerPc) { w in s.workers && s.workers[w] == pc }

  predicate Enabled(s: State, step: Step) {
    match step
    case Push(w, _) => At(s, w, Idle)
    case FetchAdd(w) => At(s, w, OwesAdd)
    case Write(w) => At(s, w, OwesWrite)
    case ReadCounter => s.loop.Waiting? && s.eventfd > 0
    case StoreZero => s.loop.HasRead?
    case Swap => s.loop.HasStored?
  }

  function Next(s: State, step: Step): State
    requires Enabled(s, step)
  {
    match step
    case Push(w, item) =>
      s.(completed := s.completed + [item], pushed := s.pushed + [item], workers := s.workers[w := OwesAdd])
    case FetchAdd(w) =>
      s.(notify := s.notify + 1, workers := s.workers[w := if s.notify == 0 then OwesWrite else Idle])
    case Write(w) => s.(eventfd := s.eventfd + 1, workers := s.workers[w := Idle])
    case ReadCounter => s.(eventfd := 0, loop := HasRead)
    case StoreZero => s.(notify := 0, loop := HasStored)
    case Swap => s.(completed := [], taken := s.taken + s.completed, loop := Waiting)
  }

  function Initial(workers: set<nat>): State {
    State([], 0, 0, map w | w in workers :: Idle, Waiting, [], [])
  }

  predicate Leads(s: State, steps: seq<Step>, t: State)
    decreases steps
  {
    if steps == [] then s == t
    else Enabled(s, steps[0]) && Leads(Next(s, steps[0]), steps[1..], t)
  }

  // ---- no wake-up is lost -------------------------------------------------------------------------

  ghost predicate Any(s: State, pc: WorkerPc) { exists w :: At(s, w, pc) }

  /** A counted notification has its eventfd write behind it or ahead of it, unless the count is about to be reset;
    * a listed completion is counted or about to be, unless the list is about to be taken. */
  ghost predicate Inv(s: State) {
    && s.taken + s.completed == s.pushed
    && (!s.loop.HasRead? && s.notify > 0 ==> s.eventfd > 0 || Any(s, OwesWrite))
    && (s.loop.Waiting? && s.completed != [] ==> s.notify > 0 || Any(s, OwesAdd))
  }

  /** A step of one worker leaves the others where they are. */
  lemma OthersStay(s: State, t: State, w: nat, to: WorkerPc)
    requires w in s.workers && t.workers == s.workers[w := to]
    ensures At(t, w, to)
    ensures forall v, pc :: v != w ==> (At(t, v, pc) <==> At(s, v, pc))
  {
  }

  lemma InvKept(s: State, step: Step)
    requires Inv(s) && Enabled(s, step)
    ensures Inv(Next(s, step))
  {
    var t := Next(s, step);
    match step
    case Push(w, item) => OthersStay(s, t, w, OwesAdd);
    case FetchAdd(w) => OthersStay(s, t, w, t.workers[w]);
    case Write(w) => OthersStay(s, t, w, Idle);
    case _ => assert forall w, pc :: At(t, w, pc) <==> At(s, w, pc);
  }

  lemma {:induction false} InvHolds(s: State, steps: seq<Step>, t: State)
    requires Inv(s) && Leads(s, steps, t)
    ensures Inv(t)
    decreases steps
  {
    if steps != [] {
      InvKept(s, steps[0]);
      InvHolds(Next(s, steps[0]), steps[1..], t);
    }
  }

  /** In every run a completion on the list of a waiting loop has its wake-up coming, and each completion is taken
    * once, in the order of the pushes. */
  lemma NoLostWakeup(workers: set<nat>, steps: seq<Step>, t: State)
    requires Leads(Initial(workers), steps, t)
    ensures t.taken + t.completed == t.pushed
    ensures t.completed != [] ==> t.eventfd > 0 || Any(t, OwesAdd) || Any(t, OwesWrite) || !t.loop.Waiting?
  {
    InvHolds(Initial(workers), steps, t);
  }

  // ---- every completion is taken ---------------------------------------------------------------------

  function Those(s: State, pc: WorkerPc): set<nat> { set w | w in s.workers && s.workers[w] == pc }

  /** Work left until the loop rests: an upper bound on the steps that are not pushes. */
  function Rank(s: State): nat {
    6 * |Those(s, OwesAdd)| + 5 * |Those(s, OwesWrite)| + (if s.eventfd > 0 then 4 else 0)
    + (match s.loop case Waiting => 0 case HasRead => 2 case HasStored => 1)
  }

  lemma ThoseUpdate(s: State, t: State, w: nat, to: WorkerPc, pc: WorkerPc)
    requires w in s.workers && t.workers == s.workers[w := to]
    ensures Those(t, pc) == if to == pc then Those(s, pc) + {w} else Those(s, pc) - {w}
  {
  }

  lemma RankFalls(s: State, step: Step)
    requires Enabled(s, step) && !step.Push?
    ensures Rank(Next(s, step)) < Rank(s)
  {
    var t := Next(s, step);
    if step.FetchAdd? || step.Write? {
      ThoseUpdate(s, t, step.w, t.workers[step.w], OwesAdd);
      ThoseUpdate(s, t, step.w, t.workers[step.w], OwesWrite);
    } else {
      assert Those(t, OwesAdd) == Those(s, OwesAdd) && Those(t, OwesWrite) == Those(s, OwesWrite);
    }
  }

  predicate NoPush(steps: seq<Step>) { forall i :: 0 <= i < |steps| ==> !steps[i].Push? }

  lemma {:induction false} RunIsShort(s: State, steps: seq<Step>, t: State)
    requires Leads(s, steps, t) && NoPush(steps)
    ensures |steps| + Rank(t) <= Rank(s) && t.pushed == s.pushed
    decreases steps
  {
    if steps != [] {
      assert !steps[0].Push?;
      RankFalls(s, steps[0]);
      assert NoPush(steps[1..]);
      RunIsShort(Next(s, steps[0]), steps[1..], t);
    }
  }

  ghost predicate CanMove(s: State) { exists step: Step :: !step.Push? && Enabled(s, step) }

  /** Once nothing more is pushed, the run ends within `Rank` steps, and when it can go no further everything
    * pushed has been taken. */
  lemma EverythingIsTaken(workers: set<nat>, before: seq<Step>, s: State, after: seq<Step>, t: State)
    requires Leads(Initial(workers), before, s) && Leads(s, after, t) && NoPush(after)
    ensures |after| <= Rank(s)
    ensures !CanMove(t) ==> t.taken == s.pushed && t.completed == []
  {
    InvHolds(Initial(workers), before, s);
    InvHolds(s, after, t);
    RunIsShort(s, after, t);
    if !CanMove(t) {
      forall w ensures !At(t, w, OwesAdd) && !At(t, w, OwesWrite) {
        assert !Enabled(t, FetchAdd(w)) && !Enabled(t, Write(w));
      }
      assert !Enabled(t, ReadCounter) && !Enabled(t, StoreZero) && !Enabled(t, Swap);
    }
  }

  // ---- the shared fields ----------------------------------------------------------------------------------

  /** The fields shared by workers and loop; each method is one atomic step of the code. */
  class Mailbox {
    var completed: seq<Item>
    var pendingNotify: nat
    var eventfd: nat

    /** The shared part of `s`. */
    ghost predicate Shows(s: State)
      reads this
    {
      s.completed == completed && s.notify == pendingNotify && s.eventfd == eventfd
    }

    constructor ()
      ensures forall workers: set<nat> :: Shows(Initial(workers))
    {
      completed, pendingNotify, eventfd := [], 0, 0;
    }

    method PushBack(item: Item, ghost s: State, ghost w: nat)
      requires Shows(s) && Enabled(s, Push(w, item))
      modifies this
      ensures Shows(Next(s, Push(w, item)))
    {
      completed := completed + [item];
    }

    /** True when this worker has to write the eventfd. */
    method CountUp(ghost s: State, ghost w: nat) returns (first: bool)
      requires Shows(s) && Enabled(s, FetchAdd(w))
      modifies this
      ensures Shows(Next(s, FetchAdd(w))) && (first <==> At(Next(s, FetchAdd(w)), w, OwesWrite))
    {
      first := pendingNotify == 0;
      pendingNotify := pendingNotify + 1;
    }

    method Ring(ghost s: State, ghost w: nat)
      requires Shows(s) && Enabled(s, Write(w))
      modifies this
      ensures Shows(Next(s, Write(w)))
    {
      eventfd := eventfd + 1;
    }

    method ReadEventfd(ghost s: State)
      requires Shows(s) && Enabled(s, ReadCounter)
      modifies this
      ensures Shows(Next(s, ReadCounter))
    {
      eventfd := 0;
    }

    method ResetCount(ghost s: State)
      requires Shows(s) && Enabled(s, StoreZero)
      modifies this
      ensures Shows(Next(s, StoreZero))
    {
      pendingNotify := 0;
    }

    method TakeAll(ghost s: State) returns (done: seq<Item>)
      requires Shows(s) && Enabled(s, Swap)
      modifies this
      ensures Shows(Next(s, Swap)) && Next(s, Swap).taken == s.taken + done
    {
      done := completed;
      completed := [];
    }
  }
}
