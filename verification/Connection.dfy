/** One connection: receiving bytes and cutting them into requests, with the framing cache. */
module Connection {
  import opened Bytes
  import opened Message

  /** A slot of the pending table; `expected` and `headKnown` cache the framing of `buffer`. */
  datatype Conn = Conn(buffer: bytes, expected: nat, headKnown: bool, dispatching: bool)

  const FRESH := Conn([], 0, false, false)

  // ---- the receive loop -----------------------------------------------------------------------

  /** One `recv`: bytes (none when the peer has closed), or a reason to have none. */
  datatype Recv = Bytes(chunk: bytes) | Interrupted | WouldBlock | Broken

  /** Why the loop ended, with the bytes taken so far; too large ones included. */
  datatype Received = Got(buffer: bytes, closed: bool) | TooLarge(buffer: bytes) | Failed(buffer: bytes)

  /** The buffer after the receive loop; a list that runs out stands for a socket that would block. */
  function Receive(buffer: bytes, recvs: seq<Recv>, bufsz: nat, max: nat): (r: Received)
    ensures buffer <= r.buffer
    decreases |recvs|
  {
    if recvs == [] then Got(buffer, false)
    else match recvs[0]
      case Bytes(chunk) =>
        if chunk == [] then Got(buffer, true)
        else if |buffer + chunk| > max then TooLarge(buffer + chunk)
        else if |chunk| < bufsz then Got(buffer + chunk, false)
        else Receive(buffer + chunk, recvs[1..], bufsz, max)
      case Interrupted => Receive(buffer, recvs[1..], bufsz, max)
      case WouldBlock => Got(buffer, false)
      case Broken => Failed(buffer)
  }

  method ReceiveAll(buffer: bytes, recvs: seq<Recv>, bufsz: nat, max: nat) returns (r: Received)
    ensures r == Receive(buffer, recvs, bufsz, max)
  {
    var all := buffer;
    for i := 0 to |recvs|
      invariant Receive(buffer, recvs, bufsz, max) == Receive(all, recvs[i..], bufsz, max)
    {
      assert recvs[i..][0] == recvs[i] && recvs[i..][1..] == recvs[i + 1..];
      match recvs[i]
      case Bytes(chunk) => {
        if chunk == [] { return Got(all, true); }
        all := all + chunk;
        if |all| > max { return TooLarge(all); }
        if |chunk| < bufsz { return Got(all, false); }
      }
      case Interrupted =>
      case WouldBlock => return Got(all, false);
      case Broken => return Failed(all);
    }
    return Got(all, false);
  }

  // ---- what the loop takes, on the outcomes alone ------------------------------------------------

  function ChunkOf(r: Recv): bytes { if r.Bytes? then r.chunk else [] }

  /** The bytes the socket hands over in these outcomes, in order. */
  function Delivered(recvs: seq<Recv>): bytes {
    if recvs == [] then [] else Delivered(recvs[..|recvs| - 1]) + ChunkOf(recvs[|recvs| - 1])
  }

  /** After outcome `i` there may be more to read: an interruption, or a full read that stays within the limit. */
  predicate GoesOn(total: nat, recvs: seq<Recv>, i: nat, bufsz: nat, max: nat)
    requires i < |recvs|
  {
    || recvs[i].Interrupted?
    || (recvs[i].Bytes? && recvs[i].chunk != [] && |recvs[i].chunk| >= bufsz
        && total + |Delivered(recvs[..i + 1])| <= max)
  }

  /** How many outcomes are looked at, when those before `i` were: up to the first that does not go on. */
  function Looks(total: nat, recvs: seq<Recv>, i: nat, bufsz: nat, max: nat): (k: nat)
    requires i <= |recvs|
    ensures i <= k <= |recvs| && (i < |recvs| ==> i < k)
    ensures forall j :: i <= j < k - 1 ==> GoesOn(total, recvs, j, bufsz, max)
    ensures i < k < |recvs| ==> !GoesOn(total, recvs, k - 1, bufsz, max)
    decreases |recvs| - i
  {
    if i == |recvs| then i
    else if GoesOn(total, recvs, i, bufsz, max) then Looks(total, recvs, i + 1, bufsz, max) else i + 1
  }

  lemma DeliveredNext(buffer: bytes, recvs: seq<Recv>, i: nat)
    requires i < |recvs|
    ensures buffer + Delivered(recvs[..i + 1]) == buffer + Delivered(recvs[..i]) + ChunkOf(recvs[i])
    ensures recvs[i..][0] == recvs[i] && recvs[i..][1..] == recvs[i + 1..]
    ensures recvs[i].Interrupted? ==> buffer + Delivered(recvs[..i + 1]) == buffer + Delivered(recvs[..i])
  {
    assert recvs[..i + 1][..i] == recvs[..i];
    var d := buffer + Delivered(recvs[..i]);
    assert d + [] == d;
  }

  /** Why the loop ends once it has looked at the first `k` outcomes. */
  predicate EndsAt(r: Received, recvs: seq<Recv>, k: nat, max: nat)
    requires k <= |recvs|
  {
    && (r.Failed? <==> k > 0 && recvs[k - 1].Broken?)
    && (r.TooLarge? <==> k > 0 && ChunkOf(recvs[k - 1]) != [] && |r.buffer| > max)
    && (r.Got? && r.closed <==> k > 0 && recvs[k - 1] == Bytes([]))
  }

  lemma {:induction false} ReceiveFrom(buffer: bytes, recvs: seq<Recv>, i: nat, bufsz: nat, max: nat)
    requires i <= |recvs| && (i > 0 ==> GoesOn(|buffer|, recvs, i - 1, bufsz, max))
    ensures var k := Looks(|buffer|, recvs, i, bufsz, max);
            var r := Receive(buffer + Delivered(recvs[..i]), recvs[i..], bufsz, max);
            r.buffer == buffer + Delivered(recvs[..k]) && EndsAt(r, recvs, k, max)
    decreases |recvs| - i
  {
    hide Delivered;
    if i < |recvs| {
      DeliveredNext(buffer, recvs, i);
      if GoesOn(|buffer|, recvs, i, bufsz, max) { ReceiveFrom(buffer, recvs, i + 1, bufsz, max); }
    }
  }

  /**
   * The loop takes every byte of the outcomes it looks at, in order, and ends as the last of them says: at the
   * peer's close, at an error, beyond the limit, or because there is nothing more to read for now.
   */
  lemma ReceiveExact(buffer: bytes, recvs: seq<Recv>, bufsz: nat, max: nat)
    ensures var k := Looks(|buffer|, recvs, 0, bufsz, max);
            var r := Receive(buffer, recvs, bufsz, max);
            && r.buffer == buffer + Delivered(recvs[..k])
            && (r.Failed? <==> k > 0 && recvs[k - 1].Broken?)
            && (r.TooLarge? <==> k > 0 && ChunkOf(recvs[k - 1]) != [] && |r.buffer| > max)
            && (r.Got? && r.closed <==> k > 0 && recvs[k - 1] == Bytes([]))
  {
    ReceiveFrom(buffer, recvs, 0, bufsz, max);
    hide Looks, Receive;
    assert recvs[..0] == [] && recvs[0..] == recvs && buffer + [] == buffer;
  }

  /** What the loop takes from the socket beside `total` bytes, the chunk that breaks the limit included. */
  function TakenBy(total: nat, recvs: seq<Recv>, bufsz: nat, max: nat): bytes {
    Delivered(recvs[..Looks(total, recvs, 0, bufsz, max)])
  }

  lemma TakenIs(buffer: bytes, recvs: seq<Recv>, bufsz: nat, max: nat)
    ensures Receive(buffer, recvs, bufsz, max).buffer == buffer + TakenBy(|buffer|, recvs, bufsz, max)
    ensures Receive(buffer, recvs, bufsz, max).buffer[|buffer|..] == TakenBy(|buffer|, recvs, bufsz, max)
  {
    hide Receive, Looks, Delivered;
    ReceiveExact(buffer, recvs, bufsz, max);
  }

  /** What the loop takes as long as the limit does not stop it. */
  function Drained(recvs: seq<Recv>, bufsz: nat): bytes {
    Delivered(recvs[..Looks(0, recvs, 0, bufsz, |Delivered(recvs)|)])
  }

  lemma {:induction false} DeliveredGrows(recvs: seq<Recv>, i: nat)
    requires i <= |recvs|
    ensures |Delivered(recvs[..i])| <= |Delivered(recvs)|
    decreases |recvs| - i
  {
    if i == |recvs| {
      assert recvs[..i] == recvs;
    } else {
      DeliveredGrows(recvs, i + 1);
      assert recvs[..i + 1][..i] == recvs[..i];
    }
  }

  lemma {:induction false} LooksAlike(total: nat, recvs: seq<Recv>, i: nat, bufsz: nat, max: nat)
    requires i <= |recvs|
    requires var k := Looks(total, recvs, i, bufsz, max);
             && (forall j :: i <= j < k - 1 ==> GoesOn(0, recvs, j, bufsz, |Delivered(recvs)|))
             && (i < k < |recvs| ==> !GoesOn(0, recvs, k - 1, bufsz, |Delivered(recvs)|))
    ensures Looks(0, recvs, i, bufsz, |Delivered(recvs)|) == Looks(total, recvs, i, bufsz, max)
    decreases |recvs| - i
  {
    hide GoesOn;
    if i < |recvs| && GoesOn(total, recvs, i, bufsz, max) { LooksAlike(total, recvs, i + 1, bufsz, max); }
  }

  /** A read that is not refused takes exactly what its socket hands over. */
  lemma GotIsDrained(buffer: bytes, recvs: seq<Recv>, bufsz: nat, max: nat)
    requires Receive(buffer, recvs, bufsz, max).Got?
    ensures Receive(buffer, recvs, bufsz, max).buffer == buffer + Drained(recvs, bufsz)
  {
    hide Receive;
    ReceiveExact(buffer, recvs, bufsz, max);
    var k := Looks(|buffer|, recvs, 0, bufsz, max);
    hide Looks, Delivered;
    forall j: nat | j + 1 < k ensures GoesOn(0, recvs, j, bufsz, |Delivered(recvs)|) {
      assert GoesOn(|buffer|, recvs, j, bufsz, max);
      DeliveredGrows(recvs, j + 1);
    }
    LooksAlike(|buffer|, recvs, 0, bufsz, max);
  }

  // ---- the framing loop -----------------------------------------------------------------------

  datatype Turn = Wait(next: Conn) | Refuse(code: nat) | Cut(raw: bytes, rest: Conn)

  /** The cache, when it claims anything, agrees with a fresh inspection, within the size limit. */
  predicate CacheOk(c: Conn, max: nat) {
    if c.headKnown then 0 < c.expected == InspectionOf(c.buffer).expected <= max else c.expected == 0
  }

  /** One turn of the framing loop on a buffer that is not empty. */
  function NextTurn(c: Conn, closed: bool, deadline: bool, max: nat): (t: Turn)
    requires c.buffer != [] && CacheOk(c, max)
    ensures t.Cut? ==> |t.rest.buffer| < |c.buffer| && CacheOk(t.rest, max)
  {
    hide InspectionOf;
    if c.headKnown then
      if |c.buffer| < c.expected then
        if closed then Refuse(400) else if deadline then Refuse(408) else Wait(c)
      else Split(c, c.expected)
    else
      var i := InspectionOf(c.buffer);
      match i.framing
      case Incomplete =>
        if i.expected > max then Refuse(413)
        else if closed then Refuse(400)
        else if deadline then Refuse(408)
        else Wait(c.(expected := i.expected, headKnown := i.expected > 0))
      case Complete =>
        CompleteWithin(c.buffer);
        Split(c, i.expected)
      case BadRequest => Refuse(400)
      case TooManyHeaders => Refuse(431)
      case NotImplemented => Refuse(501)
  }

  function Split(c: Conn, n: nat): Turn
    requires n <= |c.buffer|
  {
    Cut(c.buffer[..n], Conn(c.buffer[n..], 0, false, c.dispatching))
  }

  method TakeTurn(c: Conn, closed: bool, deadline: bool, max: nat) returns (t: Turn)
    requires c.buffer != [] && CacheOk(c, max)
    ensures t == NextTurn(c, closed, deadline, max)
  {
    hide InspectionOf;
    var requestLen := 0;
    if c.headKnown {
      if |c.buffer| < c.expected {
        if closed { return Refuse(400); }
        if deadline { return Refuse(408); }
        return Wait(c);
      }
      requestLen := c.expected;
    } else {
      var inspection := Inspect(c.buffer);
      match inspection.framing {
        case Incomplete =>
          if inspection.expected > max { return Refuse(413); }
          if closed { return Refuse(400); }
          if deadline { return Refuse(408); }
          return Wait(c.(expected := inspection.expected, headKnown := inspection.expected > 0));
        case Complete =>
          CompleteWithin(c.buffer);
          requestLen := inspection.expected;
        case BadRequest => return Refuse(400);
        case TooManyHeaders => return Refuse(431);
        case NotImplemented => return Refuse(501);
      }
    }
    if |c.buffer| == requestLen {
      assert c.buffer[..requestLen] == c.buffer && c.buffer[requestLen..] == [];
      return Cut(c.buffer, Conn([], 0, false, c.dispatching));
    }
    return Cut(c.buffer[..requestLen], Conn(c.buffer[requestLen..], 0, false, c.dispatching));
  }

  /** How a call to the inline loop ends. */
  datatype End = StillOpen(conn: Conn) | Refused(code: nat) | Finished

  datatype Handled = Handled(served: seq<bytes>, end: End)

  /** The inline loop: serve requests from the front; `keep(i)` is what the handler of request `i` answers. */
  function ServeLoop(c: Conn, closed: bool, deadline: bool, keep: nat -> bool, i: nat, max: nat): Handled
    requires CacheOk(c, max)
    decreases |c.buffer|
  {
    if c.buffer == [] then Handled([], StillOpen(c))
    else match NextTurn(c, closed, deadline, max)
      case Wait(next) => Handled([], StillOpen(next))
      case Refuse(code) => Handled([], Refused(code))
      case Cut(raw, rest) =>
        if !keep(i) then Handled([raw], Finished)
        else
          var more := ServeLoop(rest, closed, deadline, keep, i + 1, max);
          Handled([raw] + more.served, more.end)
  }

  // ---- the simple form: no cache ----------------------------------------------------------------

  /** The requests a byte stream holds, cut greedily from the front. */
  function CutAll(s: bytes): seq<bytes>
    decreases |s|
  {
    if InspectionOf(s).framing != Complete then []
    else
      CompleteWithin(s);
      var n := InspectionOf(s).expected;
      [s[..n]] + CutAll(s[n..])
  }

  /** What is left of the stream behind its last complete request. */
  function Leftover(s: bytes): bytes
    decreases |s|
  {
    if InspectionOf(s).framing != Complete then s
    else
      CompleteWithin(s);
      Leftover(s[InspectionOf(s).expected..])
  }

  /** Requests up to and including the first that the handler does not keep alive. */
  function Served(requests: seq<bytes>, keep: nat -> bool, i: nat): seq<bytes>
    decreases |requests|
  {
    if requests == [] then []
    else if !keep(i) then [requests[0]]
    else [requests[0]] + Served(requests[1..], keep, i + 1)
  }

  predicate AllKept(n: nat, keep: nat -> bool, i: nat) {
    forall k :: i <= k < i + n ==> keep(k)
  }

  /** A connection at rest on `buffer`: what a fresh inspection says, cached. */
  function AtRest(buffer: bytes): Conn {
    var expected := InspectionOf(buffer).expected;
    Conn(buffer, expected, expected > 0, false)
  }

  /** The fate of a stream that holds no complete request, from a fresh inspection. */
  function EndOf(rest: bytes, closed: bool, deadline: bool, max: nat): End {
    if rest == [] then StillOpen(AtRest([]))
    else
      var i := InspectionOf(rest);
      match i.framing
      case BadRequest => Refused(400)
      case TooManyHeaders => Refused(431)
      case NotImplemented => Refused(501)
      case _ =>
        if i.expected > max then Refused(413)
        else if closed then Refused(400)
        else if deadline then Refused(408)
        else StillOpen(AtRest(rest))
  }

  function Uncached(s: bytes, closed: bool, deadline: bool, keep: nat -> bool, i: nat, max: nat): Handled {
    Handled(
      Served(CutAll(s), keep, i),
      if AllKept(|CutAll(s)|, keep, i) then EndOf(Leftover(s), closed, deadline, max) else Finished)
  }

  lemma NothingIsIncomplete()
    ensures InspectionOf([]) == Inspection(Incomplete, 0)
  {
  }

  lemma ConcatFirst(first: bytes, rest: seq<bytes>, end: bytes)
    ensures Concat([first] + rest) + end == first + (Concat(rest) + end)
  {
    assert ([first] + rest)[1..] == rest;
  }

  lemma CutStep(s: bytes, n: nat)
    requires InspectionOf(s).framing == Complete && n == InspectionOf(s).expected
    ensures 0 < n <= |s| && CutAll(s) == [s[..n]] + CutAll(s[n..]) && Leftover(s) == Leftover(s[n..])
  {
    hide InspectionOf;
    CompleteWithin(s);
  }

  lemma CutNothing(s: bytes)
    requires InspectionOf(s).framing != Complete
    ensures CutAll(s) == [] && Leftover(s) == s && Concat([]) + s == s
  {
    hide InspectionOf;
    assert [] + s == s;
  }

  /** Nothing is lost or reordered by cutting. */
  lemma {:induction false} CutConserves(s: bytes)
    ensures Concat(CutAll(s)) + Leftover(s) == s
    ensures InspectionOf(Leftover(s)).framing != Complete
    decreases |s|
  {
    hide *;
    if InspectionOf(s).framing == Complete {
      var n := InspectionOf(s).expected;
      CutStep(s, n);
      CutConserves(s[n..]);
      ConcatFirst(s[..n], CutAll(s[n..]), Leftover(s[n..]));
      assert s == s[..n] + s[n..];
    } else {
      CutNothing(s);
    }
  }

  /** Requests cut from what has arrived stay the first requests of the whole stream. */
  lemma {:induction false} CutExtends(s: bytes, more: bytes)
    ensures CutAll(s + more) == CutAll(s) + CutAll(Leftover(s) + more)
    ensures Leftover(s + more) == Leftover(Leftover(s) + more)
    decreases |s|
  {
    hide InspectionOf;
    if InspectionOf(s).framing == Complete {
      var n := InspectionOf(s).expected;
      CutStep(s, n);
      CompleteSurvives(s, more);
      CutStep(s + more, n);
      assert (s + more)[..n] == s[..n] && (s + more)[n..] == s[n..] + more;
      CutExtends(s[n..], more);
      hide CutAll, Leftover;
      assert [s[..n]] + (CutAll(s[n..]) + CutAll(Leftover(s) + more)) == CutAll(s) + CutAll(Leftover(s) + more);
    } else {
      CutNothing(s);
      assert [] + CutAll(s + more) == CutAll(s + more);
    }
  }

  predicate StandsAlone(raw: bytes) { InspectionOf(raw) == Inspection(Complete, |raw|) }

  /** Every request that is cut off is, by itself, a complete request of exactly its own length. */
  lemma {:induction false} CutsStandAlone(s: bytes, i: nat)
    requires |s| <= NPOS && i < |CutAll(s)|
    ensures StandsAlone(CutAll(s)[i])
    decreases |s|
  {
    hide InspectionOf;
    var n := InspectionOf(s).expected;
    CutStep(s, n);
    if i == 0 {
      CompleteAlone(s);
    } else {
      CutsStandAlone(s[n..], i - 1);
    }
  }

  /** Pipelined requests come apart again, whatever incomplete bytes follow them. */
  lemma {:induction false} CutsPipeline(requests: seq<bytes>, rest: bytes)
    requires forall i :: 0 <= i < |requests| ==> requests[i] != [] && StandsAlone(requests[i])
    requires InspectionOf(rest).framing != Complete
    ensures CutAll(Concat(requests) + rest) == requests && Leftover(Concat(requests) + rest) == rest
    decreases |requests|
  {
    hide InspectionOf;
    var s := Concat(requests) + rest;
    if requests == [] {
      assert s == rest;
    } else {
      var tail := Concat(requests[1..]) + rest;
      assert s == requests[0] + tail && StandsAlone(requests[0]);
      CompleteSurvives(requests[0], tail);
      CutStep(s, |requests[0]|);
      assert s[..|requests[0]|] == requests[0] && s[|requests[0]|..] == tail;
      CutsPipeline(requests[1..], rest);
    }
  }

  /** A cached length means the fresh verdict is known without looking. */
  lemma CacheIsVerdict(c: Conn, max: nat)
    requires CacheOk(c, max) && c.headKnown
    ensures InspectionOf(c.buffer).framing == if |c.buffer| < c.expected then Incomplete else Complete
  {
    hide InspectionOf;
    ExpectedHasHead(c.buffer);
    if InspectionOf(c.buffer).framing == Complete { CompleteWithin(c.buffer); }
  }

  /** More bytes keep the cache right. */
  lemma CacheSurvives(c: Conn, buffer: bytes, max: nat)
    requires CacheOk(c, max) && c.buffer <= buffer
    ensures CacheOk(c.(buffer := buffer), max)
  {
    hide InspectionOf;
    if c.headKnown {
      ExpectedHasHead(c.buffer);
      VerdictsFinal(c.buffer, buffer[|c.buffer|..]);
      assert c.buffer + buffer[|c.buffer|..] == buffer;
    }
  }

  /** A turn, decided by a fresh inspection alone. */
  lemma TurnIsFresh(c: Conn, closed: bool, deadline: bool, max: nat)
    requires c.buffer != [] && CacheOk(c, max) && !c.dispatching
    ensures var t := NextTurn(c, closed, deadline, max);
            if InspectionOf(c.buffer).framing == Complete then
              0 < InspectionOf(c.buffer).expected <= |c.buffer| && t == Split(c, InspectionOf(c.buffer).expected)
            else
              EndOf(c.buffer, closed, deadline, max) ==
                if t.Wait? then StillOpen(t.next) else if t.Refuse? then Refused(t.code) else Finished
  {
    hide InspectionOf;
    if c.headKnown { CacheIsVerdict(c, max); }
    if InspectionOf(c.buffer).framing == Complete { CompleteWithin(c.buffer); }
  }

  /** Which status a turn answers with, and when it answers at all. */
  lemma StatusExact(c: Conn, closed: bool, deadline: bool, max: nat)
    requires c.buffer != [] && CacheOk(c, max)
    ensures var t := NextTurn(c, closed, deadline, max);
            var i := InspectionOf(c.buffer);
            && (t.Cut? <==> i.framing == Complete)
            && (t == Refuse(431) <==> i.framing == TooManyHeaders)
            && (t == Refuse(501) <==> i.framing == NotImplemented)
            && (t == Refuse(413) <==> i.framing == Incomplete && i.expected > max)
            && (t == Refuse(400) <==>
                  i.framing == BadRequest || (i.framing == Incomplete && i.expected <= max && closed))
            && (t == Refuse(408) <==> i.framing == Incomplete && i.expected <= max && !closed && deadline)
            && (t.Wait? <==> i.framing == Incomplete && i.expected <= max && !closed && !deadline)
  {
    hide InspectionOf;
    if c.headKnown { CacheIsVerdict(c, max); }
  }

  /** The loop with its cache does exactly what greedy cutting and one fresh inspection do. */
  lemma {:induction false} ServeLoopExact(c: Conn, closed: bool, deadline: bool, keep: nat -> bool, i: nat, max: nat)
    requires CacheOk(c, max) && !c.dispatching
    ensures ServeLoop(c, closed, deadline, keep, i, max) == Uncached(c.buffer, closed, deadline, keep, i, max)
    decreases |c.buffer|
  {
    hide InspectionOf;
    if c.buffer == [] {
      NothingIsIncomplete();
    } else {
      TurnIsFresh(c, closed, deadline, max);
      hide EndOf, NextTurn;
      if InspectionOf(c.buffer).framing == Complete {
        var rest := Split(c, InspectionOf(c.buffer).expected).rest;
        ServeLoopExact(rest, closed, deadline, keep, i + 1, max);
        assert CutAll(c.buffer)[1..] == CutAll(rest.buffer);
        if keep(i) {
          assert AllKept(|CutAll(c.buffer)|, keep, i) <==> AllKept(|CutAll(rest.buffer)|, keep, i + 1);
        }
      }
    }
  }

  /** A peer that has closed is let go of unless its bytes are all served: then, and on an idle connection, it stays. */
  lemma ClosedPeerStays(c: Conn, deadline: bool, keep: nat -> bool, max: nat)
    requires CacheOk(c, max) && !c.dispatching
    ensures ServeLoop(c, true, deadline, keep, 0, max).end.StillOpen?
            <==> Leftover(c.buffer) == [] && AllKept(|CutAll(c.buffer)|, keep, 0)
  {
    hide InspectionOf;
    ServeLoopExact(c, true, deadline, keep, 0, max);
    CutConserves(c.buffer);
  }

  // ---- the life of a connection -------------------------------------------------------------------

  /** A slot with its history: every byte received and every request served. */
  datatype Session = Session(conn: Conn, received: bytes, served: seq<bytes>)

  const OPENING := Session(FRESH, [], [])

  /** Served so far is exactly the stream cut greedily, and the slot holds the rest with its fresh framing. */
  predicate Faithful(s: Session, max: nat) {
    s.served == CutAll(s.received) && s.conn == AtRest(Leftover(s.received)) && CacheOk(s.conn, max)
  }

  lemma OpeningIsFaithful(max: nat)
    ensures Faithful(OPENING, max)
  {
    NothingIsIncomplete();
  }

  /** The session after a call to the inline loop that received `got`. */
  function Continued(s: Session, got: bytes, h: Handled): Session {
    Session(if h.end.StillOpen? then h.end.conn else s.conn, s.received + got, s.served + h.served)
  }

  /** A call keeps an open session faithful; a session it ends has served only requests of the stream, in order. */
  lemma ReadKeepsFaithful(s: Session, got: bytes, closed: bool, deadline: bool, keep: nat -> bool, max: nat)
    requires Faithful(s, max)
    ensures CacheOk(s.conn.(buffer := s.conn.buffer + got), max)
    ensures var h := ServeLoop(s.conn.(buffer := s.conn.buffer + got), closed, deadline, keep, 0, max);
            && Continued(s, got, h).served <= CutAll(s.received + got)
            && (!h.end.Finished? ==> Continued(s, got, h).served == CutAll(s.received + got))
            && (h.end.StillOpen? ==> Faithful(Continued(s, got, h), max))
  {
    hide InspectionOf, CutAll, Leftover;
    CacheSurvives(s.conn, s.conn.buffer + got, max);
    var c := s.conn.(buffer := s.conn.buffer + got);
    ServeLoopExact(c, closed, deadline, keep, 0, max);
    hide ServeLoop;
    CutExtends(s.received, got);
    CutConserves(s.received + got);
    ServedIsPrefix(CutAll(c.buffer), keep, 0);
    EndIsCached(Leftover(c.buffer), closed, deadline, max);
  }

  lemma EndIsCached(rest: bytes, closed: bool, deadline: bool, max: nat)
    ensures var e := EndOf(rest, closed, deadline, max); e.StillOpen? ==> e.conn == AtRest(rest) && CacheOk(e.conn, max)
    ensures !EndOf(rest, closed, deadline, max).Finished?
  {
    hide InspectionOf;
    NothingIsIncomplete();
  }

  lemma {:induction false} ServedIsPrefix(requests: seq<bytes>, keep: nat -> bool, i: nat)
    ensures Served(requests, keep, i) <= requests
    ensures AllKept(|requests|, keep, i) ==> Served(requests, keep, i) == requests
    decreases |requests|
  {
    if requests != [] {
      ServedIsPrefix(requests[1..], keep, i + 1);
      assert requests == [requests[0]] + requests[1..];
    }
  }

  /** How the bytes were split between reads leaves no trace on an open connection. */
  lemma SegmentationIndependent(s: Session, t: Session, max: nat, maxOther: nat)
    requires Faithful(s, max) && Faithful(t, maxOther) && s.received == t.received
    ensures s == t
    ensures Concat(s.served) + s.conn.buffer == s.received
  {
    CutConserves(s.received);
  }
}
