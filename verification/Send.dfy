/** The vectored send loop of `Server::sendResponse`, against every behaviour of the socket. */
module Send {
  import opened Bytes

  /** What one `sendmsg` (and the `poll` after it) does: take up to `limit` bytes, or stop for a reason. */
  datatype Outcome = Accepts(limit: nat) | Interrupted | WouldBlock(writable: bool) | Failed

  function Min(a: nat, b: nat): nat { if a < b then a else b }

  /** The bytes of `data` that reach the wire, one outcome after the other. */
  function Delivered(data: bytes, env: seq<Outcome>): bytes
    decreases |env|
  {
    if data == [] || env == [] then []
    else match env[0]
      case Accepts(limit) =>
        var n := Min(limit, |data|);
        if n == 0 then [] else data[..n] + Delivered(data[n..], env[1..])
      case Interrupted => Delivered(data, env[1..])
      case WouldBlock(writable) => if writable then Delivered(data, env[1..]) else []
      case Failed => []
  }

  /** How many bytes a socket would take before it gives up. */
  function Room(env: seq<Outcome>): nat {
    if env == [] then 0
    else match env[0]
      case Accepts(limit) => if limit == 0 then 0 else limit + Room(env[1..])
      case Interrupted => Room(env[1..])
      case WouldBlock(writable) => if writable then Room(env[1..]) else 0
      case Failed => 0
  }

  /** However the socket splits the transfer, what arrives is one prefix, as long as there is room for. */
  lemma {:induction false} DeliveredExactly(data: bytes, env: seq<Outcome>)
    ensures Delivered(data, env) == data[..Min(|data|, Room(env))]
    decreases |env|
  {
    if data == [] || env == [] { return; }
    match env[0]
    case Accepts(limit) => {
      var n := Min(limit, |data|);
      if n > 0 {
        DeliveredExactly(data[n..], env[1..]);
        var more := Min(|data| - n, Room(env[1..]));
        assert data[..n] + data[n..][..more] == data[..n + more];
      }
    }
    case Interrupted => DeliveredExactly(data, env[1..]);
    case WouldBlock(writable) => if writable { DeliveredExactly(data, env[1..]); }
    case Failed =>
  }

  /** Where two buffers stand: bytes already sent and bytes left of each. */
  ghost predicate Tracks(head: bytes, body: bytes, offs: array<nat>, lens: array<nat>)
    reads offs, lens
  {
    && offs.Length == 2 && lens.Length == 2 && offs != lens
    && offs[0] + lens[0] == |head| && offs[1] + lens[1] == |body|
  }

  ghost function Left(head: bytes, body: bytes, offs: array<nat>, lens: array<nat>): bytes
    reads offs, lens
    requires Tracks(head, body, offs, lens)
  {
    head[offs[0]..] + body[offs[1]..]
  }

  /** The gather list: what is left of each buffer, empty buffers skipped. */
  method Gather(head: bytes, body: bytes, offs: array<nat>, lens: array<nat>) returns (iov: seq<bytes>)
    requires Tracks(head, body, offs, lens)
    ensures Concat(iov) == Left(head, body, offs, lens)
    ensures [] !in iov
  {
    iov := [];
    var bufs := [head, body];
    for i := 0 to 2
      invariant [] !in iov
      invariant Concat(iov) == (if i == 0 then [] else head[offs[0]..]) + (if i < 2 then [] else body[offs[1]..])
    {
      if lens[i] == 0 { continue; }
      ConcatSnoc(iov, bufs[i][offs[i]..]);
      iov := iov + [bufs[i][offs[i]..]];
    }
  }

  /** Moves past `n` sent bytes, across the seam between the buffers. */
  method Advance(head: bytes, body: bytes, offs: array<nat>, lens: array<nat>, n: nat)
    requires Tracks(head, body, offs, lens) && n <= lens[0] + lens[1]
    modifies offs, lens
    ensures Tracks(head, body, offs, lens)
    ensures lens[0] + lens[1] + n == old(lens[0] + lens[1])
    ensures Left(head, body, offs, lens) == old(Left(head, body, offs, lens))[n..]
  {
    var consumed, i := n, 0;
    ghost var first := Min(n, lens[0]);
    while i < 2 && consumed > 0
      invariant i <= 2 && Tracks(head, body, offs, lens)
      invariant i == 0 ==> offs[0] == old(offs[0]) && offs[1] == old(offs[1]) && consumed == n
      invariant i >= 1 ==> offs[0] == old(offs[0]) + first
      invariant i == 1 ==> offs[1] == old(offs[1]) && consumed == n - first
      invariant i == 2 ==> offs[1] == old(offs[1]) + (n - first) && consumed == 0
      decreases 2 - i
    {
      var take := Min(consumed, lens[i]);
      lens[i] := lens[i] - take;
      offs[i] := offs[i] + take;
      consumed := consumed - take;
      i := i + 1;
    }
    ghost var o, p := old(offs[0]), old(offs[1]);
    assert offs[0] == o + first && offs[1] == p + (n - first);
    assert head[o..][first..] == head[o + first..];
    assert body[p..][n - first..] == body[p + (n - first)..];
  }

  /** One outcome at a time. */
  lemma DeliveredStep(left: bytes, env: seq<Outcome>, k: nat)
    requires left != [] && k < |env|
    ensures Delivered(left, env[k..]) == match env[k]
              case Accepts(limit) =>
                var n := Min(limit, |left|);
                if n == 0 then [] else left[..n] + Delivered(left[n..], env[k + 1..])
              case Interrupted => Delivered(left, env[k + 1..])
              case WouldBlock(writable) => if writable then Delivered(left, env[k + 1..]) else []
              case Failed => []
  {
    assert env[k..][1..] == env[k + 1..];
  }

  lemma SplitAt(wire: bytes, left: bytes, n: nat, more: bytes)
    requires n <= |left|
    ensures wire + (left[..n] + more) == wire + left[..n] + more
    ensures wire + left[..n] + left[n..] == wire + left
  {
  }

  /** The whole call; `env` is how the socket behaves, call by call. */
  method SendResponse(socketId: int, head: bytes, body: bytes, env: seq<Outcome>) returns (wire: bytes)
    ensures wire == if socketId < 0 then [] else Delivered(head + body, env)
  {
    wire := [];
    if socketId < 0 { return; }
    var offs, lens := new nat[2], new nat[2];
    offs[0], offs[1] := 0, 0;
    lens[0], lens[1] := |head|, |body|;
    var done, total := 0, lens[0] + lens[1];
    var k := 0;
    assert head[0..] == head && body[0..] == body && env[0..] == env;
    hide Delivered, Concat;
    while done < total && k < |env|
      invariant k <= |env| && fresh(offs) && fresh(lens) && Tracks(head, body, offs, lens)
      invariant done + lens[0] + lens[1] == total && |wire| == done
      invariant wire + Left(head, body, offs, lens) == head + body
      invariant wire + Delivered(Left(head, body, offs, lens), env[k..]) == Delivered(head + body, env)
      decreases |env| - k
    {
      var iov := Gather(head, body, offs, lens);
      ghost var left := Concat(iov);
      DeliveredStep(left, env, k);
      var outcome := env[k];
      k := k + 1;
      var sent := if outcome.Accepts? then Min(outcome.limit, |Concat(iov)|) else 0;
      if sent > 0 {
        SplitAt(wire, left, sent, Delivered(left[sent..], env[k..]));
        wire := wire + Concat(iov)[..sent];
        done := done + sent;
        Advance(head, body, offs, lens, sent);
        continue;
      }
      if outcome.Interrupted? { continue; }
      if outcome.WouldBlock? && outcome.writable { continue; }
      assert wire + [] == wire;
      return;
    }
    NothingLeft(Left(head, body, offs, lens), env, k);
    assert wire + [] == wire;
  }

  lemma NothingLeft(left: bytes, env: seq<Outcome>, k: nat)
    requires k <= |env| && (left == [] || k == |env|)
    ensures Delivered(left, env[k..]) == []
  {
  }
}
