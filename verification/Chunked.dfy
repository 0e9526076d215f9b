/** The chunked transfer coding (section 7.1 of RFC 9112). */
module Chunked {
  import opened Bytes

  // ---- the decoder --------------------------------------------------------------

  datatype ChunkScan = Complete(data: bytes, consumed: nat) | Incomplete | Malformed

  /** Number of leading hexadecimal digits. */
  function HexRun(s: bytes): (r: nat)
    ensures r <= |s| && (forall k :: 0 <= k < r ==> HexDigit(s[k]) >= 0) && (r < |s| ==> HexDigit(s[r]) < 0)
  {
    if s != [] && HexDigit(s[0]) >= 0 then
      var r := HexRun(s[1..]);
      assert forall k :: 1 <= k <= r ==> s[k] == s[1..][k - 1];
      r + 1
    else 0
  }

  /** The chunk size a size line declares; None when it is malformed or 2^64 and above. */
  function DeclaredSize(line: bytes): Option<nat> {
    var n := HexRun(line);
    if n > 0 && (n == |line| || line[n] == SEMICOLON) && HexValue(line[..n]) <= NPOS
    then Some(HexValue(line[..n])) else None
  }

  /** Length of a trailer section, its closing empty line included; -1 when it has not arrived. */
  function TrailerLength(s: bytes): (r: int)
    ensures r == -1 || 2 <= r <= |s|
  {
    var e := Find(s, CRLF, 0);
    if e == -1 then -1
    else if e == 0 then 2
    else
      var r := TrailerLength(s[e + 2..]);
      if r == -1 then -1 else e + 2 + r
  }

  function After(data: bytes, length: nat, rest: ChunkScan): ChunkScan {
    match rest
    case Complete(more, consumed) => Complete(data + more, length + consumed)
    case _ => rest
  }

  function Dechunk(s: bytes): (r: ChunkScan)
    ensures r.Complete? ==> r.consumed <= |s|
    decreases |s|
  {
    var e := Find(s, CRLF, 0);
    if e == -1 then Incomplete
    else
      match DeclaredSize(s[..e])
      case None => Malformed
      case Some(size) =>
        var begin := e + 2;
        if size == 0 then
          var t := TrailerLength(s[begin..]);
          if t == -1 then Incomplete else Complete([], begin + t)
        else if |s| - begin < size || |s| < begin + size + 2 then Incomplete
        else if s[begin + size] != CR || s[begin + size + 1] != LF then Malformed
        else After(s[begin..begin + size], begin + size + 2, Dechunk(s[begin + size + 2..]))
  }

  // ---- the source's loops ---------------------------------------------------------

  lemma {:induction false} HexPrefixMonotone(s: bytes, i: nat, j: nat)
    requires i <= j <= |s| && AllHex(s[..j])
    ensures AllHex(s[..i]) && HexValue(s[..i]) <= HexValue(s[..j])
    decreases j
  {
    assert forall k :: 0 <= k < i ==> s[..i][k] == s[..j][k];
    if i < j {
      assert s[..j][..j - 1] == s[..j - 1];
      assert forall k :: 0 <= k < j - 1 ==> s[..j - 1][k] == s[..j][k];
      HexPrefixMonotone(s, i, j - 1);
    }
  }

  lemma HexRunIs(s: bytes, n: nat)
    requires n <= |s| && AllHex(s[..n])
    ensures HexRun(s) >= n
    ensures (n < |s| ==> HexDigit(s[n]) < 0) ==> HexRun(s) == n
  {
    assert forall k :: 0 <= k < n ==> s[..n][k] == s[k];
  }

  /** Reads the size digit by digit; the guard keeps every step within a `size_t`. */
  method ReadSize(line: bytes) returns (result: Option<nat>)
    ensures result == DeclaredSize(line)
  {
    var size, i := 0, 0;
    while i < |line|
      invariant 0 <= i <= |line| && AllHex(line[..i])
      invariant size == HexValue(line[..i]) <= NPOS
    {
      var d := HexDigit(line[i]);
      if d < 0 { break; }
      assert line[..i + 1][..i] == line[..i];
      assert AllHex(line[..i + 1]) by {
        assert forall k :: 0 <= k < i ==> line[..i + 1][k] == line[..i][k];
      }
      assert HexValue(line[..i + 1]) == size * 16 + d;
      if size > (NPOS - d) / 16 {
        HexRunIs(line, i + 1);
        HexPrefixMonotone(line, i + 1, HexRun(line));
        return None;
      }
      size := size * 16 + d;
      i := i + 1;
    }
    HexRunIs(line, i);
    if i == 0 { return None; }
    if i < |line| && line[i] != SEMICOLON { return None; }
    return Some(size);
  }

  /** One line of the trailer section that starts at `pos`. */
  lemma TrailerStep(body: bytes, pos: nat)
    requires pos <= |body|
    ensures var e := Find(body, CRLF, pos);
            TrailerLength(body[pos..]) ==
            if e == -1 then -1
            else if e == pos then 2
            else if TrailerLength(body[e + 2..]) == -1 then -1 else e + 2 - pos + TrailerLength(body[e + 2..])
  {
    hide Find;
    FindShift(body, CRLF, pos);
    var e := Find(body, CRLF, pos);
    if e != -1 { assert body[pos..][e - pos + 2..] == body[e + 2..]; }
  }

  /** One chunk of the body that starts at `pos`. */
  lemma DechunkStep(body: bytes, pos: nat)
    requires pos <= |body|
    ensures var e := Find(body, CRLF, pos);
            e != -1 ==>
              && e + 2 <= |body|
              && (DeclaredSize(body[pos..e]).None? ==> Dechunk(body[pos..]) == Malformed)
              && (DeclaredSize(body[pos..e]).Some? ==>
                    Dechunk(body[pos..]) == AfterSize(body, pos, e + 2, DeclaredSize(body[pos..e]).value))
    ensures Find(body, CRLF, pos) == -1 ==> Dechunk(body[pos..]) == Incomplete
  {
    hide DeclaredSize, AfterSize, Dechunk, Find, MatchesAt;
    FindShift(body, CRLF, pos);
    DechunkUnfold(body[pos..]);
    var e := Find(body, CRLF, pos);
    if e != -1 {
      MatchesTwo(body, 13, 10, e);
      SlicesAgree(body, pos, e);
      if DeclaredSize(body[pos..e]).Some? {
        AfterSizeShift(body, pos, e + 2, DeclaredSize(body[pos..e]).value);
      }
    }
  }

  lemma SlicesAgree(body: bytes, pos: nat, e: nat)
    requires pos <= e <= |body|
    ensures body[pos..][..e - pos] == body[pos..e]
  {
  }

  lemma DechunkUnfold(s: bytes)
    ensures var e := Find(s, CRLF, 0);
            Dechunk(s) == if e == -1 then Incomplete
                          else match DeclaredSize(s[..e]) case None => Malformed case Some(size) => AfterSize(s, 0,
                                  e + 2, size)
  {
    hide DeclaredSize, TrailerLength;
  }

  lemma AfterSizeShift(body: bytes, pos: nat, begin: nat, size: nat)
    requires pos <= begin <= |body|
    ensures AfterSize(body[pos..], 0, begin - pos, size) == AfterSize(body, pos, begin, size)
  {
    hide TrailerLength, Dechunk;
    var rest := body[pos..];
    assert rest[begin - pos..] == body[begin..];
    if |body| - begin >= size + 2 {
      assert rest[begin - pos + size + 2..] == body[begin + size + 2..];
      assert rest[begin - pos..begin - pos + size] == body[begin..begin + size];
      assert rest[begin - pos + size] == body[begin + size] && rest[begin - pos + size + 1] == body[begin + size + 1];
    }
  }

  /** The scan of a chunk whose size line, read from `start`, ended at `begin`. */
  function AfterSize(body: bytes, start: nat, begin: nat, size: nat): ChunkScan
    requires start <= begin <= |body|
  {
    if size == 0 then
      var t := TrailerLength(body[begin..]);
      if t == -1 then Incomplete else Complete([], begin - start + t)
    else if |body| - begin < size || |body| - begin < size + 2 then Incomplete
    else if body[begin + size] != CR || body[begin + size + 1] != LF then Malformed
    else After(body[begin..begin + size], begin - start + size + 2, Dechunk(body[begin + size + 2..]))
  }

  method ScanTrailers(body: bytes, begin: nat) returns (end: int)
    requires begin <= |body|
    ensures end == if TrailerLength(body[begin..]) == -1 then -1 else begin + TrailerLength(body[begin..])
  {
    hide TrailerLength;
    var pos := begin;
    while true
      invariant begin <= pos <= |body|
      invariant TrailerLength(body[begin..]) ==
                if TrailerLength(body[pos..]) == -1 then -1 else pos - begin + TrailerLength(body[pos..])
      decreases |body| - pos
    {
      TrailerStep(body, pos);
      var lineEnd := Find(body, CRLF, pos);
      if lineEnd == -1 { return -1; }
      if lineEnd == pos { return lineEnd + 2; }
      pos := lineEnd + 2;
    }
  }

  method ScanChunked(body: bytes) returns (result: ChunkScan)
    ensures result == Dechunk(body)
  {
    hide DeclaredSize, TrailerLength, Dechunk, Find, MatchesAt;
    var data: bytes := [];
    var pos := 0;
    assert body[0..] == body;
    AfterMore([], 0, [], 0, Dechunk(body));
    while true
      invariant 0 <= pos <= |body|
      invariant Dechunk(body) == After(data, pos, Dechunk(body[pos..]))
      decreases |body| - pos
    {
      DechunkStep(body, pos);
      var lineEnd := Find(body, CRLF, pos);
      if lineEnd == -1 { return Incomplete; }
      var declared := ReadSize(body[pos..lineEnd]);
      if declared == None { return Malformed; }
      var size := declared.value;
      ghost var start := pos;
      pos := lineEnd + 2;
      if size == 0 {
        var end := ScanTrailers(body, pos);
        if end == -1 { return Incomplete; }
        assert data + [] == data;
        return Complete(data, end);
      }
      if |body| - pos < size { return Incomplete; }
      AfterMore(data, start, body[pos..pos + size], pos - start + size + 2,
                if |body| - pos < size + 2 then Incomplete else Dechunk(body[pos + size + 2..]));
      data := data + body[pos..pos + size];
      pos := pos + size;
      if pos + 2 > |body| { return Incomplete; }
      if body[pos] != CR || body[pos + 1] != LF { return Malformed; }
      pos := pos + 2;
    }
  }

  lemma AfterMore(a: bytes, m: nat, b: bytes, n: nat, r: ChunkScan)
    ensures After(a, m, After(b, n, r)) == After(a + b, m + n, r)
    ensures After([], 0, r) == r
  {
    if r.Complete? {
      assert a + (b + r.data) == (a + b) + r.data;
      assert [] + r.data == r.data;
    }
  }

  // ---- the coding it decodes ---------------------------------------------------------

  /** One chunk as written: size in any hex spelling, extension, data. */
  datatype Chunk = Chunk(size: bytes, ext: bytes, data: bytes)

  datatype Coding = Coding(chunks: seq<Chunk>, lastSize: bytes, lastExt: bytes, trailers: seq<bytes>)

  predicate IsExtension(ext: bytes) {
    NoCrlf(ext) && (ext != [] ==> ext[0] == SEMICOLON)
  }

  predicate IsSize(size: bytes, n: nat) {
    size != [] && AllHex(size) && HexValue(size) == n && n <= NPOS
  }

  predicate IsChunk(c: Chunk) {
    IsSize(c.size, |c.data|) && c.data != [] && IsExtension(c.ext)
  }

  predicate AreTrailers(ts: seq<bytes>) {
    forall i :: 0 <= i < |ts| ==> ts[i] != [] && NoCrlf(ts[i])
  }

  predicate IsCoding(m: Coding) {
    && (forall i :: 0 <= i < |m.chunks| ==> IsChunk(m.chunks[i]))
    && IsSize(m.lastSize, 0) && IsExtension(m.lastExt)
    && AreTrailers(m.trailers)
  }

  function EncodeTrailers(ts: seq<bytes>): bytes {
    if ts == [] then CRLF else ts[0] + CRLF + EncodeTrailers(ts[1..])
  }

  function Encode(m: Coding): bytes
    decreases |m.chunks|
  {
    if m.chunks == [] then m.lastSize + m.lastExt + CRLF + EncodeTrailers(m.trailers)
    else
      var c := m.chunks[0];
      c.size + c.ext + CRLF + c.data + CRLF + Encode(m.(chunks := m.chunks[1..]))
  }

  function Payload(chunks: seq<Chunk>): bytes {
    if chunks == [] then [] else chunks[0].data + Payload(chunks[1..])
  }

  lemma SizeLine(size: bytes, ext: bytes, n: nat)
    requires IsSize(size, n) && IsExtension(ext)
    ensures DeclaredSize(size + ext) == Some(n)
    ensures NoCrlf(size + ext)
  {
    var line := size + ext;
    assert line[..|size|] == size;
    HexRunIs(line, |size|);
    forall i | 0 <= i && i + 1 < |line| ensures !(line[i] == CR && line[i + 1] == LF) {
      if i < |size| { assert HexDigit(line[..|size|][i]) >= 0; }
      else { assert line[i] == ext[i - |size|] && line[i + 1] == ext[i + 1 - |size|]; }
    }
  }

  lemma SizeLineParts(line: bytes)
    requires DeclaredSize(line).Some? && NoCrlf(line)
    ensures var k := HexRun(line);
            IsSize(line[..k], DeclaredSize(line).value) && IsExtension(line[k..]) && line == line[..k] + line[k..]
  {
    hide HexValue;
    var k := HexRun(line);
    var ext := line[k..];
    forall i | 0 <= i && i + 1 < |ext| ensures !(ext[i] == CR && ext[i + 1] == LF) {
      assert line[k + i] == ext[i] && line[k + i + 1] == ext[i + 1];
    }
  }

  lemma {:induction false} TrailersRead(ts: seq<bytes>, rest: bytes)
    requires AreTrailers(ts)
    ensures TrailerLength(EncodeTrailers(ts) + rest) == |EncodeTrailers(ts)|
    decreases |ts|
  {
    var s := EncodeTrailers(ts) + rest;
    if ts == [] {
      FindCrlf([], rest);
      assert s == [] + CRLF + rest;
    } else {
      var more := EncodeTrailers(ts[1..]) + rest;
      assert s == ts[0] + CRLF + more;
      FindCrlf(ts[0], more);
      assert s[|ts[0]| + 2..] == more;
      TrailersRead(ts[1..], rest);
    }
  }

  /** The first trailer line, and how long the rest is. */
  lemma TrailerParts(s: bytes)
    requires TrailerLength(s) != -1
    ensures var e := Find(s, CRLF, 0);
            && e != -1 && e + 2 <= |s| && MatchesAt(s, CRLF, e) && NoCrlf(s[..e])
            && (if e == 0 then TrailerLength(s) == 2
                else TrailerLength(s[e + 2..]) != -1 && TrailerLength(s) == e + 2 + TrailerLength(s[e + 2..]))
  {
    BeforeCrlf(s);
    hide Find;
  }

  lemma TrailersSnoc(line: bytes, ts: seq<bytes>)
    requires line != [] && NoCrlf(line) && AreTrailers(ts)
    ensures AreTrailers([line] + ts) && EncodeTrailers([line] + ts) == line + CRLF + EncodeTrailers(ts)
  {
    assert ([line] + ts)[1..] == ts;
    hide NoCrlf;
  }

  lemma {:induction false} TrailersWere(s: bytes) returns (ts: seq<bytes>)
    requires TrailerLength(s) != -1
    ensures AreTrailers(ts) && s[..TrailerLength(s)] == EncodeTrailers(ts)
    decreases |s|
  {
    TrailerParts(s);
    hide Find, TrailerLength, NoCrlf, MatchesAt;
    var e := Find(s, CRLF, 0);
    if e == 0 {
      ts := [];
      assert s[..2] == CRLF by { MatchesTwo(s, 13, 10, 0); }
    } else {
      var tail := TrailersWere(s[e + 2..]);
      ts := [s[..e]] + tail;
      TrailersSnoc(s[..e], tail);
      TrailerPieces(s, e, TrailerLength(s[e + 2..]));
    }
  }

  lemma TrailerPieces(s: bytes, e: nat, n: nat)
    requires e + 2 + n <= |s| && MatchesAt(s, CRLF, e)
    ensures s[..e + 2 + n] == s[..e] + CRLF + s[e + 2..][..n]
  {
    MatchesTwo(s, 13, 10, e);
  }

  lemma ChunkRead(line: bytes, data: bytes, tail: bytes)
    requires NoCrlf(line) && DeclaredSize(line) == Some(|data|) && data != []
    ensures Dechunk(line + CRLF + (data + CRLF + tail)) == After(data, |line| + |data| + 4, Dechunk(tail))
  {
    hide DeclaredSize, TrailerLength, Dechunk, NoCrlf, Find;
    var s := line + CRLF + (data + CRLF + tail);
    FindCrlf(line, data + CRLF + tail);
    DechunkUnfold(s);
    assert s[..|line|] == line;
    var begin := |line| + 2;
    assert s[begin..begin + |data|] == data;
    assert s[begin + |data|] == CR && s[begin + |data| + 1] == LF;
    assert s[begin + |data| + 2..] == tail;
  }

  lemma LastChunkRead(line: bytes, tail: bytes)
    requires NoCrlf(line) && DeclaredSize(line) == Some(0)
    ensures var t := TrailerLength(tail);
            Dechunk(line + CRLF + tail) == if t == -1 then Incomplete else Complete([], |line| + 2 + t)
  {
    hide DeclaredSize, TrailerLength, Dechunk;
    var s := line + CRLF + tail;
    FindCrlf(line, tail);
    DechunkUnfold(s);
    assert s[..|line|] == line && s[|line| + 2..] == tail;
  }

  /** Decoding an encoding, whatever follows it, gives back the payload and the exact length. */
  lemma {:induction false} DecodesCoding(m: Coding, rest: bytes)
    requires IsCoding(m)
    ensures Dechunk(Encode(m) + rest) == Complete(Payload(m.chunks), |Encode(m)|)
    decreases |m.chunks|
  {
    hide DeclaredSize, TrailerLength, Dechunk;
    if m.chunks == [] {
      var tail := EncodeTrailers(m.trailers) + rest;
      var line := m.lastSize + m.lastExt;
      SizeLine(m.lastSize, m.lastExt, 0);
      TrailersRead(m.trailers, rest);
      LastChunkRead(line, tail);
      assert Encode(m) + rest == line + CRLF + tail;
    } else {
      var c := m.chunks[0];
      var less := m.(chunks := m.chunks[1..]);
      var tail := Encode(less) + rest;
      DecodesCoding(less, rest);
      SizeLine(c.size, c.ext, |c.data|);
      ChunkRead(c.size + c.ext, c.data, tail);
      assert Encode(m) + rest == (c.size + c.ext) + CRLF + (c.data + CRLF + tail);
    }
  }

  /** A completed scan is a last chunk, or a chunk followed by a completed scan. */
  lemma CompleteParts(s: bytes) returns (line: bytes, size: nat, data: bytes, tail: bytes)
    requires Dechunk(s).Complete?
    ensures NoCrlf(line) && DeclaredSize(line) == Some(size) && |tail| < |s|
    ensures size == 0 ==> s == line + CRLF + tail && TrailerLength(tail) != -1
    ensures size != 0 ==> |data| == size && s == line + CRLF + (data + CRLF + tail) && Dechunk(tail).Complete?
  {
    hide DeclaredSize, TrailerLength, Dechunk, AfterSize, NoCrlf;
    DechunkUnfold(s);
    var e := Find(s, CRLF, 0);
    BeforeCrlf(s);
    line, size, data, tail := s[..e], DeclaredSize(s[..e]).value, [], s[e + 2..];
    AfterSizeComplete(s, e + 2, size);
    if size != 0 {
      data, tail := s[e + 2..e + 2 + size], s[e + size + 4..];
    }
  }

  lemma AfterSizeComplete(s: bytes, begin: nat, size: nat)
    requires begin <= |s| && AfterSize(s, 0, begin, size).Complete?
    ensures size == 0 ==> TrailerLength(s[begin..]) != -1
    ensures size != 0 ==> begin + size + 2 <= |s| && Dechunk(s[begin + size + 2..]).Complete?
                          && s[begin..] == s[begin..begin + size] + CRLF + s[begin + size + 2..]
  {
    hide TrailerLength, Dechunk;
    if size != 0 {
      assert s[begin + size..begin + size + 2] == CRLF;
      assert s[begin..] == s[begin..begin + size] + s[begin + size..begin + size + 2] + s[begin + size + 2..];
    }
  }

  lemma PrependChunk(c: Chunk, less: Coding)
    requires IsChunk(c) && IsCoding(less)
    ensures var m := less.(chunks := [c] + less.chunks);
            && IsCoding(m) && Payload(m.chunks) == c.data + Payload(less.chunks)
            && Encode(m) == (c.size + c.ext) + CRLF + (c.data + CRLF + Encode(less))
  {
    hide IsChunk;
    var m := less.(chunks := [c] + less.chunks);
    assert m.chunks[1..] == less.chunks;
    assert m.(chunks := less.chunks) == less;
  }

  lemma TakeParts(line: bytes, data: bytes, tail: bytes, n: nat)
    requires n <= |tail|
    ensures (line + CRLF + tail)[..|line| + 2 + n] == line + CRLF + tail[..n]
    ensures (line + CRLF + (data + CRLF + tail))[..|line| + |data| + 4 + n] == line + CRLF + (data + CRLF + tail[..n])
  {
  }

  /** Every text the decoder accepts starts with an encoding of what it returned. */
  lemma {:induction false} CodingWas(s: bytes) returns (m: Coding)
    requires Dechunk(s).Complete?
    ensures IsCoding(m) && Payload(m.chunks) == Dechunk(s).data && s[..Dechunk(s).consumed] == Encode(m)
    decreases |s|
  {
    hide DeclaredSize, TrailerLength, Dechunk, HexRun, IsSize, IsExtension, NoCrlf;
    var line, size, data, tail := CompleteParts(s);
    SizeLineParts(line);
    var k := HexRun(line);
    if size == 0 {
      LastChunkRead(line, tail);
      var ts := TrailersWere(tail);
      m := Coding([], line[..k], line[k..], ts);
      TakeParts(line, [], tail, TrailerLength(tail));
    } else {
      hide Encode, Payload, IsCoding;
      ChunkRead(line, data, tail);
      var less := CodingWas(tail);
      var c := Chunk(line[..k], line[k..], data);
      PrependChunk(c, less);
      m := less.(chunks := [c] + less.chunks);
      TakeParts(line, data, tail, Dechunk(tail).consumed);
    }
  }

  /** The decoder completes exactly on texts that start with an encoding. */
  lemma CodingExact(s: bytes, data: bytes, consumed: nat)
    ensures Dechunk(s) == Complete(data, consumed)
            <==> exists m :: IsCoding(m) && Payload(m.chunks) == data && |Encode(m)| == consumed && Encode(m) <= s
  {
    hide Dechunk, Encode, Payload;
    if Dechunk(s) == Complete(data, consumed) {
      var m := CodingWas(s);
      assert |Encode(m)| == consumed && Encode(m) <= s;
    }
    forall m | IsCoding(m) && Payload(m.chunks) == data && |Encode(m)| == consumed && Encode(m) <= s
      ensures Dechunk(s) == Complete(data, consumed)
    {
      assert s == Encode(m) + s[|Encode(m)|..];
      DecodesCoding(m, s[|Encode(m)|..]);
    }
  }

  const LAST := Coding([], [48], [], [])

  lemma LastChunkIs()
    ensures IsCoding(LAST) && Encode(LAST) == [48] + CRLF + CRLF && Payload([]) == []
  {
    var zero: bytes := [48];
    assert zero[..0] == [] && HexValue([]) == 0 && HexValue(zero) == 0;
    assert zero + [] == zero;
  }

  lemma OneChunk(c: Chunk)
    requires IsChunk(c) && c.ext == []
    ensures var m := LAST.(chunks := [c]);
            IsCoding(m) && Payload(m.chunks) == c.data && Encode(m) == c.size + CRLF + (c.data + CRLF + Encode(LAST))
  {
    hide IsChunk, IsCoding, Encode, Payload;
    LastChunkIs();
    PrependChunk(c, LAST);
    assert [c] + [] == [c];
    assert c.data + [] == c.data;
    assert c.size + c.ext == c.size;
  }

  /** Every body can be sent this way: as one chunk, its size in hexadecimal, and a last one. */
  lemma AnyBodyIsCoded(data: bytes)
    requires data != [] && |data| <= NPOS
    ensures var size := Hexadecimal(|data|);
            var m := LAST.(chunks := [Chunk(size, [], data)]);
            IsCoding(m) && Payload(m.chunks) == data && Encode(m) == size + CRLF + (data + CRLF + Encode(LAST))
  {
    hide IsChunk, IsCoding, Encode, Payload, Hexadecimal;
    SpelledChunk(data);
    OneChunk(Chunk(Hexadecimal(|data|), [], data));
  }

  lemma SpelledChunk(data: bytes)
    requires data != [] && |data| <= NPOS
    ensures IsChunk(Chunk(Hexadecimal(|data|), [], data))
  {
    hide HexValue, Hexadecimal, AllHex;
  }

  // ---- what it refuses -----------------------------------------------------------------

  /** Whole chunks, with no last one behind them. */
  function EncodeChunks(chunks: seq<Chunk>): bytes {
    if chunks == [] then []
    else
      var c := chunks[0];
      (c.size + c.ext) + CRLF + (c.data + CRLF + EncodeChunks(chunks[1..]))
  }

  predicate AreChunks(chunks: seq<Chunk>) {
    forall i :: 0 <= i < |chunks| ==> IsChunk(chunks[i])
  }

  /** A line that declares `n` bytes. */
  ghost predicate IsSizeLine(line: bytes, n: nat) {
    exists k :: 0 <= k <= |line| && IsSize(line[..k], n) && IsExtension(line[k..])
  }

  /** A line that declares no size, or a chunk whose data are not followed by CRLF. */
  ghost predicate IsOffence(line: bytes, rest: bytes) {
    && NoCrlf(line)
    && ((forall n: nat :: !IsSizeLine(line, n))
        || exists n: nat :: 0 < n && IsSizeLine(line, n) && n + 2 <= |rest| && !MatchesAt(rest, CRLF, n))
  }

  lemma SizeLineExact(line: bytes, n: nat)
    requires NoCrlf(line)
    ensures DeclaredSize(line) == Some(n) <==> IsSizeLine(line, n)
  {
    hide DeclaredSize, IsSize, IsExtension, NoCrlf;
    if DeclaredSize(line) == Some(n) { SizeLineParts(line); }
    if IsSizeLine(line, n) {
      var k :| 0 <= k <= |line| && IsSize(line[..k], n) && IsExtension(line[k..]);
      SizeLine(line[..k], line[k..], n);
      assert line == line[..k] + line[k..];
    }
  }

  lemma DechunkLine(line: bytes, rest: bytes)
    requires NoCrlf(line)
    ensures Dechunk(line + CRLF + rest) ==
            match DeclaredSize(line) case None => Malformed
                                     case Some(size) => AfterSize(line + CRLF + rest, 0, |line| + 2, size)
  {
    hide DeclaredSize, Dechunk, AfterSize;
    FindCrlf(line, rest);
    DechunkUnfold(line + CRLF + rest);
    assert (line + CRLF + rest)[..|line|] == line;
  }

  lemma OffenceIsMalformed(line: bytes, rest: bytes)
    requires IsOffence(line, rest)
    ensures Dechunk(line + CRLF + rest) == Malformed
  {
    hide DeclaredSize, Dechunk, IsSizeLine, NoCrlf;
    DechunkLine(line, rest);
    if DeclaredSize(line).Some? {
      SizeLineExact(line, DeclaredSize(line).value);
      var n: nat :| 0 < n && IsSizeLine(line, n) && n + 2 <= |rest| && !MatchesAt(rest, CRLF, n);
      SizeLineExact(line, n);
      MatchesTwo(rest, 13, 10, n);
      var s := line + CRLF + rest;
      assert s[|line| + 2 + n] == rest[n] && s[|line| + 2 + n + 1] == rest[n + 1];
    }
  }

  lemma ChunksStep(chunks: seq<Chunk>, end: bytes)
    requires chunks != []
    ensures var c := chunks[0];
            EncodeChunks(chunks) + end == (c.size + c.ext) + CRLF + (c.data + CRLF + (EncodeChunks(chunks[1..]) + end))
  {
  }

  lemma NoChunks(end: bytes)
    ensures EncodeChunks([]) + end == end
  {
  }

  lemma {:induction false} OffenceRefused(chunks: seq<Chunk>, line: bytes, rest: bytes)
    requires AreChunks(chunks) && IsOffence(line, rest)
    ensures Dechunk(EncodeChunks(chunks) + (line + CRLF + rest)) == Malformed
    decreases |chunks|
  {
    hide DeclaredSize, Dechunk, IsOffence, EncodeChunks, IsSize, IsExtension, NoCrlf;
    var end := line + CRLF + rest;
    if chunks == [] {
      NoChunks(end);
      OffenceIsMalformed(line, rest);
    } else {
      var c := chunks[0];
      assert IsChunk(c);
      OffenceRefused(chunks[1..], line, rest);
      SizeLine(c.size, c.ext, |c.data|);
      ChunkRead(c.size + c.ext, c.data, EncodeChunks(chunks[1..]) + end);
      ChunksStep(chunks, end);
    }
  }

  /** A malformed text is an offence, or one chunk and a malformed text. */
  lemma MalformedParts(s: bytes) returns (line: bytes, size: nat, data: bytes, tail: bytes)
    requires Dechunk(s) == Malformed
    ensures NoCrlf(line) && |tail| < |s|
    ensures || (IsOffence(line, tail) && s == line + CRLF + tail)
            || (data != [] && DeclaredSize(line) == Some(|data|) && Dechunk(tail) == Malformed
                && s == line + CRLF + (data + CRLF + tail))
  {
    hide DeclaredSize, Dechunk, AfterSize, IsSizeLine, NoCrlf, MatchesAt, Find;
    DechunkUnfold(s);
    var e := Find(s, CRLF, 0);
    BeforeCrlf(s);
    MatchesTwo(s, 13, 10, e);
    line, size, data, tail := s[..e], 0, [], s[e + 2..];
    forall n: nat ensures DeclaredSize(line) == Some(n) <==> IsSizeLine(line, n) { SizeLineExact(line, n); }
    if DeclaredSize(line).Some? {
      size := DeclaredSize(line).value;
      AfterSizeMalformed(s, e + 2, size);
      if MatchesAt(tail, CRLF, size) {
        data, tail := s[e + 2..e + 2 + size], s[e + size + 4..];
      }
    }
  }

  lemma AfterSizeMalformed(s: bytes, begin: nat, size: nat)
    requires begin <= |s| && AfterSize(s, 0, begin, size) == Malformed
    ensures size != 0 && begin + size + 2 <= |s|
    ensures MatchesAt(s[begin..], CRLF, size) ==>
              && Dechunk(s[begin + size + 2..]) == Malformed
              && s[begin..] == s[begin..begin + size] + CRLF + s[begin + size + 2..]
  {
    hide TrailerLength, Dechunk;
    var rest := s[begin..];
    MatchesTwo(rest, 13, 10, size);
    assert rest[size] == s[begin + size] && rest[size + 1] == s[begin + size + 1];
    assert s[begin..begin + size] == rest[..size] && rest[size + 2..] == s[begin + size + 2..];
    if MatchesAt(rest, CRLF, size) { assert rest == rest[..size] + rest[size..size + 2] + rest[size + 2..]; }
  }

  lemma {:induction false} MalformedWas(s: bytes) returns (chunks: seq<Chunk>, line: bytes, rest: bytes)
    requires Dechunk(s) == Malformed
    ensures AreChunks(chunks) && IsOffence(line, rest) && s == EncodeChunks(chunks) + (line + CRLF + rest)
    decreases |s|
  {
    hide DeclaredSize, Dechunk, IsOffence, IsSize, IsExtension, NoCrlf;
    var size, data, tail;
    line, size, data, tail := MalformedParts(s);
    if IsOffence(line, tail) && s == line + CRLF + tail {
      chunks, rest := [], tail;
      assert [] + s == s;
    } else {
      SizeLineParts(line);
      var k := HexRun(line);
      var more, l, r := MalformedWas(tail);
      var c := Chunk(line[..k], line[k..], data);
      chunks := [c] + more;
      assert chunks[1..] == more;
      assert s == (c.size + c.ext) + CRLF + (c.data + CRLF + EncodeChunks(more)) + (l + CRLF + r);
      line, rest := l, r;
    }
  }

  /** The decoder refuses exactly texts in which whole chunks are followed by an offence; it waits on all others. */
  lemma MalformedExact(s: bytes)
    ensures Dechunk(s) == Malformed
            <==> exists chunks, line, rest ::
                   AreChunks(chunks) && IsOffence(line, rest) && s == EncodeChunks(chunks) + (line + CRLF + rest)
  {
    hide Dechunk, AreChunks, IsOffence;
    if Dechunk(s) == Malformed {
      var chunks, line, rest := MalformedWas(s);
    }
    forall chunks, line, rest |
      AreChunks(chunks) && IsOffence(line, rest) && s == EncodeChunks(chunks) + (line + CRLF + rest)
      ensures Dechunk(s) == Malformed
    {
      OffenceRefused(chunks, line, rest);
    }
  }

  // ---- later bytes ---------------------------------------------------------------------

  lemma CompleteStays(s: bytes, t: bytes)
    requires Dechunk(s).Complete?
    ensures Dechunk(s + t) == Dechunk(s)
    ensures Dechunk(s[..Dechunk(s).consumed]) == Dechunk(s)
  {
    hide Dechunk, Encode, Payload, IsCoding;
    var m := CodingWas(s);
    var c := Encode(m);
    assert s == c + s[|c|..];
    assert s + t == c + (s[|c|..] + t);
    assert c + [] == c;
    DecodesCoding(m, s[|c|..] + t);
    DecodesCoding(m, []);
  }

  /** A malformed chunk behind its size line stays malformed, if its tail does. */
  lemma AfterSizeStays(s: bytes, t: bytes, begin: nat, size: nat)
    requires begin <= |s| && AfterSize(s, 0, begin, size) == Malformed
    requires begin + size + 2 <= |s| && Dechunk(s[begin + size + 2..]) == Malformed
             ==> Dechunk(s[begin + size + 2..] + t) == Malformed
    ensures AfterSize(s + t, 0, begin, size) == Malformed
  {
    hide TrailerLength, Dechunk;
    var k := begin + size;
    assert (s + t)[k] == s[k] && (s + t)[k + 1] == s[k + 1];
    assert (s + t)[k + 2..] == s[k + 2..] + t;
  }

  lemma {:induction false} MalformedStays(s: bytes, t: bytes)
    requires Dechunk(s) == Malformed
    ensures Dechunk(s + t) == Malformed
    decreases |s|
  {
    hide DeclaredSize, TrailerLength, Dechunk, AfterSize, Find;
    DechunkUnfold(s);
    DechunkUnfold(s + t);
    var e := Find(s, CRLF, 0);
    assert (s + t)[..|s|] == s[..|s|];
    FindAgree(s, s + t, |s|, CRLF, 0);
    assert (s + t)[..e] == s[..e];
    if DeclaredSize(s[..e]).Some? {
      var begin, size := e + 2, DeclaredSize(s[..e]).value;
      if begin + size + 2 <= |s| && Dechunk(s[begin + size + 2..]) == Malformed {
        MalformedStays(s[begin + size + 2..], t);
      }
      AfterSizeStays(s, t, begin, size);
    }
  }

  /** The size guard turns away exactly the numerals of 2^64 and more. */
  lemma GuardExact(digits: bytes, ext: bytes)
    requires digits != [] && AllHex(digits) && IsExtension(ext)
    ensures DeclaredSize(digits + ext) ==
            if HexValue(digits) < 0x1_0000_0000_0000_0000 then Some(HexValue(digits)) else None
  {
    var line := digits + ext;
    assert line[..|digits|] == digits;
    HexRunIs(line, |digits|);
  }
}
