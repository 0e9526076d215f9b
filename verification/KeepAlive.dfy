/** Whether a request asks for its connection to stay open. */
module KeepAlive {
  import opened Bytes
  import opened Head
  import opened Message
  import Chunked

  const CONNECTION: bytes := Ascii("Connection")
  const CLOSE: bytes := Ascii("close")
  const KEEP_ALIVE: bytes := Ascii("keep-alive")

  /** The value of the first field of that name, up to ASCII case; empty without one. */
  function HeaderValue(fs: seq<Field>, name: bytes): bytes {
    if fs == [] then []
    else if IEquals(fs[0].name, name) then fs[0].value
    else HeaderValue(fs[1..], name)
  }

  method Header(headers: seq<Field>, name: bytes) returns (value: bytes)
    ensures value == HeaderValue(headers, name)
    ensures (forall i :: 0 <= i < |headers| ==> !IEquals(headers[i].name, name)) ==> value == []
  {
    assert headers[0..] == headers;
    for i := 0 to |headers|
      invariant HeaderValue(headers, name) == HeaderValue(headers[i..], name)
    {
      assert headers[i..][1..] == headers[i + 1..];
      if IEquals(headers[i].name, name) { return headers[i].value; }
    }
    return [];
  }

  predicate KeepAliveRequested(r: Request) {
    var conn := HeaderValue(r.headers, CONNECTION);
    if IEquals(conn, CLOSE) then false
    else if IEquals(conn, KEEP_ALIVE) then true
    else !(HTTP_10 <= r.start.version)
  }

  /** What the request itself decides: a buffer that does not parse is answered once and closed. */
  predicate AsksToStay(raw: bytes) {
    RequestOf(raw).Some? && KeepAliveRequested(RequestOf(raw).value)
  }

  /** Field `i` is the first of that name. */
  predicate FirstAt(fs: seq<Field>, name: bytes, i: int) {
    0 <= i < |fs| && IEquals(fs[i].name, name) && forall j :: 0 <= j < i ==> !IEquals(fs[j].name, name)
  }

  lemma {:induction false} HeaderExact(fs: seq<Field>, name: bytes)
    ensures forall i :: FirstAt(fs, name, i) ==> HeaderValue(fs, name) == fs[i].value
    ensures (forall i :: 0 <= i < |fs| ==> !IEquals(fs[i].name, name)) ==> HeaderValue(fs, name) == []
    ensures (exists i :: FirstAt(fs, name, i)) || HeaderValue(fs, name) == []
  {
    hide IEquals;
    if fs == [] {
    } else if IEquals(fs[0].name, name) {
      assert FirstAt(fs, name, 0);
    } else {
      var rest := fs[1..];
      HeaderExact(rest, name);
      assert forall i :: 1 <= i < |fs| ==> fs[i] == rest[i - 1];
      forall i | FirstAt(fs, name, i) ensures HeaderValue(fs, name) == fs[i].value {
        assert FirstAt(rest, name, i - 1);
      }
      if i :| FirstAt(rest, name, i) {
        assert fs[i + 1] == rest[i];
        assert FirstAt(fs, name, i + 1);
      }
    }
  }

  /** The first Connection field, up to case, has that value, up to case. */
  ghost predicate Says(fs: seq<Field>, value: bytes) {
    exists i :: FirstAt(fs, Ascii("connection"), i) && IEquals(fs[i].value, value)
  }

  lemma NamesAlike(a: bytes)
    ensures IEquals(a, CONNECTION) <==> IEquals(a, Ascii("connection"))
  {
    SameLetters("connection", "Connection", a);
  }

  /** A connection is asked to stay by `keep-alive`, and from HTTP/1.1 on by anything but `close`. */
  lemma KeepAliveExact(r: Request)
    requires IsVersion(r.start.version)
    ensures KeepAliveRequested(r)
            <==> || Says(r.headers, Ascii("keep-alive"))
                 || (!Says(r.headers, Ascii("close")) && r.start.version != Ascii("HTTP/1.0"))
  {
    forall a ensures IEquals(a, CONNECTION) <==> IEquals(a, Ascii("connection")) { NamesAlike(a); }
    HeaderExact(r.headers, CONNECTION);
    hide IEquals;
    forall i ensures FirstAt(r.headers, CONNECTION, i) <==> FirstAt(r.headers, Ascii("connection"), i) { }
    SaysOne(r.headers);
    assert HTTP_10 <= r.start.version <==> r.start.version == HTTP_10;
  }

  /** There is one first field, and an empty value says nothing. */
  lemma SaysOne(fs: seq<Field>)
    ensures forall i, j :: FirstAt(fs, CONNECTION, i) && FirstAt(fs, CONNECTION, j) ==> i == j
    ensures !IEquals([], CLOSE) && !IEquals([], KEEP_ALIVE)
    ensures forall v: bytes :: !(IEquals(v, CLOSE) && IEquals(v, KEEP_ALIVE))
  {
    assert |CLOSE| == 5 && |KEEP_ALIVE| == 10;
  }

  // ---- a request that stays -----------------------------------------------------------------

  const HOST_LINE: bytes := Ascii("Host: a")
  const HOST_FIELD := Field(HOST, [97])

  lemma HostLineReads()
    ensures |HOST_LINE| == 7 && LF !in HOST_LINE && CR !in HOST_LINE && FieldOf(HOST_LINE) == Some(HOST_FIELD)
  {
    var line := "Host: a";
    assert forall i :: 0 <= i < |line| ==> line[i] != '\n' && line[i] != '\r';
    assert forall i :: 0 <= i < 4 ==> 'a' <= line[i] <= 'z' || line[i] == 'H';
    assert HOST_LINE == HOST + [COLON] + [SP, 97];
    assert COLON !in HOST && HOST[0] == 72 && IsToken(HOST) && !IsBlank(HOST[3]);
    FindByteFirst(HOST, COLON, [SP, 97]);
    assert HOST_LINE[..4] == HOST && HOST_LINE[5..] == [SP, 97];
    HostTrims();
  }

  lemma HostTrims()
    ensures Trim(HOST) == HOST && Trim([SP, 97]) == [97]
  {
    assert HOST[0] == 72 && HOST[3] == 116;
    var value: bytes := [SP, 97];
    assert value[1..] == [97];
    assert TrimLeft([97]) == [97] && TrimLeft(value) == [97] && TrimRight([97]) == [97];
  }

  lemma TwoLineBounds(start: bytes, line: bytes)
    requires LF !in start && CR !in start && LF !in line && CR !in line && line != []
    ensures var head := start + CRLF + line; BoundsOf(head + CRLFCRLF) == Bounds(|head|, 4)
  {
    var head := start + CRLF + line;
    var raw := head + CRLFCRLF;
    TerminatorShapes(raw, |head|);
    assert forall i :: 0 <= i < |start| ==> raw[i] == start[i];
    assert raw[|start| + 2] == line[0];
    forall i | 0 <= i < |head| ensures !TerminatorAt(raw, i) {
      TerminatorShapes(raw, i);
      assert |start| + 2 <= i ==> raw[i] == line[i - |start| - 2];
    }
    BoundsAre(raw, |head|, 4);
  }

  /** A head of two lines, the first ending in CR. */
  lemma TwoLineHead(start: bytes, line: bytes)
    requires LF !in start && CR !in start && LF !in line && CR !in line && line != []
    ensures var head := start + CRLF + line;
            && FindByte(head, LF, 0) == |start| + 1
            && RequestLine(head) == start + [CR] && HeaderLines(head) == [line] && EndingsAccepted(head, 4)
  {
    hide VersionAtLeast11;
    var head := start + CRLF + line;
    FindByteFirst(start + [CR], LF, line);
    assert head == (start + [CR]) + [LF] + line;
    assert head[..|start| + 1] == start + [CR];
    assert forall i :: |start| + 2 <= i < |head| ==> head[i] == line[i - |start| - 2];
    assert FindByte(head, LF, |start| + 2) == -1;
    assert head[|start| + 2..] == line;
  }

  lemma GetTokens()
    ensures IsToken(GET_11[..3]) && IsTarget(GET_11[4..5]) && IsVersion(GET_11[6..])
    ensures GET_11[..3] == Ascii("GET") && GET_11[4..5] == [SLASH] && GET_11[6..] == Ascii("HTTP/1.1")
  {
    var g, v := Ascii("GET"), Ascii("HTTP/1.1");
    assert GET_11 == g + [SP, SLASH, SP] + v;
    assert GET_11[..3] == g && GET_11[4..5] == [SLASH] && GET_11[6..] == v;
    assert forall i :: 0 <= i < |"GET"| ==> 'A' <= "GET"[i] <= 'Z';
    assert v[5] == 49 && v[6] == 46 && v[7] == 49 && v[..5] == HTTP_SLASH;
  }

  lemma GetSpaces()
    ensures FindByte(GET_11 + [CR], SP, 0) == 3 && FindByte(GET_11 + [CR], SP, 4) == 5
    ensures FindByte(GET_11 + [CR], SP, 6) == -1
  {
    var text, line := "GET / HTTP/1.1", GET_11 + [CR];
    assert forall i :: 0 <= i < |text| ==> (text[i] == ' ' <==> i == 3 || i == 5);
    assert forall i :: 0 <= i < |text| ==> (line[i] == SP <==> i == 3 || i == 5);
    assert line[3] == SP && line[5] == SP && line[14] == CR;
  }

  lemma GetStartLine()
    ensures StartLineOf(GET_11 + [CR]) == Some(StartLine(Ascii("GET"), [SLASH], Ascii("HTTP/1.1")))
  {
    GetDeclares11();
    GetTokens();
    GetSpaces();
    hide IsToken, IsTarget, IsVersion, FindByte;
    var line := GET_11 + [CR];
    assert line[..3] == GET_11[..3] && line[4..5] == GET_11[4..5] && line[6..] == GET_11[6..] + [CR];
    assert StripCr(line[6..]) == GET_11[6..];
  }

  const GET_HOST: bytes := GET_11 + CRLF + HOST_LINE + CRLFCRLF

  lemma NoConnectionField()
    ensures HeaderValue([HOST_FIELD], CONNECTION) == [] && !(HTTP_10 <= Ascii("HTTP/1.1"))
    ensures !IEquals([], CLOSE) && !IEquals([], KEEP_ALIVE)
  {
    assert |HOST| == 4 && |CONNECTION| == 10;
    assert [HOST_FIELD][1..] == [];
    assert "HTTP/1.0"[7] == '0' && "HTTP/1.1"[7] == '1';
    assert HTTP_10[7] == 48 && Ascii("HTTP/1.1")[7] == 49;
  }

  lemma HostIsNoFraming()
    ensures !HasLength([HOST_FIELD]) && !HasCoding([HOST_FIELD]) && Coherent([HOST_FIELD])
  {
    assert |HOST| == 4 && |CONTENT_LENGTH| == 14 && |TRANSFER_ENCODING| == 17;
  }

  predicate NoFraming(scan: HeadScan) {
    && !scan.Stopped() && !scan.chunked && !scan.transferEncoding
    && !scan.hasContentLength && scan.contentLength == 0
  }

  lemma HostFieldsRead(head: bytes, start: StartLine)
    requires HeaderLines(head) == [HOST_LINE] && FindByte(head, LF, 0) == 15
    requires StartLineOf(RequestLine(head)) == Some(start)
    ensures NoFraming(ScanOf(head))
    ensures HeadOf(head) == Some((start, [HOST_FIELD]))
  {
    HostLineReads();
    HostIsNoFraming();
    hide ScanOf, StartLineOf, RequestLine, HeaderLines, FieldOf, Coherent;
    assert StripCr(HOST_LINE) == HOST_LINE;
    assert [HOST_LINE][1..] == [] && FieldsOf([]) == Some([]);
    assert [HOST_FIELD] + [] == [HOST_FIELD];
    assert FieldsOf([HOST_LINE]) == Some([HOST_FIELD]);
    assert LinesShort([HOST_LINE]);
    ScanExact(head, [HOST_FIELD]);
    assert [HOST_FIELD][..0] == [] && HostCount([HOST_FIELD]) == HostCount([]) + 1;
  }

  lemma NoBodyRequest(head: bytes, start: StartLine, fs: seq<Field>)
    requires BoundsOf(head + CRLFCRLF) == Bounds(|head|, 4) && |head| + 4 < NPOS && EndingsAccepted(head, 4)
    requires NoFraming(ScanOf(head))
    requires HeadOf(head) == Some((start, fs))
    ensures var raw := head + CRLFCRLF;
            && InspectionOf(raw) == Inspection(Complete, |raw|)
            && RequestOf(raw) == Some(Request(start, PathOf(start.target), QueryOf(start.target), fs, [], 0))
  {
    hide ScanOf, EndingsAccepted, HeadOf, PathOf, QueryOf, Chunked.Dechunk;
    assert (head + CRLFCRLF)[..|head|] == head;
  }

  /** A small request that the server answers and keeps open. */
  lemma GetHostStays()
    ensures |GET_HOST| == 27 && InspectionOf(GET_HOST) == Inspection(Complete, 27) && AsksToStay(GET_HOST)
  {
    GetDeclares11();
    HostLineReads();
    GetStartLine();
    NoConnectionField();
    TwoLineBounds(GET_11, HOST_LINE);
    TwoLineHead(GET_11, HOST_LINE);
    hide ScanOf, EndingsAccepted, StartLineOf, HeaderLines, RequestLine, HeadOf, BoundsOf, InspectionOf, RequestOf,
      HeaderValue, IEquals;
    var head := GET_11 + CRLF + HOST_LINE;
    var start := StartLine(Ascii("GET"), [SLASH], Ascii("HTTP/1.1"));
    HostFieldsRead(head, start);
    NoBodyRequest(head, start, [HOST_FIELD]);
  }
}
