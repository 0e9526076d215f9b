/** Framing inspection and parsing of an HTTP/1.1 request, and why the two agree. */
module Message {
  import opened Bytes
  import opened Head
  import Chunked

  // ---- inspection -----------------------------------------------------------------

  datatype Framing = Complete | Incomplete | BadRequest | TooManyHeaders | NotImplemented

  /** `expected` is 0 while the length of the request is unknown. */
  datatype Inspection = Inspection(framing: Framing, expected: nat)

  /** Verdict on a head that is still arriving: `lines` were seen, the next one starts at `prev`. */
  function PartialVerdict(raw: bytes, prev: nat, lines: nat): (r: Framing)
    ensures r == Incomplete || r == BadRequest || r == TooManyHeaders
    decreases |raw| - prev
  {
    var p := FindByte(raw, LF, prev);
    if p == -1 then (if |raw| - prev > MAX_HEADER_LINE then BadRequest else Incomplete)
    else if lines + 1 > MAX_HEADERS + 1 then TooManyHeaders
    else if p - prev > MAX_HEADER_LINE then BadRequest
    else PartialVerdict(raw, p + 1, lines + 1)
  }

  /** Why a complete head is turned away, if it is. */
  function HeadRefusal(head: bytes, separator: nat): (r: Option<Framing>)
    ensures r != Some(Complete) && r != Some(Incomplete)
  {
    var scan := ScanOf(head);
    if scan.tooMany then Some(TooManyHeaders)
    else if scan.bad then Some(BadRequest)
    else if scan.transferEncoding then Some(NotImplemented)
    else if !EndingsAccepted(head, separator) then Some(BadRequest)
    else None
  }

  /** `base + length`, saturated at npos. */
  function TotalLength(base: nat, length: nat): nat {
    if base + length > NPOS then NPOS else base + length
  }

  /** Inspection of a buffer whose head is `raw[..end]`. */
  function BodyInspection(raw: bytes, base: nat, scan: HeadScan): Inspection
    requires base <= |raw|
  {
    if scan.chunked then
      match Chunked.Dechunk(raw[base..])
      case Complete(_, consumed) => Inspection(Complete, base + consumed)
      case Incomplete => Inspection(Incomplete, 0)
      case Malformed => Inspection(BadRequest, 0)
    else
      var total := TotalLength(base, scan.contentLength);
      Inspection(if |raw| >= total then Complete else Incomplete, total)
  }

  function InspectionOf(raw: bytes): Inspection {
    var b := BoundsOf(raw);
    if b.end == -1 then Inspection(PartialVerdict(raw, 0, 0), 0)
    else
      match HeadRefusal(raw[..b.end], b.separator)
      case Some(verdict) => Inspection(verdict, 0)
      case None => BodyInspection(raw, b.end + b.separator, ScanOf(raw[..b.end]))
  }

  method InspectPartialHead(raw: bytes) returns (verdict: Framing)
    ensures verdict == PartialVerdict(raw, 0, 0)
  {
    var lines, prev := 0, 0;
    var p := FindByte(raw, LF, 0);
    while p != -1
      invariant 0 <= prev <= |raw| && 0 <= lines && p == FindByte(raw, LF, prev)
      invariant PartialVerdict(raw, 0, 0) == PartialVerdict(raw, prev, lines)
      decreases |raw| - prev
    {
      lines := lines + 1;
      if lines > MAX_HEADERS + 1 { return TooManyHeaders; }
      if p - prev > MAX_HEADER_LINE { return BadRequest; }
      prev := p + 1;
      p := FindByte(raw, LF, prev);
    }
    if |raw| - prev > MAX_HEADER_LINE { return BadRequest; }
    return Incomplete;
  }

  method Inspect(raw: bytes) returns (r: Inspection)
    ensures r == InspectionOf(raw)
  {
    hide ScanOf, EndingsAccepted, PartialVerdict;
    var b := BoundsOf(raw);
    if b.end == -1 {
      var verdict := InspectPartialHead(raw);
      return Inspection(verdict, 0);
    }
    var scan := ScanHead(raw[..b.end]);
    if scan.tooMany { return Inspection(TooManyHeaders, 0); }
    if scan.bad { return Inspection(BadRequest, 0); }
    if scan.transferEncoding { return Inspection(NotImplemented, 0); }
    var endings := LineEndingsOk(raw[..b.end], b.separator);
    if !endings { return Inspection(BadRequest, 0); }
    var base := b.end + b.separator;
    if scan.chunked {
      var result := Chunked.ScanChunked(raw[base..]);
      match result
      case Complete(_, consumed) => return Inspection(Complete, base + consumed);
      case Malformed => return Inspection(BadRequest, 0);
      case Incomplete => return Inspection(Incomplete, 0);
    }
    var total := base;
    if scan.contentLength > NPOS - base {
      total := NPOS;
    } else {
      total := base + scan.contentLength;
    }
    return Inspection(if |raw| >= total then Complete else Incomplete, total);
  }

  // ---- framing is self-delimiting ---------------------------------------------------

  lemma CompleteWithin(raw: bytes)
    requires InspectionOf(raw).framing == Complete
    ensures BoundsOf(raw).end != -1 && 0 < InspectionOf(raw).expected <= |raw|
    ensures |raw| <= NPOS ==> BoundsOf(raw).end + BoundsOf(raw).separator <= InspectionOf(raw).expected
  {
    hide ScanOf, EndingsAccepted, PartialVerdict, Chunked.Dechunk;
  }

  /** The head, once complete, is judged the same in every buffer that shares it. */
  lemma SameHead(s: bytes, t: bytes, n: nat)
    requires n <= |s| && n <= |t| && s[..n] == t[..n]
    requires BoundsOf(s).end != -1 && BoundsOf(s).end + BoundsOf(s).separator <= n
    ensures BoundsOf(t) == BoundsOf(s) && t[..BoundsOf(t).end] == s[..BoundsOf(s).end]
  {
    BoundsAgree(s, t, n);
    var e := BoundsOf(s).end;
    assert s[..n][..e] == s[..e] && t[..n][..e] == t[..e];
  }

  /** More bytes never change a Complete verdict or its length. */
  lemma CompleteSurvives(raw: bytes, more: bytes)
    requires InspectionOf(raw).framing == Complete
    ensures InspectionOf(raw + more) == InspectionOf(raw)
  {
    hide ScanOf, EndingsAccepted, PartialVerdict, Chunked.Dechunk, HeadRefusal;
    assert (raw + more)[..|raw|] == raw[..|raw|];
    SameHead(raw, raw + more, |raw|);
    var b := BoundsOf(raw);
    var base := b.end + b.separator;
    assert (raw + more)[base..] == raw[base..] + more;
    if ScanOf(raw[..b.end]).chunked {
      Chunked.CompleteStays(raw[base..], more);
    }
  }

  /** The declared bytes alone are Complete with the same length. */
  lemma CompleteAlone(raw: bytes)
    requires InspectionOf(raw).framing == Complete && |raw| <= NPOS
    ensures InspectionOf(raw[..InspectionOf(raw).expected]) == InspectionOf(raw)
  {
    hide ScanOf, EndingsAccepted, PartialVerdict, Chunked.Dechunk, HeadRefusal;
    CompleteWithin(raw);
    var n := InspectionOf(raw).expected;
    var s := raw[..n];
    assert s[..n] == raw[..n];
    SameHead(raw, s, n);
    var b := BoundsOf(raw);
    var base := b.end + b.separator;
    assert s[base..] == raw[base..][..n - base];
    if ScanOf(raw[..b.end]).chunked {
      Chunked.CompleteStays(raw[base..], []);
    }
  }

  /** No proper prefix of a complete request is itself Complete. */
  lemma NothingShorter(raw: bytes, m: nat)
    requires InspectionOf(raw).framing == Complete && m < InspectionOf(raw).expected <= |raw|
    ensures InspectionOf(raw[..m]).framing != Complete
  {
    hide InspectionOf;
    assert raw == raw[..m] + raw[m..];
    if InspectionOf(raw[..m]).framing == Complete {
      CompleteWithin(raw[..m]);
      CompleteSurvives(raw[..m], raw[m..]);
    }
  }

  /** Once the head is there, a refusal is final and a declared length never changes. */
  lemma VerdictsFinal(raw: bytes, more: bytes)
    requires BoundsOf(raw).end != -1
    ensures InspectionOf(raw).framing != Incomplete ==> InspectionOf(raw + more) == InspectionOf(raw)
    ensures InspectionOf(raw).expected != 0 ==> InspectionOf(raw + more).expected == InspectionOf(raw).expected
    ensures InspectionOf(raw).framing == Incomplete && InspectionOf(raw).expected != 0 ==>
              InspectionOf(raw + more).framing ==
              if |raw + more| >= InspectionOf(raw).expected then Complete else Incomplete
  {
    hide ScanOf, EndingsAccepted, PartialVerdict, Chunked.Dechunk, HeadRefusal;
    if InspectionOf(raw).framing == Complete {
      CompleteSurvives(raw, more);
    } else {
      assert (raw + more)[..|raw|] == raw[..|raw|];
      SameHead(raw, raw + more, |raw|);
      var base := BoundsOf(raw).end + BoundsOf(raw).separator;
      assert (raw + more)[base..] == raw[base..] + more;
      if Chunked.Dechunk(raw[base..]).Malformed? {
        Chunked.MalformedStays(raw[base..], more);
      }
    }
  }

  /** A non-zero `expected` is only ever reported for a head that has arrived. */
  lemma ExpectedHasHead(raw: bytes)
    requires InspectionOf(raw).expected != 0
    ensures BoundsOf(raw).end != -1
    ensures InspectionOf(raw).framing == Complete || InspectionOf(raw).framing == Incomplete
    ensures InspectionOf(raw).framing == Incomplete ==> |raw| < InspectionOf(raw).expected
  {
    hide ScanOf, EndingsAccepted, PartialVerdict, Chunked.Dechunk;
  }

  // ---- requests without header lines ----------------------------------------------------

  /** A line and an empty line: refused exactly when the line declares HTTP/1.1 and does not end in a CR of its own. */
  lemma HeaderlessVerdict(line: bytes)
    requires LF !in line && |line| + 4 <= NPOS
    ensures InspectionOf(line + CRLFCRLF) ==
            if VersionAtLeast11(line) && line[|line| - 1] != CR then Inspection(BadRequest, 0)
            else Inspection(Complete, |line| + 4)
  {
    assert VersionAtLeast11(line) ==> line != [];
    hide VersionAtLeast11;
    var raw := line + CRLFCRLF;
    TerminatorShapes(raw, |line|);
    forall i | 0 <= i < |line| ensures !TerminatorAt(raw, i) {
      TerminatorShapes(raw, i);
      assert raw[i] == line[i] && (i + 1 < |line| ==> raw[i + 1] == line[i + 1]);
    }
    BoundsAre(raw, |line|, 4);
    assert raw[..|line|] == line;
    HeaderlessEndings(line);
    assert FindByte(line, LF, 0) == -1;
    assert ScanOf(line) == NO_FIELDS;
    assert HeadRefusal(line, 4) == if EndingsAccepted(line, 4) then None else Some(BadRequest);
  }

  const GET_11: bytes := Ascii("GET / HTTP/1.1")

  lemma GetDeclares11()
    ensures VersionAtLeast11(GET_11) && VersionAtLeast11(GET_11 + [CR])
    ensures |GET_11| == 14 && GET_11[13] != CR && LF !in GET_11 && CR !in GET_11
  {
    var line, h := "GET / HTTP/1.1", Ascii("HTTP/");
    assert forall i :: 0 <= i < |line| ==> line[i] != '\n' && line[i] != '\r';
    assert forall i :: 0 <= i < 6 ==> line[i] != 'H';
    assert GET_11[6..11] == h;
    forall i: nat | i < 6 ensures !MatchesAt(GET_11, h, i) {
      assert GET_11[i] != h[0];
      assert GET_11[i..i + 5][0] == GET_11[i];
    }
    assert StripCr(GET_11) == GET_11 && StripCr(GET_11 + [CR]) == GET_11;
    assert MatchesAt(GET_11, h, 6);
  }

  /** The input on which code and comment disagree, and one with a further CR that is let through. */
  lemma HeaderlessRequests()
    ensures InspectionOf(GET_11 + CRLFCRLF) == Inspection(BadRequest, 0)
    ensures InspectionOf(GET_11 + [CR] + CRLFCRLF) == Inspection(Complete, 19)
  {
    GetDeclares11();
    hide InspectionOf, VersionAtLeast11;
    HeaderlessVerdict(GET_11);
    HeaderlessVerdict(GET_11 + [CR]);
  }

  // ---- parsing ------------------------------------------------------------------------

  datatype StartLine = StartLine(method_: bytes, target: bytes, version: bytes)

  datatype Request = Request(
    start: StartLine,
    path: bytes,
    query: bytes,
    headers: seq<Field>,
    body: bytes,
    contentLength: nat)

  predicate IsTarget(s: bytes) {
    s != [] && forall i :: 0 <= i < |s| ==> s[i] > 32 && s[i] != 127
  }

  predicate IsVersion(s: bytes) {
    |s| == 8 && s[..5] == HTTP_SLASH && IsDigit(s[5]) && s[6] == 46 && IsDigit(s[7])
  }

  /** METHOD SP TARGET SP HTTP/DIGIT.DIGIT, and nothing else. */
  function StartLineOf(line: bytes): Option<StartLine> {
    var sp1 := FindByte(line, SP, 0);
    if sp1 <= 0 then None
    else
      var sp2 := FindByte(line, SP, sp1 + 1);
      if sp2 == -1 || sp2 == sp1 + 1 || FindByte(line, SP, sp2 + 1) != -1 then None
      else
        var start := StartLine(line[..sp1], line[sp1 + 1..sp2], StripCr(line[sp2 + 1..]));
        if IsToken(start.method_) && IsTarget(start.target) && IsVersion(start.version) then Some(start) else None
  }

  function PathOf(target: bytes): bytes {
    var q := FindByte(target, 63, 0);
    var path := if q == -1 then target else target[..q];
    if |path| > 1 && path[|path| - 1] == SLASH then path[..|path| - 1] else path
  }

  function QueryOf(target: bytes): bytes {
    var q := FindByte(target, 63, 0);
    if q == -1 then [] else target[q + 1..]
  }

  const HOST: bytes := Ascii("Host")
  const HTTP_10: bytes := Ascii("HTTP/1.0")

  function HostCount(fs: seq<Field>): nat {
    if fs == [] then 0
    else HostCount(fs[..|fs| - 1]) + (if IEquals(fs[|fs| - 1].name, HOST) then 1 else 0)
  }

  /** One Host at most, and at least one unless the version is HTTP/1.0. */
  predicate HostRule(fs: seq<Field>, version: bytes) {
    HostCount(fs) == 1 || (HostCount(fs) == 0 && HTTP_10 <= version)
  }

  function BodyOf(raw: bytes, base: nat, scan: HeadScan): Option<bytes>
    requires base <= |raw|
  {
    if scan.hasContentLength && scan.contentLength > 0 then
      if |raw| - base < scan.contentLength then None else Some(raw[base..base + scan.contentLength])
    else if scan.chunked then
      match Chunked.Dechunk(raw[base..])
      case Complete(data, _) => Some(data)
      case _ => None
    else Some([])
  }

  /** Everything of a request but its body. */
  function HeadOf(head: bytes): Option<(StartLine, seq<Field>)> {
    match StartLineOf(RequestLine(head))
    case None => None
    case Some(start) =>
      match FieldsOf(HeaderLines(head))
      case None => None
      case Some(fs) => if HostRule(fs, start.version) then Some((start, fs)) else None
  }

  function RequestOf(raw: bytes): Option<Request> {
    var b := BoundsOf(raw);
    if b.end == -1 then None
    else
      var head := raw[..b.end];
      var scan := ScanOf(head);
      if HeadRefusal(head, b.separator) != None then None
      else
        match HeadOf(head)
        case None => None
        case Some((start, fs)) =>
          match BodyOf(raw, b.end + b.separator, scan)
          case None => None
          case Some(body) =>
            Some(Request(start, PathOf(start.target), QueryOf(start.target), fs, body,
                         if scan.chunked then |body| else scan.contentLength))
  }

  method CountHosts(headers: seq<Field>) returns (ok: bool, count: nat)
    ensures ok <==> HostCount(headers) <= 1
    ensures ok ==> count == HostCount(headers)
  {
    count := 0;
    for i := 0 to |headers|
      invariant count == HostCount(headers[..i]) <= 1
    {
      assert headers[..i + 1][..i] == headers[..i];
      if IEquals(headers[i].name, HOST) {
        count := count + 1;
        if count > 1 {
          HostCountGrows(headers, i + 1);
          return false, count;
        }
      }
    }
    assert headers[..|headers|] == headers;
    ok := true;
  }

  lemma {:induction false} HostCountGrows(fs: seq<Field>, i: nat)
    requires i <= |fs|
    ensures HostCount(fs[..i]) <= HostCount(fs)
    decreases |fs|
  {
    if i == |fs| {
      assert fs[..i] == fs;
    } else {
      assert fs[..|fs| - 1][..i] == fs[..i];
      HostCountGrows(fs[..|fs| - 1], i);
    }
  }

  method ParseHead(head: bytes) returns (r: Option<(StartLine, seq<Field>)>)
    ensures r == HeadOf(head)
  {
    hide StartLineOf, FieldsOf, HostCount, Lines;
    var lineEnd := FindByte(head, LF, 0);
    var line := StartLineOf(if lineEnd == -1 then head else head[..lineEnd]);
    if line == None { return None; }
    var start := line.value;
    var headers: seq<Field> := [];
    if lineEnd != -1 {
      var wellFormed;
      wellFormed, headers := BuildHeaders(head, lineEnd);
      if !wellFormed { return None; }
    } else {
      NoHeaderLines();
    }
    var single, hosts := CountHosts(headers);
    if !single { return None; }
    if hosts == 0 && !(HTTP_10 <= start.version) { return None; }
    return Some((start, headers));
  }

  method Parse(raw: bytes) returns (r: Option<Request>)
    ensures r == RequestOf(raw)
  {
    hide ScanOf, EndingsAccepted, HeadOf, PathOf, QueryOf, Chunked.Dechunk;
    var b := BoundsOf(raw);
    if b.end == -1 { return None; }
    var head := raw[..b.end];
    var scan := ScanHead(head);
    if scan.bad || scan.transferEncoding || scan.tooMany { return None; }
    var endings := LineEndingsOk(head, b.separator);
    if !endings { return None; }
    var parsed := ParseHead(head);
    if parsed == None { return None; }
    var (start, headers) := parsed.value;

    var base := b.end + b.separator;
    var body: bytes, length := [], scan.contentLength;
    if scan.hasContentLength && scan.contentLength > 0 {
      if |raw| - base < scan.contentLength { return None; }
      body := raw[base..base + scan.contentLength];
    } else if scan.chunked {
      var result := Chunked.ScanChunked(raw[base..]);
      if !result.Complete? { return None; }
      body := result.data;
      length := |body|;
    }
    ScanNeverBoth(head);
    return Some(Request(start, PathOf(start.target), QueryOf(start.target), headers, body, length));
  }

  lemma NoHeaderLines()
    ensures FieldsOf([]) == Some([])
  {
  }

  /** An accepted scan never holds both a length and a coding. */
  lemma ScanLineKeeps(line: bytes, scan: HeadScan, count: nat)
    ensures var r := ScanLine(line, scan, count).scan;
            && (!(scan.hasContentLength && (scan.chunked || scan.transferEncoding)) ==>
                  !(r.hasContentLength && (r.chunked || r.transferEncoding)))
            && ((!scan.hasContentLength ==> scan.contentLength == 0) ==> (!r.hasContentLength ==> r.contentLength == 0))
  {
    hide IEquals, Trim, SizeOf, FindByte, StripCr;
  }

  lemma {:induction false} ScanLinesNeverBoth(lines: seq<bytes>, scan: HeadScan, count: nat)
    requires !(scan.hasContentLength && (scan.chunked || scan.transferEncoding))
    ensures var r := ScanLines(lines, scan, count); !(r.hasContentLength && (r.chunked || r.transferEncoding))
    decreases |lines|
  {
    if lines != [] {
      var p := ScanLine(lines[0], scan, count);
      ScanLineKeeps(lines[0], scan, count);
      hide ScanLine;
      if !p.stop { ScanLinesNeverBoth(lines[1..], p.scan, p.count); }
    }
  }

  lemma ScanNeverBoth(head: bytes)
    ensures var r := ScanOf(head); !(r.hasContentLength && (r.chunked || r.transferEncoding))
  {
    hide ScanLine;
    var eol := FindByte(head, LF, 0);
    if eol != -1 { ScanLinesNeverBoth(Lines(head, eol + 1), NO_FIELDS, 0); }
  }

  // ---- inspection and parsing agree ----------------------------------------------------

  lemma {:induction false} ScanLinesLength(lines: seq<bytes>, scan: HeadScan, count: nat)
    requires !scan.hasContentLength ==> scan.contentLength == 0
    ensures var r := ScanLines(lines, scan, count); !r.hasContentLength ==> r.contentLength == 0
    decreases |lines|
  {
    if lines != [] {
      var p := ScanLine(lines[0], scan, count);
      ScanLineKeeps(lines[0], scan, count);
      hide ScanLine;
      if !p.stop { ScanLinesLength(lines[1..], p.scan, p.count); }
    }
  }

  lemma ScanLength(head: bytes)
    ensures !ScanOf(head).hasContentLength ==> ScanOf(head).contentLength == 0
  {
    hide ScanLine;
    var eol := FindByte(head, LF, 0);
    if eol != -1 { ScanLinesLength(Lines(head, eol + 1), NO_FIELDS, 0); }
  }

  /**
   * A buffer parses exactly when it inspects as Complete and its start line, its
   * field lines and its Host fields are in order.
   */
  lemma ParseExact(raw: bytes)
    requires |raw| < NPOS
    ensures RequestOf(raw).Some?
            <==> InspectionOf(raw).framing == Complete && HeadOf(raw[..BoundsOf(raw).end]).Some?
  {
    hide ScanOf, EndingsAccepted, PartialVerdict, Chunked.Dechunk, HeadOf;
    var b := BoundsOf(raw);
    if b.end != -1 {
      ScanNeverBoth(raw[..b.end]);
      ScanLength(raw[..b.end]);
    }
  }

  /** The body lies within the first `n` bytes. */
  lemma SameBody(raw: bytes, base: nat, n: nat, scan: HeadScan)
    requires base <= n <= |raw| && !(scan.hasContentLength && scan.chunked)
    requires scan.chunked ==> Chunked.Dechunk(raw[base..]).Complete?
    requires n == base + if scan.chunked then Chunked.Dechunk(raw[base..]).consumed else scan.contentLength
    ensures BodyOf(raw[..n], base, scan) == BodyOf(raw, base, scan)
  {
    hide Chunked.Dechunk;
    var s := raw[..n];
    assert s[base..] == raw[base..][..n - base];
    if scan.chunked {
      Chunked.CompleteStays(raw[base..], []);
    } else {
      assert s[base..n] == raw[base..n];
    }
  }

  /** Bytes of the next request never influence this one. */
  lemma ParseIgnoresRest(raw: bytes)
    requires InspectionOf(raw).framing == Complete && |raw| < NPOS
    ensures RequestOf(raw[..InspectionOf(raw).expected]) == RequestOf(raw)
  {
    hide ScanOf, EndingsAccepted, PartialVerdict, Chunked.Dechunk, HeadOf, HeadRefusal, BodyOf, BoundsOf;
    CompleteWithin(raw);
    var n := InspectionOf(raw).expected;
    assert raw[..n][..n] == raw[..n];
    SameHead(raw, raw[..n], n);
    var b := BoundsOf(raw);
    ScanNeverBoth(raw[..b.end]);
    SameBody(raw, b.end + b.separator, n, ScanOf(raw[..b.end]));
  }

  /** Section 6.3 of RFC 9112: `body`, starting at `base`, is framed as `fs` say. */
  predicate Framed(raw: bytes, base: nat, fs: seq<Field>, body: bytes)
    requires base <= |raw|
  {
    && (HasLength(fs) ==> LengthsAre(fs, |body|) && body <= raw[base..])
    && (HasCoding(fs) ==>
          && (forall i :: 0 <= i < |fs| && IsTransferEncoding(fs[i]) ==> IsChunked(fs[i]))
          && Chunked.Dechunk(raw[base..]).Complete? && Chunked.Dechunk(raw[base..]).data == body)
    && (!HasLength(fs) && !HasCoding(fs) ==> body == [])
  }

  lemma ScannedBodyIsFramed(raw: bytes, base: nat, scan: HeadScan, fs: seq<Field>, body: bytes)
    requires base <= |raw| && Reports(fs, scan) && !scan.transferEncoding
    requires !(scan.hasContentLength && scan.chunked)
    requires BodyOf(raw, base, scan) == Some(body)
    ensures Framed(raw, base, fs, body)
    ensures |body| == if scan.chunked then |body| else scan.contentLength
  {
    hide Chunked.Dechunk;
  }

  /**
   * Every parsed request has few fields, one agreed length or one chunked coding
   * and never both, and a body that is exactly the declared slice or the decoded
   * chunks.
   */
  lemma BodyIsFramed(raw: bytes)
    requires RequestOf(raw).Some?
    ensures var r := RequestOf(raw).value;
            var b := BoundsOf(raw);
            && |r.headers| <= MAX_HEADERS && Coherent(r.headers) && r.contentLength == |r.body|
            && Framed(raw, b.end + b.separator, r.headers, r.body)
  {
    hide ScanOf, EndingsAccepted, HeadOf, BodyOf, Coherent, HeaderLines, LinesShort, Reports, Framed;
    var b := BoundsOf(raw);
    var head := raw[..b.end];
    var r := RequestOf(raw).value;
    HeadFields(head);
    ScanExact(head, r.headers);
    ScanNeverBoth(head);
    ScannedBodyIsFramed(raw, b.end + b.separator, ScanOf(head), r.headers, r.body);
  }

  lemma HeadFields(head: bytes)
    requires HeadOf(head).Some?
    ensures FieldsOf(HeaderLines(head)) == Some(HeadOf(head).value.1)
  {
  }
}
