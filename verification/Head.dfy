/**
 * The request head: where it ends, which framing fields it carries and which
 * line endings it may use.
 */
module Head {
  import opened Bytes

  /** Cap on header fields. */
  const MAX_HEADERS: nat := 100
  /** Cap on one header line, the request line included. */
  const MAX_HEADER_LINE: nat := 65536

  const CRLFCRLF: bytes := [13, 10, 13, 10]
  const LFLF: bytes := [10, 10]

  // ---- the head terminator --------------------------------------------------

  /** `end` is -1 while the head has not fully arrived. */
  datatype Bounds = Bounds(end: int, separator: nat)

  predicate TerminatorAt(raw: bytes, i: int) {
    MatchesAt(raw, CRLFCRLF, i) || MatchesAt(raw, LFLF, i)
  }

  function BoundsOf(raw: bytes): (b: Bounds)
    ensures b.end == -1 ==> forall i :: !TerminatorAt(raw, i)
    ensures b.end != -1 ==> b.end >= 0 && TerminatorAt(raw, b.end) && (forall i :: i < b.end ==> !TerminatorAt(raw, i))
    ensures b.end != -1 ==> b.separator == (if raw[b.end] == CR then 4 else 2) && b.end + b.separator <= |raw|
  {
    var crlf := Find(raw, CRLFCRLF, 0);
    var lf := Find(raw, LFLF, 0);
    assert forall i :: i < 0 ==> !TerminatorAt(raw, i);
    TerminatorShapes(raw, crlf); TerminatorShapes(raw, lf);
    if crlf == -1 then (if lf == -1 then Bounds(-1, 0) else Bounds(lf, 2))
    else if lf == -1 then Bounds(crlf, 4)
    else if lf < crlf then Bounds(lf, 2) else Bounds(crlf, 4)
  }

  lemma TerminatorShapes(raw: bytes, i: int)
    ensures MatchesAt(raw, CRLFCRLF, i)
            <==> 0 <= i && i + 4 <= |raw| && raw[i] == CR && raw[i + 1] == LF && raw[i + 2] == CR && raw[i + 3] == LF
    ensures MatchesAt(raw, LFLF, i) <==> 0 <= i && i + 2 <= |raw| && raw[i] == LF && raw[i + 1] == LF
  {
    MatchesFour(raw, 13, 10, 13, 10, i);
    MatchesTwo(raw, 10, 10, i);
  }

  /** Whoever is the first terminator is what `BoundsOf` reports. */
  lemma BoundsAre(raw: bytes, end: nat, separator: nat)
    requires separator == 4 ==> MatchesAt(raw, CRLFCRLF, end)
    requires separator == 2 ==> MatchesAt(raw, LFLF, end)
    requires separator == 2 || separator == 4
    requires forall i :: 0 <= i < end ==> !TerminatorAt(raw, i)
    ensures BoundsOf(raw) == Bounds(end, separator)
  {
    TerminatorShapes(raw, end);
    assert TerminatorAt(raw, end);
    var b := BoundsOf(raw);
    assert b.end == end;
  }

  /** Bytes after the terminator cannot move it. */
  lemma BoundsAgree(s: bytes, t: bytes, n: nat)
    requires n <= |s| && n <= |t| && s[..n] == t[..n]
    requires BoundsOf(s).end != -1 && BoundsOf(s).end + BoundsOf(s).separator <= n
    ensures BoundsOf(t) == BoundsOf(s)
  {
    var b := BoundsOf(s);
    hide BoundsOf, Find;
    assert forall i :: 0 <= i < n ==> s[i] == s[..n][i] == t[..n][i] == t[i];
    hide MatchesAt;
    TerminatorShapes(s, b.end);
    TerminatorShapes(t, b.end);
    forall i | 0 <= i < b.end ensures !TerminatorAt(t, i) {
      assert !TerminatorAt(s, i);
      TerminatorShapes(s, i);
      TerminatorShapes(t, i);
    }
    BoundsAre(t, b.end, b.separator);
  }

  // ---- lines ----------------------------------------------------------------

  /** The LF-separated lines of `head` from `pos` on; a final empty line is not reported. */
  function Lines(head: bytes, pos: nat): seq<bytes>
    decreases |head| - pos
  {
    if pos >= |head| then []
    else
      var eol := FindByte(head, LF, pos);
      if eol == -1 then [head[pos..]] else [head[pos..eol]] + Lines(head, eol + 1)
  }

  lemma LinesStep(head: bytes, pos: nat)
    requires pos < |head|
    ensures var eol := FindByte(head, LF, pos);
            var line := if eol == -1 then head[pos..] else head[pos..eol];
            var next := if eol == -1 then |head| else eol + 1;
            Lines(head, pos) != [] && Lines(head, pos)[0] == line && Lines(head, pos)[1..] == Lines(head, next)
  {
  }

  /** Each line followed by its LF. */
  function Ended(lines: seq<bytes>): bytes {
    if lines == [] then [] else lines[0] + [LF] + Ended(lines[1..])
  }

  /** No line holds an LF. */
  predicate AreLfFree(lines: seq<bytes>) {
    forall i :: 0 <= i < |lines| ==> LF !in lines[i]
  }

  lemma EndedFirst(lines: seq<bytes>, tail: bytes)
    requires lines != []
    ensures Ended(lines) + tail == lines[0] + [LF] + (Ended(lines[1..]) + tail)
  {
  }

  /** Ended lines and a rest without LF are read back one by one, from wherever they start. */
  lemma {:induction false} LinesRead(s: bytes, pos: nat, lines: seq<bytes>, tail: bytes)
    requires pos <= |s| && s[pos..] == Ended(lines) + tail && AreLfFree(lines) && LF !in tail
    ensures Lines(s, pos) == lines + if tail == [] then [] else [tail]
    decreases |lines|
  {
    hide FindByte, Ended;
    if lines == [] {
      NoneEnded(tail);
      FindByteNone(s, LF, pos);
    } else {
      var line, rest := lines[0], Ended(lines[1..]) + tail;
      EndedFirst(lines, tail);
      FindByteFrom(s, pos, line, LF, rest);
      LinesRead(s, pos + |line| + 1, lines[1..], tail);
    }
  }

  lemma NoneEnded(tail: bytes)
    ensures Ended([]) + tail == tail
  {
  }

  /** Every text is ended lines and a rest without LF. */
  lemma {:induction false} SplitAtLf(s: bytes) returns (lines: seq<bytes>, tail: bytes)
    ensures AreLfFree(lines) && LF !in tail && s == Ended(lines) + tail
    decreases |s|
  {
    var eol := FindByte(s, LF, 0);
    if eol == -1 {
      lines, tail := [], s;
    } else {
      var more;
      more, tail := SplitAtLf(s[eol + 1..]);
      lines := [s[..eol]] + more;
      assert lines[1..] == more;
      assert s == s[..eol] + [LF] + s[eol + 1..];
    }
  }

  function StripCr(line: bytes): bytes {
    if line != [] && line[|line| - 1] == CR then line[..|line| - 1] else line
  }

  function HeaderLines(head: bytes): seq<bytes> {
    var eol := FindByte(head, LF, 0);
    if eol == -1 then [] else Lines(head, eol + 1)
  }

  // ---- framing scan -----------------------------------------------------------

  datatype HeadScan = HeadScan(
    contentLength: nat,
    hasContentLength: bool,
    bad: bool,
    transferEncoding: bool,
    chunked: bool,
    tooMany: bool)
  {
    predicate Stopped() { bad || tooMany }
  }

  const NO_FIELDS := HeadScan(0, false, false, false, false, false)

  /** One field line as `name: value`, both trimmed. */
  datatype Field = Field(name: bytes, value: bytes)

  const CONTENT_LENGTH: bytes := Ascii("content-length")
  const TRANSFER_ENCODING: bytes := Ascii("transfer-encoding")
  const CHUNKED: bytes := Ascii("chunked")

  predicate IsContentLength(f: Field) { IEquals(f.name, CONTENT_LENGTH) }
  predicate IsTransferEncoding(f: Field) { IEquals(f.name, TRANSFER_ENCODING) }
  predicate IsChunked(f: Field) { IEquals(Trim(f.value), CHUNKED) }

  function ScanField(scan: HeadScan, f: Field): HeadScan {
    if IsContentLength(f) then
      if scan.chunked || scan.transferEncoding then scan.(bad := true)
      else match SizeOf(f.value)
        case None => scan.(bad := true)
        case Some(n) =>
          if scan.hasContentLength && scan.contentLength != n then scan.(bad := true)
          else scan.(hasContentLength := true, contentLength := n)
    else if IsTransferEncoding(f) then
      if scan.hasContentLength || scan.chunked || scan.transferEncoding then scan.(bad := true)
      else if IsChunked(f) then scan.(chunked := true)
      else scan.(transferEncoding := true)
    else scan
  }

  predicate IsFold(line: bytes)
    requires line != []
  {
    line[0] == SP || line[0] == TAB
  }

  /** What one line does to the scan, and whether the scan ends there. */
  datatype Progress = Progress(scan: HeadScan, count: nat, stop: bool)

  function ScanLine(rawLine: bytes, scan: HeadScan, count: nat): Progress {
    var line := StripCr(rawLine);
    if |rawLine| > MAX_HEADER_LINE then Progress(scan.(bad := true), count, true)
    else if line == [] then Progress(scan, count, false)
    else if count + 1 > MAX_HEADERS then Progress(scan.(tooMany := true), count + 1, true)
    else if IsFold(line) then Progress(scan.(bad := true), count + 1, true)
    else
      var colon := FindByte(line, COLON, 0);
      if colon <= 0 then Progress(scan, count + 1, false)
      else
        var next := ScanField(scan, Field(Trim(line[..colon]), Trim(line[colon + 1..])));
        Progress(next, count + 1, next.bad)
  }

  /** Effect of the remaining lines; `count` fields were seen before. */
  function ScanLines(lines: seq<bytes>, scan: HeadScan, count: nat): HeadScan {
    if lines == [] then scan
    else
      var p := ScanLine(lines[0], scan, count);
      if p.stop then p.scan else ScanLines(lines[1..], p.scan, p.count)
  }

  function ScanOf(head: bytes): HeadScan {
    var eol := FindByte(head, LF, 0);
    if eol == -1 then NO_FIELDS
    else if eol > MAX_HEADER_LINE then NO_FIELDS.(bad := true)
    else ScanLines(Lines(head, eol + 1), NO_FIELDS, 0)
  }

  /** One turn of the scan's loop. */
  method ScanHeaderLine(rawLine: bytes, before: HeadScan, seen: nat) returns (scan: HeadScan, count: nat, stop: bool)
    ensures Progress(scan, count, stop) == ScanLine(rawLine, before, seen)
  {
    scan, count, stop := before, seen, true;
    var line := rawLine;
    if |line| > MAX_HEADER_LINE {
      scan := scan.(bad := true);
      return;
    }
    if line != [] && line[|line| - 1] == CR {
      line := line[..|line| - 1];
    }
    if line == [] {
      stop := false;
      return;
    }
    count := count + 1;
    if count > MAX_HEADERS {
      scan := scan.(tooMany := true);
      return;
    }
    if line[0] == SP || line[0] == TAB {
      scan := scan.(bad := true);
      return;
    }
    var colon := FindByte(line, COLON, 0);
    if colon != -1 && colon != 0 {
      scan := ScanField(scan, Field(Trim(line[..colon]), Trim(line[colon + 1..])));
      stop := scan.bad;
    } else {
      stop := false;
    }
  }

  /** The source's single pass over the header block. */
  method ScanHead(head: bytes) returns (scan: HeadScan)
    ensures scan == ScanOf(head)
  {
    hide ScanLine;
    scan := NO_FIELDS;
    var firstEol := FindByte(head, LF, 0);
    if firstEol == -1 { return; }
    if firstEol > MAX_HEADER_LINE {
      scan := scan.(bad := true);
      return;
    }
    var pos := firstEol + 1;
    var count := 0;
    while pos < |head|
      invariant 0 <= pos
      invariant ScanLines(Lines(head, pos), scan, count) == ScanOf(head)
      decreases |head| - pos
    {
      var eol := FindByte(head, LF, pos);
      var line := if eol == -1 then head[pos..] else head[pos..eol];
      LinesStep(head, pos);
      pos := if eol == -1 then |head| else eol + 1;
      var stop;
      scan, count, stop := ScanHeaderLine(line, scan, count);
      if stop {
        return;
      }
    }
  }

  // ---- what the scan accepts (section 6.3 of RFC 9112) --------------------------

  /** Every Content-Length denotes `n`. */
  predicate LengthsAre(fs: seq<Field>, n: nat) {
    forall i :: 0 <= i < |fs| && IsContentLength(fs[i]) ==> DenotesSize(fs[i].value, n)
  }

  predicate HasLength(fs: seq<Field>) {
    exists i :: 0 <= i < |fs| && IsContentLength(fs[i])
  }

  predicate HasCoding(fs: seq<Field>) {
    exists i :: 0 <= i < |fs| && IsTransferEncoding(fs[i])
  }

  /** One agreed length, or one transfer coding, or neither: never two answers. */
  ghost predicate Coherent(fs: seq<Field>) {
    && (HasLength(fs) ==> !HasCoding(fs) && exists n: nat :: LengthsAre(fs, n))
    && (forall i, j :: 0 <= i < j < |fs| && IsTransferEncoding(fs[i]) ==> !IsTransferEncoding(fs[j]))
  }

  /** The scan as a fold over already split fields. */
  function ScanFields(fs: seq<Field>): HeadScan {
    if fs == [] then NO_FIELDS
    else
      var before := ScanFields(fs[..|fs| - 1]);
      if before.Stopped() then before
      else if |fs| > MAX_HEADERS then before.(tooMany := true)
      else ScanField(before, fs[|fs| - 1])
  }

  /** What the scan reports about an accepted field list. */
  predicate Reports(fs: seq<Field>, scan: HeadScan) {
    && (scan.hasContentLength <==> HasLength(fs))
    && (scan.hasContentLength ==> LengthsAre(fs, scan.contentLength))
    && (scan.chunked || scan.transferEncoding <==> HasCoding(fs))
    && !(scan.chunked && scan.transferEncoding)
    && (forall i :: 0 <= i < |fs| && IsTransferEncoding(fs[i]) ==> (scan.chunked <==> IsChunked(fs[i])))
    && (!scan.hasContentLength ==> scan.contentLength == 0)
  }

  lemma NamesDiffer(f: Field)
    ensures !(IsContentLength(f) && IsTransferEncoding(f))
  {
    assert |CONTENT_LENGTH| == 14 && |TRANSFER_ENCODING| == 17;
  }

  /** The scan goes through exactly when there are few enough fields and they are coherent. */
  lemma {:induction false} ScanFieldsExact(fs: seq<Field>)
    ensures !ScanFields(fs).Stopped() <==> |fs| <= MAX_HEADERS && Coherent(fs)
    ensures !ScanFields(fs).Stopped() ==> Reports(fs, ScanFields(fs))
  {
    if fs != [] {
      var init, f := fs[..|fs| - 1], fs[|fs| - 1];
      assert fs == init + [f];
      ScanFieldsExact(init);
      if Coherent(fs) { CoherentSnoc(init, f); }
      if !ScanFields(init).Stopped() && |fs| <= MAX_HEADERS {
        ScanFieldExact(init, f, ScanFields(init));
      }
    }
  }

  lemma CoherentSnoc(init: seq<Field>, f: Field)
    requires Coherent(init + [f])
    ensures Coherent(init)
  {
    var fs := init + [f];
    assert forall i :: 0 <= i < |init| ==> fs[i] == init[i];
    if HasLength(init) {
      var i :| 0 <= i < |init| && IsContentLength(init[i]);
      assert IsContentLength(fs[i]);
      var n: nat :| LengthsAre(fs, n);
      assert LengthsAre(init, n);
    }
    if HasCoding(init) {
      var i :| 0 <= i < |init| && IsTransferEncoding(init[i]);
      assert IsTransferEncoding(fs[i]);
    }
  }

  lemma ScanFieldExact(init: seq<Field>, f: Field, before: HeadScan)
    requires Coherent(init) && Reports(init, before) && !before.Stopped()
    ensures !ScanField(before, f).bad <==> Coherent(init + [f])
    ensures !ScanField(before, f).bad ==> Reports(init + [f], ScanField(before, f))
    ensures !ScanField(before, f).tooMany
  {
    var fs := init + [f];
    var k := |init|;
    NamesDiffer(f);
    assert fs[k] == f;
    assert forall i :: 0 <= i < k ==> fs[i] == init[i];
    assert HasLength(fs) <==> HasLength(init) || IsContentLength(f);
    assert HasCoding(fs) <==> HasCoding(init) || IsTransferEncoding(f);
    if IsContentLength(f) {
      assert HasLength(fs);
      match SizeOf(f.value)
      case None =>
      case Some(n) => {
        forall m: nat | LengthsAre(fs, m) ensures m == n && (before.hasContentLength ==> before.contentLength == n) {
          assert DenotesSize(fs[k].value, m);
          if before.hasContentLength {
            var i :| 0 <= i < k && IsContentLength(init[i]);
            assert DenotesSize(fs[i].value, m);
          }
        }
        if !ScanField(before, f).bad { assert LengthsAre(fs, n); }
      }
    } else {
      assert forall n: nat :: LengthsAre(fs, n) <==> LengthsAre(init, n);
      if IsTransferEncoding(f) && HasCoding(init) {
        var i :| 0 <= i < k && IsTransferEncoding(init[i]);
        assert IsTransferEncoding(fs[i]) && IsTransferEncoding(fs[k]);
      }
      if before.hasContentLength { assert LengthsAre(fs, before.contentLength); }
    }
  }

  // ---- header block of a message ------------------------------------------------

  /** RFC 9110 tchar. */
  predicate IsTokenByte(c: byte) {
    || IsDigit(c) || 65 <= c <= 90 || 97 <= c <= 122
    || c in [33, 35, 36, 37, 38, 39, 42, 43, 45, 46, 94, 95, 96, 124, 126]
  }

  predicate IsToken(s: bytes) {
    s != [] && forall i :: 0 <= i < |s| ==> IsTokenByte(s[i])
  }

  /** The field a non-empty line (CR stripped) holds, if it is well formed. */
  function FieldOf(line: bytes): Option<Field>
    requires line != []
  {
    var colon := FindByte(line, COLON, 0);
    if IsFold(line) || colon <= 0 then None
    else
      var name := Trim(line[..colon]);
      if IsToken(name) then Some(Field(name, Trim(line[colon + 1..]))) else None
  }

  /** The fields of a header block; None when some line is malformed. */
  function FieldsOf(lines: seq<bytes>): Option<seq<Field>> {
    if lines == [] then Some([])
    else
      var line := StripCr(lines[0]);
      if line == [] then FieldsOf(lines[1..])
      else
        match FieldOf(line)
        case None => None
        case Some(f) => Prepended([f], FieldsOf(lines[1..]))
  }

  function Prepended(fs: seq<Field>, rest: Option<seq<Field>>): Option<seq<Field>> {
    match rest
    case None => None
    case Some(more) => Some(fs + more)
  }

  lemma PrependedTwice(fs: seq<Field>, f: Field, rest: Option<seq<Field>>)
    ensures Prepended([], rest) == rest
    ensures Prepended(fs, Prepended([f], rest)) == Prepended(fs + [f], rest)
  {
    if rest.Some? {
      assert [] + rest.value == rest.value;
      assert fs + ([f] + rest.value) == (fs + [f]) + rest.value;
    }
  }

  /** One line moves from what is left to what has been built. */
  lemma BuildStep(headers: seq<Field>, lines: seq<bytes>, all: Option<seq<Field>>)
    requires lines != [] && Prepended(headers, FieldsOf(lines)) == all
    ensures var line := StripCr(lines[0]);
            if line == [] then Prepended(headers, FieldsOf(lines[1..])) == all
            else if FieldOf(line).None? then all == None
            else Prepended(headers + [FieldOf(line).value], FieldsOf(lines[1..])) == all
  {
    hide FieldOf, StripCr;
    var line := StripCr(lines[0]);
    if line != [] && FieldOf(line).Some? { PrependedTwice(headers, FieldOf(line).value, FieldsOf(lines[1..])); }
  }

  lemma BuildEnds(headers: seq<Field>, head: bytes, pos: nat)
    requires pos >= |head|
    ensures Prepended(headers, FieldsOf(Lines(head, pos))) == Some(headers)
  {
    assert headers + [] == headers;
  }

  /** The source's header-building loop; `ok` is false where it gives up. */
  method BuildHeaders(head: bytes, firstEol: nat) returns (ok: bool, headers: seq<Field>)
    ensures FieldsOf(Lines(head, firstEol + 1)) == if ok then Some(headers) else None
  {
    hide FieldOf, FieldsOf, Lines, Prepended, FindByte;
    headers := [];
    var pos := firstEol + 1;
    ghost var all := FieldsOf(Lines(head, pos));
    PrependedTwice([], Field([], []), all);
    while pos < |head|
      invariant 0 <= pos
      invariant Prepended(headers, FieldsOf(Lines(head, pos))) == all
      decreases |head| - pos
    {
      var eol := FindByte(head, LF, pos);
      var line := if eol == -1 then head[pos..] else head[pos..eol];
      LinesStep(head, pos);
      BuildStep(headers, Lines(head, pos), all);
      pos := if eol == -1 then |head| else eol + 1;
      if line != [] && line[|line| - 1] == CR {
        line := line[..|line| - 1];
      }
      if line == [] {
        continue;
      }
      match FieldOf(line) {
        case None => return false, [];
        case Some(f) => headers := headers + [f];
      }
    }
    ok := true;
    BuildEnds(headers, head, pos);
  }

  predicate LinesShort(lines: seq<bytes>) {
    forall i :: 0 <= i < |lines| ==> |lines[i]| <= MAX_HEADER_LINE
  }

  lemma {:induction false} StoppedStays(before: seq<Field>, fs: seq<Field>)
    requires ScanFields(before).Stopped()
    ensures ScanFields(before + fs) == ScanFields(before)
  {
    if fs == [] {
      assert before + fs == before;
    } else {
      var init := fs[..|fs| - 1];
      StoppedStays(before, init);
      assert (before + fs)[..|before + fs| - 1] == before + init;
    }
  }

  /** The framing scan and the header-building loop read the same fields off the same lines. */
  lemma {:induction false} ScanSeesFields(lines: seq<bytes>, before: seq<Field>, fs: seq<Field>)
    requires FieldsOf(lines) == Some(fs)
    requires !ScanFields(before).Stopped()
    ensures LinesShort(lines) ==> ScanLines(lines, ScanFields(before), |before|) == ScanFields(before + fs)
    ensures !LinesShort(lines) ==> ScanLines(lines, ScanFields(before), |before|).Stopped()
    decreases |lines|
  {
    hide ScanField, FieldOf, ScanLine;
    if lines == [] {
      assert before + fs == before;
    } else {
      var line := StripCr(lines[0]);
      assert LinesShort(lines) <==> |lines[0]| <= MAX_HEADER_LINE && LinesShort(lines[1..]) by {
        assert forall i :: 1 <= i < |lines| ==> lines[i] == lines[1..][i - 1];
      }
      if |lines[0]| > MAX_HEADER_LINE {
        LineTooLong(lines[0], ScanFields(before), |before|);
      } else if line == [] {
        LineBlank(lines[0], ScanFields(before), |before|);
        ScanSeesFields(lines[1..], before, fs);
      } else {
        var f := FieldOf(line).value;
        var next := before + [f];
        assert next[..|next| - 1] == before;
        assert fs == [f] + fs[1..];
        assert before + fs == next + fs[1..];
        LineScansField(lines[0], f, ScanFields(before), |before|);
        if ScanFields(next).Stopped() {
          StoppedStays(next, fs[1..]);
        } else {
          ScanSeesFields(lines[1..], next, fs[1..]);
        }
      }
    }
  }

  lemma LineTooLong(rawLine: bytes, scan: HeadScan, count: nat)
    requires |rawLine| > MAX_HEADER_LINE
    ensures var p := ScanLine(rawLine, scan, count); p.stop && p.scan.Stopped()
  {
  }

  lemma LineBlank(rawLine: bytes, scan: HeadScan, count: nat)
    requires |rawLine| <= MAX_HEADER_LINE && StripCr(rawLine) == []
    ensures ScanLine(rawLine, scan, count) == Progress(scan, count, false)
  {
  }

  lemma LineScansField(rawLine: bytes, f: Field, scan: HeadScan, count: nat)
    requires |rawLine| <= MAX_HEADER_LINE && StripCr(rawLine) != [] && FieldOf(StripCr(rawLine)) == Some(f)
    requires !scan.Stopped()
    ensures var next := if count + 1 > MAX_HEADERS then scan.(tooMany := true) else ScanField(scan, f);
            ScanLine(rawLine, scan, count) == Progress(next, count + 1, next.Stopped())
  {
  }

  /**
   * For a well-formed header block the framing scan succeeds exactly when every
   * line is short enough, there are at most MAX_HEADERS fields and the framing
   * fields are coherent; it then reports what they say.
   */
  lemma ScanExact(head: bytes, fs: seq<Field>)
    requires FieldsOf(HeaderLines(head)) == Some(fs)
    ensures var eol := FindByte(head, LF, 0);
            !ScanOf(head).Stopped()
            <==> eol <= MAX_HEADER_LINE && LinesShort(HeaderLines(head)) && |fs| <= MAX_HEADERS && Coherent(fs)
    ensures !ScanOf(head).Stopped() ==> Reports(fs, ScanOf(head))
  {
    hide ScanField;
    var lines := HeaderLines(head);
    if FindByte(head, LF, 0) == -1 {
      assert fs == [];
    } else {
      ScanSeesFields(lines, [], fs);
      assert [] + fs == fs;
    }
    ScanFieldsExact(fs);
  }

  // ---- line endings (section 2.2 of RFC 9112) ------------------------------------

  const HTTP_SLASH: bytes := Ascii("HTTP/")

  /** True for request lines declaring HTTP/1.1 or newer. */
  predicate VersionAtLeast11(requestLine: bytes) {
    var v := StripCr(requestLine);
    var h := Find(v, HTTP_SLASH, 0);
    && h != -1
    && |v| - h == 8
    && IsDigit(v[h + 5]) && v[h + 6] == 46 && IsDigit(v[h + 7])
    && v[h + 5] >= 49
    && (v[h + 5] > 49 || v[h + 7] >= 49)
  }

  /** Every LF-terminated, non-empty line from `pos` on ends in CR. */
  predicate LinesEndInCr(head: bytes, pos: nat)
    decreases |head| - pos
  {
    pos < |head| ==>
      var eol := FindByte(head, LF, pos);
      eol != -1 ==> (eol == pos || head[eol - 1] == CR) && LinesEndInCr(head, eol + 1)
  }

  function RequestLine(head: bytes): bytes {
    var eol := FindByte(head, LF, 0);
    if eol == -1 then head else head[..eol]
  }

  predicate EndingsAccepted(head: bytes, separator: nat) {
    var eol := FindByte(head, LF, 0);
    var requestLine := RequestLine(head);
    !VersionAtLeast11(requestLine) ||
    (&& separator == 4
     && requestLine != []
     && requestLine[|requestLine| - 1] == CR
     && (eol == -1 || LinesEndInCr(head, eol + 1)))
  }

  method LineEndingsOk(head: bytes, separator: nat) returns (ok: bool)
    ensures ok <==> EndingsAccepted(head, separator)
  {
    hide VersionAtLeast11;
    var eol0 := FindByte(head, LF, 0);
    var requestLine := if eol0 == -1 then head else head[..eol0];
    if !VersionAtLeast11(requestLine) { return true; }
    if separator != 4 { return false; }
    if requestLine == [] || requestLine[|requestLine| - 1] != CR { return false; }
    if eol0 == -1 { return true; }
    var pos := eol0 + 1;
    while pos < |head|
      invariant 0 <= pos
      invariant LinesEndInCr(head, eol0 + 1) <==> LinesEndInCr(head, pos)
      decreases |head| - pos
    {
      var eol := FindByte(head, LF, pos);
      var line := if eol == -1 then head[pos..] else head[pos..eol];
      if eol != -1 && line != [] && line[|line| - 1] != CR { return false; }
      if eol == -1 { break; }
      pos := eol + 1;
    }
    return true;
  }

  lemma {:induction false} NoBareLf(head: bytes, pos: nat, i: nat)
    requires LinesEndInCr(head, pos) && pos <= i < |head| && head[i] == LF
    requires forall j :: 0 <= j && j + 1 < |head| ==> !(head[j] == LF && head[j + 1] == LF)
    requires pos > 0 && head[pos - 1] == LF
    ensures i > 0 && head[i - 1] == CR
    decreases |head| - pos
  {
    var eol := FindByte(head, LF, pos);
    if eol < i {
      NoBareLf(head, eol + 1, i);
    } else {
      assert eol == i;
    }
  }

  /** In an accepted HTTP/1.1 head every LF follows a CR, the terminator included. */
  lemma NoBareLfInHead(raw: bytes, i: nat)
    requires var b := BoundsOf(raw);
             && b.end != -1 && EndingsAccepted(raw[..b.end], b.separator)
             && VersionAtLeast11(RequestLine(raw[..b.end])) && i < b.end + b.separator && raw[i] == LF
    ensures i > 0 && raw[i - 1] == CR
  {
    hide VersionAtLeast11;
    var b := BoundsOf(raw);
    var head := raw[..b.end];
    TerminatorShapes(raw, b.end);
    if i < b.end {
      var eol := FindByte(head, LF, 0);
      assert head[i] == LF;
      forall j | 0 <= j && j + 1 < |head| ensures !(head[j] == LF && head[j + 1] == LF) {
        assert !TerminatorAt(raw, j);
        TerminatorShapes(raw, j);
      }
      if i > eol {
        NoBareLf(head, eol + 1, i);
      }
    }
  }

  lemma {:induction false} LinesEndWell(head: bytes, pos: nat)
    requires forall i :: pos <= i < |head| && head[i] == LF ==> i > 0 && head[i - 1] == CR
    ensures LinesEndInCr(head, pos)
    decreases |head| - pos
  {
    if pos < |head| {
      var eol := FindByte(head, LF, pos);
      if eol != -1 { LinesEndWell(head, eol + 1); }
    }
  }

  /** Every LF of the head and its terminator follows a CR. */
  predicate NoBareLfBefore(raw: bytes, n: nat)
    requires n <= |raw|
  {
    forall i :: 0 <= i < n && raw[i] == LF ==> i > 0 && raw[i - 1] == CR
  }

  /**
   * An HTTP/1.1 head is accepted exactly when every LF follows a CR, the terminator's included, and it has
   * header lines or a CR of its own at its end: no reader that splits on CRLF can see other lines than the server did.
   */
  lemma EndingsExact(raw: bytes)
    requires BoundsOf(raw).end != -1 && VersionAtLeast11(RequestLine(raw[..BoundsOf(raw).end]))
    ensures var b := BoundsOf(raw);
            var head := raw[..b.end];
            EndingsAccepted(head, b.separator)
            <==> NoBareLfBefore(raw, b.end + b.separator) && (LF in head || (head != [] && head[|head| - 1] == CR))
  {
    var b := BoundsOf(raw);
    var head := raw[..b.end];
    hide VersionAtLeast11, BoundsOf, LinesEndInCr;
    if EndingsAccepted(head, b.separator) {
      forall i | 0 <= i < b.end + b.separator && raw[i] == LF ensures i > 0 && raw[i - 1] == CR {
        NoBareLfInHead(raw, i);
      }
    }
    TerminatorShapes(raw, b.end);
    var eol := FindByte(head, LF, 0);
    if NoBareLfBefore(raw, b.end + b.separator) && eol != -1 {
      assert raw[eol] == LF;
      LinesEndWell(head, eol + 1);
    }
  }

  /** Without header lines the request line is the whole head: an HTTP/1.1 one is accepted only with a CR of its own. */
  lemma HeaderlessEndings(head: bytes)
    requires LF !in head
    ensures EndingsAccepted(head, 4) <==> !VersionAtLeast11(head) || (head != [] && head[|head| - 1] == CR)
  {
    hide VersionAtLeast11;
    assert FindByte(head, LF, 0) == -1;
  }
}
