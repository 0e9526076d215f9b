/** Which verdict every complete head gets, said without the scan: on its lines, its fields and the bytes behind it. */
module Framing {
  import opened Bytes
  import opened Head
  import opened Message
  import Chunked

  // ---- what the scan makes of any header block ------------------------------------------

  predicate IsBlankLine(line: bytes) { StripCr(line) == [] }

  /** The lines that are not empty, without their CR. */
  function Filled(lines: seq<bytes>): (r: seq<bytes>)
    ensures forall i :: 0 <= i < |r| ==> r[i] != []
  {
    if lines == [] then []
    else
      var line := lines[|lines| - 1];
      Filled(lines[..|lines| - 1]) + if IsBlankLine(line) then [] else [StripCr(line)]
  }

  predicate NoFolds(lines: seq<bytes>) {
    forall i :: 0 <= i < |Filled(lines)| ==> !IsFold(Filled(lines)[i])
  }

  /** The well-formed fields among the lines; a line that holds none is passed over. */
  function FieldsAmong(lines: seq<bytes>): seq<Field> {
    if lines == [] then []
    else
      var line := lines[|lines| - 1];
      FieldsAmong(lines[..|lines| - 1]) + if IsBlankLine(line) then [] else Held(StripCr(line))
  }

  function Held(line: bytes): seq<Field>
    requires line != []
  {
    match FieldOf(line)
    case None => []
    case Some(f) => [f]
  }

  /** Short lines, at most a hundred of them filled, none folded, and coherent framing fields. */
  ghost predicate Orderly(lines: seq<bytes>) {
    && LinesShort(lines) && |Filled(lines)| <= 100 && NoFolds(lines) && Coherent(FieldsAmong(lines))
  }

  /** Nothing is wrong with the lines before the hundred and first filled one, which is short itself. */
  ghost predicate OneTooMany(lines: seq<bytes>) {
    exists i :: 0 <= i < |lines| && EndsTheHundred(lines, i)
  }

  ghost predicate EndsTheHundred(lines: seq<bytes>, i: int)
    requires 0 <= i < |lines|
  {
    Orderly(lines[..i]) && |Filled(lines[..i])| == 100 && |lines[i]| <= MAX_HEADER_LINE && !IsBlankLine(lines[i])
  }

  /** The scan's state once it has been through `lines`. */
  function ScanAfter(lines: seq<bytes>): Progress {
    if lines == [] then Progress(NO_FIELDS, 0, false)
    else
      var p := ScanAfter(lines[..|lines| - 1]);
      if p.stop then p else ScanLine(lines[|lines| - 1], p.scan, p.count)
  }

  lemma {:induction false} StoppedScan(before: seq<bytes>, lines: seq<bytes>)
    requires ScanAfter(before).stop
    ensures ScanAfter(before + lines) == ScanAfter(before)
  {
    hide ScanLine;
    if lines == [] {
      assert before + lines == before;
    } else {
      var init := lines[..|lines| - 1];
      StoppedScan(before, init);
      assert (before + lines)[..|before + lines| - 1] == before + init;
    }
  }

  lemma {:induction false} ScanContinues(before: seq<bytes>, lines: seq<bytes>)
    requires !ScanAfter(before).stop
    ensures ScanLines(lines, ScanAfter(before).scan, ScanAfter(before).count) == ScanAfter(before + lines).scan
    decreases |lines|
  {
    hide ScanLine;
    if lines == [] {
      assert before + lines == before;
    } else {
      var next := before + [lines[0]];
      assert next[..|next| - 1] == before;
      assert before + lines == next + lines[1..];
      if ScanAfter(next).stop { StoppedScan(next, lines[1..]); } else { ScanContinues(next, lines[1..]); }
    }
  }

  /** A line that is no field and no fold is counted and frames nothing. */
  lemma LineHoldsNothing(rawLine: bytes, scan: HeadScan, count: nat)
    requires |rawLine| <= MAX_HEADER_LINE && !IsBlankLine(rawLine) && count < MAX_HEADERS
    requires !IsFold(StripCr(rawLine)) && FieldOf(StripCr(rawLine)) == None
    ensures ScanLine(rawLine, scan, count) == Progress(scan, count + 1, scan.bad) || scan.bad
  {
    var line := StripCr(rawLine);
    var colon := FindByte(line, COLON, 0);
    if colon > 0 {
      var f := Field(Trim(line[..colon]), Trim(line[colon + 1..]));
      NoTokenNoFraming(f);
      hide IsContentLength, IsTransferEncoding, Trim, StripCr, FindByte;
      assert ScanField(scan, f) == scan;
    }
  }

  lemma NoTokenNoFraming(f: Field)
    requires !IsToken(f.name)
    ensures !IsContentLength(f) && !IsTransferEncoding(f)
  {
    FramingNamesAreTokens();
    if IEquals(f.name, CONTENT_LENGTH) { LikeAToken(f.name, CONTENT_LENGTH); }
    if IEquals(f.name, TRANSFER_ENCODING) { LikeAToken(f.name, TRANSFER_ENCODING); }
  }

  lemma LikeAToken(name: bytes, lower: bytes)
    requires IEquals(name, lower) && lower != []
    requires forall i :: 0 <= i < |lower| ==> lower[i] == DASH || 97 <= lower[i] <= 122
    ensures IsToken(name)
  {
    forall i | 0 <= i < |name| ensures IsTokenByte(name[i]) {
      assert AsciiLower(name[i]) == AsciiLower(lower[i]);
    }
  }

  lemma FramingNamesAreTokens()
    ensures forall i :: 0 <= i < |CONTENT_LENGTH| ==> CONTENT_LENGTH[i] == DASH || 97 <= CONTENT_LENGTH[i] <= 122
    ensures forall i :: 0 <= i < |TRANSFER_ENCODING| ==>
              TRANSFER_ENCODING[i] == DASH || 97 <= TRANSFER_ENCODING[i] <= 122
  {
    var a, b := "content-length", "transfer-encoding";
    assert forall i :: 0 <= i < |a| ==> a[i] == '-' || 'a' <= a[i] <= 'z';
    assert forall i :: 0 <= i < |b| ==> b[i] == '-' || 'a' <= b[i] <= 'z';
  }

  /** The two framing fields and the one coding, in any case. */
  lemma FramingNamesExact(f: Field)
    ensures IsContentLength(f) <==> IEquals(f.name, Ascii("Content-Length"))
    ensures IsTransferEncoding(f) <==> IEquals(f.name, Ascii("Transfer-Encoding"))
    ensures IsChunked(f) <==> IEquals(Trim(f.value), Ascii("Chunked"))
  {
    SameLetters("content-length", "Content-Length", f.name);
    SameLetters("transfer-encoding", "Transfer-Encoding", f.name);
    SameLetters("chunked", "Chunked", Trim(f.value));
  }

  lemma LineStops(rawLine: bytes, scan: HeadScan, count: nat)
    requires !scan.Stopped()
    requires !IsBlankLine(rawLine) || |rawLine| > MAX_HEADER_LINE
    ensures var p := ScanLine(rawLine, scan, count);
            && (|rawLine| > MAX_HEADER_LINE ==> p.stop && p.scan.bad && !p.scan.tooMany)
            && (|rawLine| <= MAX_HEADER_LINE && count >= MAX_HEADERS ==> p.stop && p.scan.tooMany && !p.scan.bad)
            && (|rawLine| <= MAX_HEADER_LINE && count < MAX_HEADERS && IsFold(StripCr(rawLine)) ==>
                  p.stop && p.scan.bad && !p.scan.tooMany)
  {
    hide ScanField;
  }

  /** One more line: everything that decides whether it is still in order. */
  lemma OrderlySnoc(init: seq<bytes>, line: bytes)
    ensures var lines := init + [line];
            Orderly(lines) <==>
              && Orderly(init) && |line| <= MAX_HEADER_LINE
              && (!IsBlankLine(line) ==>
                    && |Filled(init)| < 100 && !IsFold(StripCr(line))
                    && Coherent(FieldsAmong(init) + Held(StripCr(line))))
  {
    hide Coherent, IsFold, FieldOf, StripCr, NoFolds;
    var lines := init + [line];
    SnocOf(init, line);
    NoFoldsSnoc(init, line);
    assert LinesShort(lines) <==> LinesShort(init) && |line| <= MAX_HEADER_LINE by {
      assert forall i :: 0 <= i < |init| ==> lines[i] == init[i];
    }
    if !IsBlankLine(line) {
      var s := StripCr(line);
      assert Filled(lines) == Filled(init) + [s];
      if Held(s) == [] {
        assert FieldsAmong(lines) == FieldsAmong(init);
      } else if Coherent(FieldsAmong(lines)) {
        CoherentSnoc(FieldsAmong(init), FieldOf(s).value);
      }
    } else {
      assert Filled(lines) == Filled(init) && FieldsAmong(lines) == FieldsAmong(init);
    }
  }

  lemma SnocOf(init: seq<bytes>, line: bytes)
    ensures var lines := init + [line];
            && lines[..|lines| - 1] == init && lines[|lines| - 1] == line
            && Filled(lines) == Filled(init) + (if IsBlankLine(line) then [] else [StripCr(line)])
            && FieldsAmong(lines) == FieldsAmong(init) + (if IsBlankLine(line) then [] else Held(StripCr(line)))
            && ScanAfter(lines) ==
               (if ScanAfter(init).stop then ScanAfter(init)
                else ScanLine(line, ScanAfter(init).scan, ScanAfter(init).count))
  {
    var lines := init + [line];
    assert lines[..|lines| - 1] == init;
    hide ScanLine, Held, StripCr;
  }

  lemma OneTooManySnoc(init: seq<bytes>, line: bytes)
    ensures OneTooMany(init + [line]) <==>
              || OneTooMany(init)
              || (Orderly(init) && |Filled(init)| == 100 && |line| <= MAX_HEADER_LINE && !IsBlankLine(line))
  {
    hide Orderly, Filled, IsBlankLine;
    var lines := init + [line];
    assert lines[..|init|] == init && lines[|init|] == line;
    forall i | 0 <= i < |init| ensures EndsTheHundred(lines, i) <==> EndsTheHundred(init, i) {
      assert lines[..i] == init[..i] && lines[i] == init[i];
    }
    if OneTooMany(lines) {
      var i :| 0 <= i < |lines| && EndsTheHundred(lines, i);
      assert i < |init| ==> EndsTheHundred(init, i);
    }
    if OneTooMany(init) {
      var i :| 0 <= i < |init| && EndsTheHundred(init, i);
      assert EndsTheHundred(lines, i);
    }
    assert EndsTheHundred(lines, |init|) <==>
             Orderly(init) && |Filled(init)| == 100 && |line| <= MAX_HEADER_LINE && !IsBlankLine(line);
  }

  /** What the scan knows after lines that are in order. */
  predicate UpTo(lines: seq<bytes>, p: Progress) {
    !p.stop && p.count == |Filled(lines)| && !p.scan.Stopped() && Reports(FieldsAmong(lines), p.scan)
  }

  lemma OrderlyStep(init: seq<bytes>, line: bytes)
    requires Orderly(init) && UpTo(init, ScanAfter(init))
    ensures var p := ScanAfter(init + [line]);
            if Orderly(init + [line]) then UpTo(init + [line], p)
            else p.stop && p.scan.Stopped() && !(p.scan.bad && p.scan.tooMany)
                 && (p.scan.tooMany <==>
                       |Filled(init)| == 100 && |line| <= MAX_HEADER_LINE && !IsBlankLine(line))
  {
    hide Reports, Coherent, FieldOf, IsFold, StripCr, ScanLine, ScanField;
    OrderlySnoc(init, line);
    SnocOf(init, line);
    var p := ScanAfter(init);
    var fs := FieldsAmong(init);
    hide Filled, FieldsAmong, ScanAfter;
    if |line| > MAX_HEADER_LINE || (!IsBlankLine(line) && (p.count >= MAX_HEADERS || IsFold(StripCr(line)))) {
      LineStops(line, p.scan, p.count);
    } else if IsBlankLine(line) {
      LineBlank(line, p.scan, p.count);
      assert fs + [] == fs && Filled(init) + [] == Filled(init);
    } else if FieldOf(StripCr(line)) == None {
      LineHoldsNothing(line, p.scan, p.count);
      assert fs + [] == fs;
    } else {
      var f := FieldOf(StripCr(line)).value;
      LineScansField(line, f, p.scan, p.count);
      ScanFieldExact(fs, f, p.scan);
    }
  }

  /** The scan goes through exactly the lines in order, and calls the others bad or too many as the first offence is. */
  lemma {:induction false} ScanAfterExact(lines: seq<bytes>)
    ensures Orderly(lines) ==> UpTo(lines, ScanAfter(lines))
    ensures !Orderly(lines) ==>
              var p := ScanAfter(lines); p.stop && p.scan.Stopped() && !(p.scan.bad && p.scan.tooMany)
    ensures ScanAfter(lines).scan.tooMany <==> OneTooMany(lines)
  {
    if lines != [] {
      var init, line := lines[..|lines| - 1], lines[|lines| - 1];
      assert lines == init + [line];
      ScanAfterExact(init);
      OrderlySnoc(init, line);
      OneTooManySnoc(init, line);
      SnocOf(init, line);
      hide Orderly, UpTo, OneTooMany, ScanLine, Filled, FieldsAmong, Held;
      if Orderly(init) { OrderlyStep(init, line); NotStopped(init); }
    }
  }

  lemma NotStopped(lines: seq<bytes>)
    requires UpTo(lines, ScanAfter(lines))
    ensures !ScanAfter(lines).stop && !ScanAfter(lines).scan.tooMany
  {
  }

  // ---- the verdict on a head that has arrived ---------------------------------------------------

  /** The request line, unless nothing follows it, and the field lines are in order. */
  ghost predicate HeadInOrder(head: bytes) {
    (LF in head ==> |RequestLine(head)| <= 65536) && Orderly(HeaderLines(head))
  }

  ghost predicate TooManyFields(head: bytes) {
    (LF in head ==> |RequestLine(head)| <= 65536) && OneTooMany(HeaderLines(head))
  }

  /** The line endings an HTTP/1.1 head has to have. */
  predicate EndingsInOrder(raw: bytes)
    requires BoundsOf(raw).end != -1
  {
    var b := BoundsOf(raw);
    var head := raw[..b.end];
    VersionAtLeast11(RequestLine(head)) ==>
      NoBareLfBefore(raw, b.end + b.separator) && (LF in head || (head != [] && head[|head| - 1] == CR))
  }

  lemma EndingsAgree(raw: bytes)
    requires BoundsOf(raw).end != -1
    ensures var b := BoundsOf(raw); EndingsAccepted(raw[..b.end], b.separator) <==> EndingsInOrder(raw)
  {
    hide VersionAtLeast11, LinesEndInCr, BoundsOf, NoBareLfBefore;
    if VersionAtLeast11(RequestLine(raw[..BoundsOf(raw).end])) { EndingsExact(raw); }
  }

  /** What the scan of a whole head says. */
  lemma HeadScanned(head: bytes)
    ensures HeadInOrder(head) <==> !ScanOf(head).Stopped()
    ensures HeadInOrder(head) ==> Reports(FieldsAmong(HeaderLines(head)), ScanOf(head))
    ensures ScanOf(head).tooMany <==> TooManyFields(head)
  {
    hide Orderly, OneTooMany, Reports, ScanLines, Lines, FieldsAmong;
    var lines := HeaderLines(head);
    NothingScanned();
    ScanContinues([], lines);
    assert [] + lines == lines;
    ScanAfterExact(lines);
  }

  lemma NothingScanned()
    ensures ScanAfter([]) == Progress(NO_FIELDS, 0, false) && Orderly([]) && FieldsAmong([]) == [] && !OneTooMany([])
    ensures Reports([], NO_FIELDS)
  {
  }

  /** Why a head is turned away, and which: nothing else is. */
  lemma RefusedHeads(raw: bytes)
    requires BoundsOf(raw).end != -1
    ensures var head := raw[..BoundsOf(raw).end];
            var fs := FieldsAmong(HeaderLines(head));
            && (TooManyFields(head) ==> InspectionOf(raw) == Inspection(TooManyHeaders, 0))
            && (!TooManyFields(head) && !HeadInOrder(head) ==> InspectionOf(raw) == Inspection(BadRequest, 0))
            && (HeadInOrder(head) && Unchunked(fs) ==> InspectionOf(raw) == Inspection(NotImplemented, 0))
            && (HeadInOrder(head) && !Unchunked(fs) && !EndingsInOrder(raw) ==>
                  InspectionOf(raw) == Inspection(BadRequest, 0))
  {
    var b := BoundsOf(raw);
    var head := raw[..b.end];
    HeadScanned(head);
    EndingsAgree(raw);
    hide HeadInOrder, TooManyFields, EndingsInOrder, EndingsAccepted, ScanOf, FieldsAmong, HeaderLines, BoundsOf,
      BodyInspection;
    if HeadInOrder(head) { CodingReported(FieldsAmong(HeaderLines(head)), ScanOf(head)); }
  }

  /** A transfer coding other than chunked. */
  predicate Unchunked(fs: seq<Field>) {
    exists i :: 0 <= i < |fs| && IsTransferEncoding(fs[i]) && !IsChunked(fs[i])
  }

  lemma CodingReported(fs: seq<Field>, scan: HeadScan)
    requires Reports(fs, scan)
    ensures scan.transferEncoding <==> Unchunked(fs)
    ensures scan.chunked <==> HasCoding(fs) && !Unchunked(fs)
  {
    hide IsTransferEncoding, IsChunked, LengthsAre, HasLength;
  }

  /** A head that is not turned away. */
  ghost predicate HeadTaken(raw: bytes)
    requires BoundsOf(raw).end != -1
  {
    var head := raw[..BoundsOf(raw).end];
    HeadInOrder(head) && !Unchunked(FieldsAmong(HeaderLines(head))) && EndingsInOrder(raw)
  }

  function FramingFields(raw: bytes): seq<Field>
    requires BoundsOf(raw).end != -1
  {
    FieldsAmong(HeaderLines(raw[..BoundsOf(raw).end]))
  }

  lemma TakenHead(raw: bytes)
    requires BoundsOf(raw).end != -1 && HeadTaken(raw)
    ensures var b := BoundsOf(raw);
            var scan := ScanOf(raw[..b.end]);
            && InspectionOf(raw) == BodyInspection(raw, b.end + b.separator, scan)
            && (scan.chunked <==> HasCoding(FramingFields(raw)))
            && (scan.hasContentLength <==> HasLength(FramingFields(raw)))
            && (scan.hasContentLength ==> LengthsAre(FramingFields(raw), scan.contentLength))
            && (!scan.hasContentLength ==> scan.contentLength == 0)
            && Coherent(FramingFields(raw))
  {
    var b := BoundsOf(raw);
    var head := raw[..b.end];
    HeadScanned(head);
    EndingsAgree(raw);
    CodingReported(FramingFields(raw), ScanOf(head));
    hide TooManyFields, EndingsInOrder, EndingsAccepted, ScanOf, FieldsAmong, HeaderLines, BoundsOf, BodyInspection,
      Coherent;
  }

  /** With a length: the request ends that many bytes behind its head, and is complete once they are there. */
  lemma FramedByLength(raw: bytes, n: nat)
    requires BoundsOf(raw).end != -1 && HeadTaken(raw)
    requires HasLength(FramingFields(raw)) && LengthsAre(FramingFields(raw), n)
    ensures var b := BoundsOf(raw);
            var total := b.end + b.separator + n;
            && InspectionOf(raw).expected == (if total <= NPOS then total else NPOS)
            && (InspectionOf(raw).framing == Complete <==> |raw| >= InspectionOf(raw).expected)
            && (InspectionOf(raw).framing == Incomplete <==> |raw| < InspectionOf(raw).expected)
  {
    TakenHead(raw);
    hide HeadTaken, InspectionOf, BoundsOf, FramingFields, ScanOf;
    var fs := FramingFields(raw);
    var scan := ScanOf(raw[..BoundsOf(raw).end]);
    var i :| 0 <= i < |fs| && IsContentLength(fs[i]);
    assert DenotesSize(fs[i].value, n) && DenotesSize(fs[i].value, scan.contentLength);
  }

  /**
   * With the chunked coding: the request ends where the coding does, it is malformed when whole chunks are followed
   * by what can be no chunk, and otherwise more bytes are awaited.
   */
  lemma FramedByChunks(raw: bytes, n: nat)
    requires BoundsOf(raw).end != -1 && HeadTaken(raw) && HasCoding(FramingFields(raw))
    ensures var base := BoundsOf(raw).end + BoundsOf(raw).separator;
            && (InspectionOf(raw) == Inspection(Complete, base + n) <==> CodingAt(raw[base..], n))
            && (InspectionOf(raw) == Inspection(BadRequest, 0) <==> OffenceAfterChunks(raw[base..]))
            && (InspectionOf(raw).framing in {Complete, BadRequest} || InspectionOf(raw) == Inspection(Incomplete, 0))
  {
    TakenHead(raw);
    hide HeadTaken, InspectionOf, BoundsOf, FramingFields, ScanOf, Chunked.Dechunk, CodingAt, OffenceAfterChunks;
    var b := BoundsOf(raw);
    var body := raw[b.end + b.separator..];
    CodingFound(body, n);
    OffenceFound(body);
  }

  /** A coding of `n` bytes stands at the front. */
  ghost predicate CodingAt(s: bytes, n: nat) {
    exists m :: Chunked.IsCoding(m) && |Chunked.Encode(m)| == n && Chunked.Encode(m) <= s
  }

  ghost predicate OffenceAfterChunks(s: bytes) {
    exists chunks, line, rest ::
      && Chunked.AreChunks(chunks) && Chunked.IsOffence(line, rest)
      && s == Chunked.EncodeChunks(chunks) + (line + CRLF + rest)
  }

  lemma CodingFound(s: bytes, n: nat)
    ensures CodingAt(s, n) <==> Chunked.Dechunk(s).Complete? && Chunked.Dechunk(s).consumed == n
  {
    hide Chunked.Dechunk, Chunked.Encode, Chunked.IsCoding;
    forall m | Chunked.IsCoding(m) && |Chunked.Encode(m)| == n && Chunked.Encode(m) <= s
      ensures Chunked.Dechunk(s) == Chunked.Complete(Chunked.Payload(m.chunks), n)
    {
      Chunked.CodingExact(s, Chunked.Payload(m.chunks), n);
    }
    if Chunked.Dechunk(s).Complete? {
      Chunked.CodingExact(s, Chunked.Dechunk(s).data, Chunked.Dechunk(s).consumed);
    }
  }

  lemma OffenceFound(s: bytes)
    ensures OffenceAfterChunks(s) <==> Chunked.Dechunk(s) == Chunked.Malformed
  {
    hide Chunked.Dechunk, Chunked.EncodeChunks, Chunked.AreChunks, Chunked.IsOffence;
    Chunked.MalformedExact(s);
  }

  /** With neither: the request ends with its head. */
  lemma FramedByNothing(raw: bytes)
    requires BoundsOf(raw).end != -1 && HeadTaken(raw)
    requires !HasLength(FramingFields(raw)) && !HasCoding(FramingFields(raw)) && |raw| <= NPOS
    ensures InspectionOf(raw) == Inspection(Complete, BoundsOf(raw).end + BoundsOf(raw).separator)
  {
    TakenHead(raw);
    hide HeadTaken, InspectionOf, BoundsOf, FramingFields, ScanOf;
  }

  /** Which verdict a buffer with a whole head gets, when not one of the two about missing or present bytes. */
  lemma VerdictExact(raw: bytes)
    requires BoundsOf(raw).end != -1 && |raw| <= NPOS
    ensures var head := raw[..BoundsOf(raw).end];
            var base := BoundsOf(raw).end + BoundsOf(raw).separator;
            && (InspectionOf(raw).framing == TooManyHeaders <==> TooManyFields(head))
            && (InspectionOf(raw).framing == NotImplemented <==> HeadInOrder(head) && Unchunked(FramingFields(raw)))
            && (InspectionOf(raw).framing == BadRequest <==>
                  || (!HeadInOrder(head) && !TooManyFields(head))
                  || (HeadInOrder(head) && !Unchunked(FramingFields(raw)) && !EndingsInOrder(raw))
                  || (HeadTaken(raw) && HasCoding(FramingFields(raw)) && OffenceAfterChunks(raw[base..])))
  {
    RefusedHeads(raw);
    NotBoth(raw[..BoundsOf(raw).end]);
    if HeadTaken(raw) {
      var fs := FramingFields(raw);
      TakenHead(raw);
      if HasCoding(fs) { FramedByChunks(raw, 0); }
      else if HasLength(fs) { FramedByLength(raw, ScanOf(raw[..BoundsOf(raw).end]).contentLength); }
      else { FramedByNothing(raw); }
    }
    hide InspectionOf, BoundsOf, HeadInOrder, TooManyFields, EndingsInOrder, Unchunked, OffenceAfterChunks, HasCoding,
      HasLength, FieldsAmong, HeaderLines, ScanOf, CodingAt, BodyInspection, Coherent;
  }

  lemma NotBoth(head: bytes)
    ensures !(HeadInOrder(head) && TooManyFields(head))
  {
    HeadScanned(head);
    hide HeadInOrder, TooManyFields, ScanOf, HeaderLines, FieldsAmong, Reports;
  }

  // ---- a head that is still arriving ----------------------------------------------------------------

  /** The lines ended so far, at most `left` of them, and the one still open. */
  function ArrivingVerdict(lines: seq<bytes>, tail: bytes, left: nat): Framing {
    if |lines| > left && LinesShort(lines[..left]) then TooManyHeaders
    else if |lines| <= left && LinesShort(lines + [tail]) then Incomplete
    else BadRequest
  }

  lemma {:induction false} PartialRead(s: bytes, pos: nat, lines: seq<bytes>, tail: bytes, seen: nat)
    requires pos <= |s| && s[pos..] == Ended(lines) + tail && AreLfFree(lines) && LF !in tail && seen <= 101
    ensures PartialVerdict(s, pos, seen) == ArrivingVerdict(lines, tail, 101 - seen)
    decreases |lines|
  {
    hide FindByte, Ended, ArrivingVerdict;
    if lines == [] {
      NoneEnded(tail);
      FindByteNone(s, LF, pos);
      ArrivingLast(tail, 101 - seen);
    } else {
      var line, rest := lines[0], Ended(lines[1..]) + tail;
      EndedFirst(lines, tail);
      FindByteFrom(s, pos, line, LF, rest);
      if seen < 101 {
        PartialRead(s, pos + |line| + 1, lines[1..], tail, seen + 1);
        ArrivingStep(lines, tail, 101 - seen);
      } else {
        ArrivingEnd(lines, tail);
      }
    }
  }

  lemma ArrivingLast(tail: bytes, left: nat)
    ensures ArrivingVerdict([], tail, left) == if |tail| > MAX_HEADER_LINE then BadRequest else Incomplete
  {
    assert [] + [tail] == [tail] && [tail][0] == tail;
  }

  lemma ArrivingEnd(lines: seq<bytes>, tail: bytes)
    requires lines != []
    ensures ArrivingVerdict(lines, tail, 0) == TooManyHeaders
  {
  }

  lemma ArrivingStep(lines: seq<bytes>, tail: bytes, left: nat)
    requires lines != [] && left > 0
    ensures ArrivingVerdict(lines, tail, left) ==
            if |lines[0]| > MAX_HEADER_LINE then BadRequest else ArrivingVerdict(lines[1..], tail, left - 1)
  {
    if |lines| > left {
      var all, more := lines[..left], lines[1..][..left - 1];
      assert all[0] == lines[0];
      assert forall i :: 1 <= i < |all| ==> all[i] == more[i - 1];
      assert forall i :: 0 <= i < |more| ==> more[i] == all[i + 1];
    } else {
      var all, more := lines + [tail], lines[1..] + [tail];
      assert all[0] == lines[0];
      assert forall i :: 1 <= i < |all| ==> all[i] == more[i - 1];
      assert forall i :: 0 <= i < |more| ==> more[i] == all[i + 1];
    }
  }

  /**
   * Until the head is whole it is refused as soon as, and only if, a line is too long or, with no such line among
   * the first 101, a further one has ended.
   */
  lemma PartialExact(lines: seq<bytes>, tail: bytes)
    requires AreLfFree(lines) && LF !in tail && BoundsOf(Ended(lines) + tail).end == -1
    ensures InspectionOf(Ended(lines) + tail) ==
            Inspection(
              if |lines| >= 102 && LinesShort(lines[..101]) then TooManyHeaders
              else if |lines| <= 101 && LinesShort(lines + [tail]) then Incomplete
              else BadRequest, 0)
  {
    hide PartialVerdict, BoundsOf, LinesShort, Ended;
    PartialRead(Ended(lines) + tail, 0, lines, tail, 0);
  }

  // ---- heads whose every line is a field ----------------------------------------------------------

  lemma {:induction false} FieldsOfSnoc(init: seq<bytes>, line: bytes)
    ensures FieldsOf(init + [line]) ==
            if FieldsOf(init).None? then None
            else if IsBlankLine(line) then FieldsOf(init)
            else if FieldOf(StripCr(line)).None? then None
            else Some(FieldsOf(init).value + [FieldOf(StripCr(line)).value])
    decreases |init|
  {
    hide FieldOf;
    var lines := init + [line];
    if init == [] {
      assert lines[1..] == [] && FieldsOf([]) == Some([]);
      if !IsBlankLine(line) && FieldOf(StripCr(line)).Some? {
        var f := FieldOf(StripCr(line)).value;
        assert [f] + [] == [] + [f];
      }
    } else {
      assert lines[0] == init[0] && lines[1..] == init[1..] + [line];
      FieldsOfSnoc(init[1..], line);
      if !IsBlankLine(line) && !IsBlankLine(init[0]) && FieldsOf(init).Some? && FieldOf(StripCr(line)).Some? {
        var more, last := FieldsOf(init[1..]).value, FieldOf(StripCr(line)).value;
        assert [FieldOf(StripCr(init[0])).value] + (more + [last]) == FieldsOf(init).value + [last];
      }
    }
  }

  predicate AllFields(lines: seq<bytes>)
    requires FieldsOf(lines).Some?
  {
    FieldsAmong(lines) == FieldsOf(lines).value && |Filled(lines)| == |FieldsOf(lines).value| && NoFolds(lines)
  }

  lemma AllFieldsSnoc(init: seq<bytes>, line: bytes)
    requires FieldsOf(init + [line]).Some?
    requires FieldsOf(init).Some? ==> AllFields(init)
    ensures AllFields(init + [line])
  {
    FieldsOfSnoc(init, line);
    SnocOf(init, line);
    NoFoldsSnoc(init, line);
    BlankOrNot(line);
    if IsBlankLine(line) { NothingAdded(Filled(init)); NothingAdded(FieldsAmong(init)); }
    else { FieldIsNoFold(StripCr(line)); }
    hide FieldsOf, FieldsAmong, Filled, NoFolds, ScanAfter, FieldOf, IsFold, StripCr, Held;
  }

  lemma NoLinesNoFields()
    ensures FieldsOf([]).Some? && AllFields([])
  {
  }

  /** In a well-formed block the fields among the lines are all there is. */
  lemma {:induction false} AllAreFields(lines: seq<bytes>)
    requires FieldsOf(lines).Some?
    ensures AllFields(lines)
  {
    hide *;
    if lines == [] {
      NoLinesNoFields();
    } else {
      var init, line := lines[..|lines| - 1], lines[|lines| - 1];
      assert lines == init + [line];
      FieldsOfSnoc(init, line);
      if FieldsOf(init).Some? { AllAreFields(init); }
      AllFieldsSnoc(init, line);
    }
  }

  lemma NothingAdded<T>(a: seq<T>)
    ensures a + [] == a
  {
  }

  lemma BlankOrNot(line: bytes)
    ensures IsBlankLine(line) <==> StripCr(line) == []
  {
  }

  lemma NoFoldsSnoc(init: seq<bytes>, line: bytes)
    ensures NoFolds(init + [line]) <==> NoFolds(init) && (!IsBlankLine(line) ==> !IsFold(StripCr(line)))
  {
    hide IsFold, StripCr;
    SnocOf(init, line);
    var all := Filled(init + [line]);
    assert forall i :: 0 <= i < |Filled(init)| ==> all[i] == Filled(init)[i];
    if !IsBlankLine(line) { assert all[|Filled(init)|] == StripCr(line); }
  }

  lemma FieldIsNoFold(line: bytes)
    requires line != [] && FieldOf(line).Some?
    ensures !IsFold(line) && Held(line) == [FieldOf(line).value]
  {
  }

  /** When a head of well-formed fields is taken: limits, coherence, no other coding, and its line endings. */
  lemma TakenExactly(raw: bytes, fs: seq<Field>)
    requires BoundsOf(raw).end != -1
    requires FieldsOf(HeaderLines(raw[..BoundsOf(raw).end])) == Some(fs)
    ensures FramingFields(raw) == fs
    ensures var head := raw[..BoundsOf(raw).end];
            HeadTaken(raw) <==>
              && (LF in head ==> |RequestLine(head)| <= 65536) && LinesShort(HeaderLines(head)) && |fs| <= 100
              && Coherent(fs) && !Unchunked(fs) && EndingsInOrder(raw)
  {
    AllAreFields(HeaderLines(raw[..BoundsOf(raw).end]));
    hide BoundsOf, FieldsOf, FieldsAmong, Filled, NoFolds, HeaderLines, Coherent, EndingsInOrder, Unchunked, LinesShort;
  }
}
