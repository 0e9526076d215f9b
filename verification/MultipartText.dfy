/** What a multipart body means, piece by piece: for any preamble, line ends, header lines and parameters. */
module MultipartText {
  import opened Bytes
  import opened Multipart

  // ---- parameters --------------------------------------------------------------------------------

  function Semicolons(segments: seq<bytes>): bytes
    requires segments != []
  {
    if |segments| == 1 then segments[0] else segments[0] + [SEMICOLON] + Semicolons(segments[1..])
  }

  predicate NoSemicolons(segments: seq<bytes>) {
    forall i :: 0 <= i < |segments| ==> SEMICOLON !in segments[i]
  }

  /** The key, `="`, the value up to the next quote, and anything. */
  function Param(key: bytes, value: bytes, rest: bytes): bytes {
    key + [EQUALS, QUOTE] + (value + [QUOTE] + rest)
  }

  /** The segment is `key="...` between blanks, whether or not the quote is closed. */
  predicate Opens(segment: bytes, key: bytes) { IsParam(Trim(segment), key) }

  function Given(segment: bytes, key: bytes): bytes
    requires Opens(segment, key)
  {
    Quoted(Trim(segment), key)
  }

  lemma SegmentFirst(segments: seq<bytes>, key: bytes)
    requires segments != [] && NoSemicolons(segments)
    ensures ParamOf(Semicolons(segments), key) ==
            if Opens(segments[0], key) then Given(segments[0], key)
            else if |segments| == 1 then [] else ParamOf(Semicolons(segments[1..]), key)
  {
    hide Trim, IsParam, Quoted, ParamOf;
    var d := Semicolons(segments);
    ParamUnfold(d, key);
    if |segments| == 1 {
      FindByteFirst(d, SEMICOLON, []);
    } else {
      var rest := Semicolons(segments[1..]);
      FindByteFirst(segments[0], SEMICOLON, rest);
      assert d[..|segments[0]|] == segments[0] && d[|segments[0]| + 1..] == rest;
    }
  }

  /** The first segment that opens the parameter decides, wherever it stands; without one there is no value. */
  lemma {:induction false} ParamExact(segments: seq<bytes>, key: bytes)
    requires segments != [] && NoSemicolons(segments)
    ensures forall i :: 0 <= i < |segments| && Opens(segments[i], key)
                        && (forall j :: 0 <= j < i ==> !Opens(segments[j], key)) ==>
              ParamOf(Semicolons(segments), key) == Given(segments[i], key)
    ensures (forall i :: 0 <= i < |segments| ==> !Opens(segments[i], key)) ==> ParamOf(Semicolons(segments), key) == []
    decreases |segments|
  {
    hide Opens, Given, ParamOf, Semicolons;
    SegmentFirst(segments, key);
    if !Opens(segments[0], key) && |segments| > 1 {
      var rest := segments[1..];
      assert NoSemicolons(rest);
      ParamExact(rest, key);
      assert forall i :: 0 <= i < |rest| ==> rest[i] == segments[i + 1];
      forall i | 0 <= i < |segments| && Opens(segments[i], key) && (forall j :: 0 <= j < i ==> !Opens(segments[j], key))
        ensures ParamOf(Semicolons(segments), key) == Given(segments[i], key)
      {
        assert rest[i - 1] == segments[i];
        assert forall j :: 0 <= j < i - 1 ==> !Opens(rest[j], key);
      }
    }
  }

  lemma ParamIs(key: bytes, value: bytes, rest: bytes)
    requires QUOTE !in value
    ensures IsParam(Param(key, value, rest), key) && Quoted(Param(key, value, rest), key) == value
  {
    var p := Param(key, value, rest);
    assert p[..|key|] == key && p[|key| + 2..] == value + [QUOTE] + rest;
    FindByteFrom(p, |key| + 2, value, QUOTE, rest);
  }

  lemma ParamEnds(key: bytes, value: bytes, rest: bytes, after: bytes)
    requires key != [] && !IsBlank(key[0]) && (rest != [] ==> !IsBlank(rest[|rest| - 1]))
    ensures IsTrimmed(Param(key, value, rest)) && Param(key, value, rest + after) == Param(key, value, rest) + after
  {
    var p := Param(key, value, rest);
    assert p[0] == key[0] && p[|p| - 1] == if rest == [] then QUOTE else rest[|rest| - 1];
  }

  /** A closed parameter has the value between its quotes, whatever stands behind it. */
  lemma ParamIsRead(before: bytes, key: bytes, value: bytes, rest: bytes)
    requires AllBlank(before) && key != [] && !IsBlank(key[0]) && QUOTE !in value
    ensures var segment := before + Param(key, value, rest); Opens(segment, key) && Given(segment, key) == value
  {
    var after := TrimRightParts(rest);
    var kept := TrimRight(rest);
    hide TrimRight, Trim, AllBlank, Param, IsParam, Quoted;
    ParamEnds(key, value, kept, after);
    TrimReads(before, Param(key, value, kept), after);
    assert before + (Param(key, value, kept) + after) == before + Param(key, value, kept) + after;
    ParamIs(key, value, kept);
  }

  // ---- header lines -------------------------------------------------------------------------------

  function CrlfLines(lines: seq<bytes>): bytes
    requires lines != []
  {
    if |lines| == 1 then lines[0] else lines[0] + CRLF + CrlfLines(lines[1..])
  }

  predicate AreLines(lines: seq<bytes>) {
    forall i :: 0 <= i < |lines| ==> lines[i] != [] && CR !in lines[i]
  }

  /** The line's name, up to case; a line without a colon has none. */
  predicate Named(line: bytes, key: bytes) {
    COLON in line && IEquals(Trim(line[..FindByte(line, COLON, 0)]), key)
  }

  function ValueIn(line: bytes): bytes
    requires COLON in line
  {
    Trim(line[FindByte(line, COLON, 0) + 1..])
  }

  /** Line `i` is the last of that name. */
  predicate LastAt(lines: seq<bytes>, key: bytes, i: int) {
    0 <= i < |lines| && Named(lines[i], key) && forall j :: i < j < |lines| ==> !Named(lines[j], key)
  }

  predicate NoneNamed(lines: seq<bytes>, key: bytes) {
    forall i :: 0 <= i < |lines| ==> !Named(lines[i], key)
  }

  /** However a line is spelled, its name and value are what stands around its first colon, less the blanks. */
  lemma LineReads(name: bytes, gap: bytes, before: bytes, value: bytes, after: bytes, key: bytes)
    requires IsTrimmed(name) && COLON !in name && IsTrimmed(value)
    requires AllBlank(gap) && AllBlank(before) && AllBlank(after)
    ensures var line := name + gap + [COLON] + (before + value + after);
            COLON in line && (Named(line, key) <==> IEquals(name, key)) && ValueIn(line) == value
  {
    var line := name + gap + [COLON] + (before + value + after);
    assert line[|name + gap|] == COLON;
    FindByteFirst(name + gap, COLON, before + value + after);
    assert line[..|name + gap|] == name + gap && line[|name + gap| + 1..] == before + value + after;
    assert [] + name + gap == name + gap;
    TrimReads([], name, gap);
    TrimReads(before, value, after);
    hide Trim, IEquals, FindByte;
  }

  /** The two headers that count, in any case. */
  lemma HeaderNamesExact(line: bytes)
    ensures Named(line, CONTENT_DISPOSITION) <==> Named(line, Ascii("content-disposition"))
    ensures Named(line, CONTENT_TYPE) <==> Named(line, Ascii("content-type"))
  {
    hide Trim, FindByte;
    if COLON in line {
      var name := Trim(line[..FindByte(line, COLON, 0)]);
      SameLetters("content-disposition", "Content-Disposition", name);
      SameLetters("content-type", "Content-Type", name);
    }
  }

  lemma LineEffect(head: PartHead, line: bytes)
    ensures HeadLine(head, line) ==
            if Named(line, CONTENT_DISPOSITION) then head.(disposition := ValueIn(line))
            else if Named(line, CONTENT_TYPE) then head.(mime := ValueIn(line))
            else head
  {
    hide Trim, IEquals;
  }

  lemma NotBothNames(line: bytes)
    ensures !(Named(line, CONTENT_DISPOSITION) && Named(line, CONTENT_TYPE))
  {
    assert |CONTENT_DISPOSITION| == 19 && |CONTENT_TYPE| == 12;
  }

  lemma LinesFirst(head: PartHead, lines: seq<bytes>)
    requires lines != [] && AreLines(lines)
    ensures HeadLines(head, CrlfLines(lines)) ==
            if |lines| == 1 then HeadLine(head, lines[0])
            else HeadLines(HeadLine(head, lines[0]), CrlfLines(lines[1..]))
  {
    hide HeadLine, Find;
    var text := CrlfLines(lines);
    var rest := if |lines| == 1 then [] else CrlfLines(lines[1..]);
    NoCrlfWithoutCr(lines[0], rest);
    assert |lines| > 1 ==> text[..|lines[0]|] == lines[0] && text[|lines[0]| + 2..] == rest;
  }

  /** `after` is the value of the last line of that name, or `before` without one. */
  ghost predicate Wins(lines: seq<bytes>, key: bytes, before: bytes, after: bytes) {
    && (forall i :: LastAt(lines, key, i) ==> after == ValueIn(lines[i]))
    && (NoneNamed(lines, key) ==> after == before)
  }

  ghost predicate LastWins(head: PartHead, lines: seq<bytes>, after: PartHead) {
    && Wins(lines, CONTENT_DISPOSITION, head.disposition, after.disposition)
    && Wins(lines, CONTENT_TYPE, head.mime, after.mime)
  }

  lemma LastAtRest(lines: seq<bytes>, key: bytes)
    requires lines != []
    ensures forall i :: LastAt(lines, key, i) ==>
              if i == 0 then Named(lines[0], key) && NoneNamed(lines[1..], key) else LastAt(lines[1..], key, i - 1)
    ensures NoneNamed(lines, key) ==> !Named(lines[0], key) && NoneNamed(lines[1..], key)
    ensures NoneNamed(lines[1..], key) || exists i :: LastAt(lines[1..], key, i)
  {
    hide Named;
    var rest := lines[1..];
    assert forall i :: 0 <= i < |rest| ==> rest[i] == lines[i + 1];
    SomeLast(rest, key);
  }

  lemma {:induction false} SomeLast(lines: seq<bytes>, key: bytes)
    ensures NoneNamed(lines, key) || exists i :: LastAt(lines, key, i)
    decreases |lines|
  {
    hide Named;
    if lines != [] {
      var init, n := lines[..|lines| - 1], |lines| - 1;
      if Named(lines[n], key) {
        assert LastAt(lines, key, n);
      } else {
        SomeLast(init, key);
        if i :| LastAt(init, key, i) { assert LastAt(lines, key, i); }
      }
    }
  }

  lemma WinsFirst(lines: seq<bytes>, key: bytes, before: bytes, after: bytes)
    requires lines != []
    requires Wins(lines[1..], key, if Named(lines[0], key) then ValueIn(lines[0]) else before, after)
    ensures Wins(lines, key, before, after)
  {
    hide Named, ValueIn;
    LastAtRest(lines, key);
    assert forall i :: 0 <= i < |lines| - 1 ==> lines[1..][i] == lines[i + 1];
  }

  lemma WinsStep(head: PartHead, lines: seq<bytes>, after: PartHead)
    requires lines != [] && LastWins(HeadLine(head, lines[0]), lines[1..], after)
    ensures LastWins(head, lines, after)
  {
    hide HeadLine, Named, ValueIn, Wins;
    LineEffect(head, lines[0]);
    NotBothNames(lines[0]);
    WinsFirst(lines, CONTENT_DISPOSITION, head.disposition, after.disposition);
    WinsFirst(lines, CONTENT_TYPE, head.mime, after.mime);
  }

  /** Of each of the two headers the last line counts, wherever it stands; other lines do not. */
  lemma {:induction false} HeadersExact(head: PartHead, lines: seq<bytes>)
    requires lines != [] && AreLines(lines)
    ensures LastWins(head, lines, HeadLines(head, CrlfLines(lines)))
    decreases |lines|
  {
    hide HeadLine, HeadLines, LastWins, CrlfLines;
    LinesFirst(head, lines);
    var next := HeadLine(head, lines[0]);
    if |lines| == 1 {
      NoLinesLeft(next);
    } else {
      HeadersExact(next, lines[1..]);
    }
    assert |lines| == 1 ==> lines[1..] == [];
    WinsStep(head, lines, HeadLines(head, CrlfLines(lines)));
  }

  lemma NoLinesLeft(head: PartHead)
    ensures LastWins(head, [], head)
  {
  }

  // ---- one part -------------------------------------------------------------------------------------

  lemma {:induction false} LinesHaveNoBlank(lines: seq<bytes>)
    requires lines != [] && AreLines(lines)
    ensures var h := CrlfLines(lines);
            h != [] && h[0] != CR && forall i :: 0 <= i < |h| && h[i] == CR ==> i + 2 < |h| && h[i + 2] != CR
    decreases |lines|
  {
    if |lines| > 1 {
      var first, rest := lines[0], CrlfLines(lines[1..]);
      LinesHaveNoBlank(lines[1..]);
      var h := first + CRLF + rest;
      assert forall i :: 0 <= i < |first| ==> h[i] == first[i];
      assert forall i :: |first| + 2 <= i < |h| ==> h[i] == rest[i - |first| - 2];
    }
  }

  /**
   * A part is dropped without a name, a file when its file name survives, and a field otherwise; its content is all
   * that stands behind the first blank line.
   */
  lemma PartExact(lines: seq<bytes>, content: bytes)
    requires lines != [] && AreLines(lines)
    ensures var head := HeadLines(PartHead([], []), CrlfLines(lines));
            var name := ParamOf(head.disposition, Ascii("name"));
            var filename := Sanitized(ParamOf(head.disposition, Ascii("filename")));
            var mime := if head.mime == [] then Ascii("application/octet-stream") else head.mime;
            && PartOf(CrlfLines(lines) + CRLFCRLF + content) ==
               (if name == [] then []
                else if filename == [] then [Field(name, content)]
                else [File(name, filename, mime, content)])
            && PartOf(CrlfLines(lines)) ==
               (if name == [] then []
                else if filename == [] then [Field(name, [])]
                else [File(name, filename, mime, [])])
  {
    hide HeadLines, ParamOf, Sanitized, Ascii, CrlfLines, Find;
    var h := CrlfLines(lines);
    LinesHaveNoBlank(lines);
    BlankLineFound(h, content);
    NoBlankLine(h);
    var text := h + CRLFCRLF + content;
    assert text[..|h|] == h && text[|h| + 4..] == content;
  }

  lemma NoBlankLine(h: bytes)
    requires forall i :: 0 <= i < |h| && h[i] == CR ==> i + 2 < |h| && h[i + 2] != CR
    ensures Find(h, CRLFCRLF, 0) == -1
  {
    forall i: nat | i < |h| ensures !MatchesAt(h, CRLFCRLF, i) {
      MatchesFour(h, 13, 10, 13, 10, i);
    }
  }

  // ---- the whole body ---------------------------------------------------------------------------------

  /** Each piece with the delimiter behind it. */
  function Delimited(pieces: seq<bytes>, delimiter: bytes): bytes {
    if pieces == [] then [] else pieces[0] + delimiter + Delimited(pieces[1..], delimiter)
  }

  /** The first delimiter behind the piece is the one that ends it. */
  predicate EndsAt(piece: bytes, delimiter: bytes) {
    Find(piece + delimiter, delimiter, 0) == |piece|
  }

  predicate ArePieces(pieces: seq<bytes>, delimiter: bytes) {
    forall i :: 0 <= i < |pieces| ==> EndsAt(pieces[i], delimiter)
  }

  /** Two dashes stand behind the delimiter before this piece. */
  predicate Closes(piece: bytes, delimiter: bytes) { DASHES <= piece + delimiter }

  /** The parts in the pieces up to the closing delimiter, each without the line ends at its edges. */
  function PartsIn(pieces: seq<bytes>, delimiter: bytes): seq<Part> {
    if pieces == [] || Closes(pieces[0], delimiter) then []
    else PartOf(StripLineEnd(SkipLineEnd(pieces[0]))) + PartsIn(pieces[1..], delimiter)
  }

  /** A line end is CRLF or LF, at the front and at the end of a piece; there is at most one taken off. */
  lemma LineEndsExact(s: bytes)
    ensures SkipLineEnd(CRLF + s) == s && SkipLineEnd([LF] + s) == s
    ensures s != [] && s[0] != LF && !(CRLF <= s) ==> SkipLineEnd(s) == s
    ensures StripLineEnd(s + CRLF) == s
    ensures s == [] || s[|s| - 1] != CR ==> StripLineEnd(s + [LF]) == s
    ensures s == [] || s[|s| - 1] != LF ==> StripLineEnd(s) == s
  {
    assert (CRLF + s)[..2] == CRLF && (CRLF + s)[2..] == s && ([LF] + s)[1..] == s;
    var t, u := s + CRLF, s + [LF];
    assert t[|t| - 2..] == CRLF && t[..|t| - 2] == s && u[..|u| - 1] == s;
    assert |u| >= 2 ==> u[|u| - 2..] == [s[|s| - 1], LF];
    assert |s| >= 2 ==> s[|s| - 2..] == [s[|s| - 2], s[|s| - 1]];
    assert |s| >= 2 ==> s[..2] == [s[0], s[1]];
  }

  lemma FirstIsFirst(piece: bytes, delimiter: bytes, rest: bytes)
    requires EndsAt(piece, delimiter)
    ensures Find(piece + delimiter + rest, delimiter, 0) == |piece|
  {
    var s, t := piece + delimiter, piece + delimiter + rest;
    assert s[..|s|] == t[..|s|];
    FindAgree(s, t, |s|, delimiter, 0);
  }

  /** How many bytes of a line end stand at the front. */
  function Skips(s: bytes): nat {
    if |s| >= 2 && s[0] == CR && s[1] == LF then 2 else if s != [] && s[0] == LF then 1 else 0
  }

  lemma SkipsAre(s: bytes)
    ensures Skips(s) <= |s| && SkipLineEnd(s) == s[Skips(s)..]
  {
    if |s| >= 2 { assert s[..2] == [s[0], s[1]]; }
  }

  lemma SkipBefore(piece: bytes, rest: bytes)
    requires piece != [] && rest != [] && rest[0] != LF
    ensures Skips(piece + rest) == Skips(piece) <= |piece|
    ensures (piece + rest)[Skips(piece)..] == piece[Skips(piece)..] + rest
  {
  }

  /** Taking off the front does not move the delimiter. */
  lemma FoundBehind(piece: bytes, k: nat, delimiter: bytes, rest: bytes)
    requires k <= |piece| && EndsAt(piece, delimiter)
    ensures Find(piece[k..] + (delimiter + rest), delimiter, 0) == |piece| - k
  {
    FirstIsFirst(piece, delimiter, rest);
    hide MatchesAt;
    var s := piece + delimiter + rest;
    assert s[k..] == piece[k..] + (delimiter + rest);
    FindShift(s, delimiter, k);
    var n := Find(s, delimiter, 0);
    assert MatchesAt(s, delimiter, n);
    assert Find(s, delimiter, k) == n;
  }

  lemma PieceRead(piece: bytes, delimiter: bytes, rest: bytes)
    requires |delimiter| > 2 && DASHES <= delimiter && EndsAt(piece, delimiter)
    ensures PartsAfter(piece + delimiter + rest, delimiter) ==
            if Closes(piece, delimiter) then []
            else PartOf(StripLineEnd(SkipLineEnd(piece))) + PartsAfter(rest, delimiter)
  {
    hide PartOf, StripLineEnd, SkipLineEnd, Find, MatchesAt, Skips;
    var s := piece + delimiter + rest;
    assert s[..2] == (piece + delimiter)[..2];
    if !Closes(piece, delimiter) {
      assert [] + delimiter == delimiter;
      var k := Skips(piece);
      assert s == piece + (delimiter + rest);
      SkipsAre(piece);
      SkipsAre(s);
      SkipBefore(piece, delimiter + rest);
      FoundBehind(piece, k, delimiter, rest);
      var t := piece[k..] + (delimiter + rest);
      var n := |piece| - k;
      assert t[..n] == piece[k..] && t[n + |delimiter|..] == rest;
    }
  }

  lemma TailRead(tail: bytes, delimiter: bytes)
    requires delimiter != [] && (DASHES <= tail || Find(tail, delimiter, 0) == -1)
    ensures PartsAfter(tail, delimiter) == []
  {
    hide PartOf, StripLineEnd;
    if DASHES <= tail {
      assert tail[..2] == DASHES;
    } else {
      var t := SkipLineEnd(tail);
      var k := |tail| - |t|;
      assert t == tail[k..];
      forall i: nat ensures MatchesAt(t, delimiter, i) == MatchesAt(tail, delimiter, k + i) {
        MatchesShift(tail, delimiter, k, i);
      }
    }
  }

  lemma {:induction false} PiecesRead(pieces: seq<bytes>, tail: bytes, delimiter: bytes)
    requires |delimiter| > 2 && DASHES <= delimiter && ArePieces(pieces, delimiter)
    requires DASHES <= tail || Find(tail, delimiter, 0) == -1
    ensures PartsAfter(Delimited(pieces, delimiter) + tail, delimiter) == PartsIn(pieces, delimiter)
    decreases |pieces|
  {
    hide PartOf, StripLineEnd, SkipLineEnd, Find, PartsAfter, EndsAt, Closes;
    if pieces == [] {
      assert Delimited(pieces, delimiter) + tail == tail;
      TailRead(tail, delimiter);
    } else {
      var rest := Delimited(pieces[1..], delimiter) + tail;
      assert Delimited(pieces, delimiter) + tail == pieces[0] + delimiter + rest;
      PieceRead(pieces[0], delimiter, rest);
      PiecesRead(pieces[1..], tail, delimiter);
    }
  }

  /**
   * Any body, cut at its delimiters: what stands before the first is ignored, every further piece holds one part, up
   * to the delimiter that is followed by two dashes; a last part that no delimiter ends is not read.
   */
  lemma BodyExact(preamble: bytes, pieces: seq<bytes>, tail: bytes, boundary: bytes)
    requires boundary != []
    requires var delimiter := DASHES + boundary;
             && EndsAt(preamble, delimiter) && ArePieces(pieces, delimiter)
             && (DASHES <= tail || Find(tail, delimiter, 0) == -1)
    ensures var delimiter := DASHES + boundary;
            PartsOf(preamble + delimiter + (Delimited(pieces, delimiter) + tail), boundary)
            == PartsIn(pieces, delimiter)
  {
    hide PartsAfter, PartsIn, Find, Delimited, ArePieces;
    var delimiter := DASHES + boundary;
    var rest := Delimited(pieces, delimiter) + tail;
    FirstIsFirst(preamble, delimiter, rest);
    var body := preamble + delimiter + rest;
    assert body[|preamble| + |delimiter|..] == rest;
    PiecesRead(pieces, tail, delimiter);
  }

  /** Without a delimiter, or without a boundary, there is no part. */
  lemma NoDelimiterNoPart(body: bytes, boundary: bytes)
    requires boundary == [] || Find(body, DASHES + boundary, 0) == -1
    ensures PartsOf(body, boundary) == []
  {
  }

  /** Every body with a delimiter is such a preamble, pieces and a tail. */
  lemma {:induction false} BodyWas(s: bytes, delimiter: bytes) returns (pieces: seq<bytes>, tail: bytes)
    requires delimiter != []
    ensures s == Delimited(pieces, delimiter) + tail && ArePieces(pieces, delimiter) && Find(tail, delimiter, 0) == -1
    decreases |s|
  {
    hide Find;
    var n := Find(s, delimiter, 0);
    if n == -1 {
      pieces, tail := [], s;
    } else {
      var more;
      more, tail := BodyWas(s[n + |delimiter|..], delimiter);
      pieces := [s[..n]] + more;
      assert s[n..n + |delimiter|] == delimiter;
      assert s == s[..n] + delimiter + s[n + |delimiter|..];
      var t := s[..n] + delimiter;
      assert s[..|t|] == t[..|t|];
      FindAgree(s, t, |t|, delimiter, 0);
      assert pieces[1..] == more;
      assert forall i :: 1 <= i < |pieces| ==> pieces[i] == more[i - 1];
    }
  }
}
