/** Requests as a client writes them, and that each is read back as it was meant. */
module RequestText {
  import opened Bytes
  import opened Head
  import opened Message
  import opened Framing
  import Chunked
  import KeepAlive

  /** The bytes of a token, as section 5.6.2 of RFC 9110 lists them. */
  lemma TokenByteExact(c: byte)
    ensures IsTokenByte(c)
            <==> || 'A' as int <= c <= 'Z' as int || 'a' as int <= c <= 'z' as int || '0' as int <= c <= '9' as int
                 || c in ['!' as int, '#' as int, '$' as int, '%' as int, '&' as int, '\'' as int, '*' as int,
                          '+' as int, '-' as int, '.' as int, '^' as int, '_' as int, '`' as int, '|' as int,
                          '~' as int]
  {
  }

  // ---- one field line ---------------------------------------------------------------------

  lemma TokenBytes(name: bytes)
    requires IsToken(name)
    ensures COLON !in name && CR !in name && LF !in name && SP !in name && TAB !in name && IsTrimmed(name)
  {
  }

  /** A name, blanks, a colon and anything else: the field of that name and of the rest, trimmed. */
  lemma FieldReads(name: bytes, gap: bytes, rest: bytes)
    requires IsToken(name) && AllBlank(gap)
    ensures FieldOf(name + gap + [COLON] + rest) == Some(Field(name, Trim(rest)))
  {
    TokenBytes(name);
    var line := name + gap + [COLON] + rest;
    assert COLON !in name + gap;
    FindByteFirst(name + gap, COLON, rest);
    assert line[..|name + gap|] == name + gap && line[|name + gap| + 1..] == rest;
    assert [] + name + gap == name + gap;
    TrimReads([], name, gap);
    hide IsToken, Trim, FindByte;
    assert line[0] == name[0];
  }

  /** Whatever line is taken has that form, and no other line does. */
  lemma FieldExact(line: bytes, f: Field)
    requires line != []
    ensures FieldOf(line) == Some(f)
            <==> line[0] != SP && line[0] != TAB && exists colon :: SplitsAt(line, colon) && Splits(line, colon, f)
  {
    hide IsToken, Trim, FindByte, FieldOf, Splits;
    if FieldOf(line) == Some(f) { FieldWas(line, f); }
    if line[0] != SP && line[0] != TAB {
      forall k | SplitsAt(line, k) && Splits(line, k, f) ensures FieldOf(line) == Some(f) { FieldIs(line, k, f); }
    }
  }

  lemma FieldWas(line: bytes, f: Field)
    requires line != [] && FieldOf(line) == Some(f)
    ensures line[0] != SP && line[0] != TAB
    ensures var colon := FindByte(line, COLON, 0); SplitsAt(line, colon) && Splits(line, colon, f)
  {
    hide IsToken, Trim;
    var colon := FindByte(line, COLON, 0);
    var b0, a0 := TrimParts(line[..colon]);
    var b1, a1 := TrimParts(line[colon + 1..]);
    hide AllBlank, IsTrimmed;
    assert IsTrimOf(f.name, line[..colon]) && IsTrimOf(f.value, line[colon + 1..]);
  }

  lemma FieldIs(line: bytes, k: int, f: Field)
    requires SplitsAt(line, k) && Splits(line, k, f) && line[0] != SP && line[0] != TAB
    ensures FieldOf(line) == Some(f)
  {
    hide IsToken, Trim, FindByte, IsTrimOf;
    FirstColon(line, k);
    TrimIs(f.name, line[..k]);
    TrimIs(f.value, line[k + 1..]);
    if k == 0 { EmptyIsNoToken(f.name, line); }
  }

  /** `colon` is the place of the first colon. */
  predicate SplitsAt(line: bytes, colon: int) {
    0 <= colon < |line| && line[colon] == COLON && COLON !in line[..colon]
  }

  /** The name is a token, and name and value are what the colon separates, without the blanks around them. */
  ghost predicate Splits(line: bytes, colon: int, f: Field)
    requires 0 <= colon < |line|
  {
    IsToken(f.name) && IsTrimOf(f.name, line[..colon]) && IsTrimOf(f.value, line[colon + 1..])
  }

  /** `core` is `s` without the blanks around it. */
  ghost predicate IsTrimOf(core: bytes, s: bytes) {
    IsTrimmed(core) && exists before, after :: AllBlank(before) && AllBlank(after) && s == before + core + after
  }

  lemma TrimIs(core: bytes, s: bytes)
    requires IsTrimOf(core, s)
    ensures Trim(s) == core
  {
    hide Trim, AllBlank;
    var before, after :| AllBlank(before) && AllBlank(after) && s == before + core + after;
    TrimReads(before, core, after);
  }

  lemma FirstColon(line: bytes, k: int)
    requires SplitsAt(line, k)
    ensures FindByte(line, COLON, 0) == k
  {
    assert line == line[..k] + [COLON] + line[k + 1..];
    FindByteFirst(line[..k], COLON, line[k + 1..]);
  }

  lemma EmptyIsNoToken(name: bytes, line: bytes)
    requires line != [] && Trim(line[..0]) == name
    ensures !IsToken(name)
  {
  }

  /** A line is refused exactly when it is folded, has no colon, or what stands before its first colon is no name. */
  lemma FieldRefused(line: bytes)
    requires line != []
    ensures FieldOf(line) == None
            <==> || line[0] == SP || line[0] == TAB || COLON !in line
                 || forall colon :: SplitsAt(line, colon) ==> !IsToken(Trim(line[..colon]))
  {
    hide IsToken, Trim;
    var colon := FindByte(line, COLON, 0);
    if colon != -1 {
      assert SplitsAt(line, colon);
      forall k | SplitsAt(line, k) ensures k == colon { FirstColon(line, k); }
      if colon == 0 { EmptyIsNoToken(Trim(line[..0]), line); }
    }
  }

  // ---- the start line -------------------------------------------------------------------------

  function StartText(s: StartLine): bytes {
    s.method_ + [SP] + (s.target + [SP] + s.version)
  }

  predicate IsStart(s: StartLine) {
    IsToken(s.method_) && IsTarget(s.target) && IsVersion(s.version)
  }

  lemma StartBytes(s: StartLine)
    requires IsStart(s)
    ensures SP !in s.method_ && SP !in s.target && SP !in s.version && CR !in s.version && LF !in s.version
    ensures CR !in StartText(s) && LF !in StartText(s) && s.method_ != [] && s.target != [] && |s.version| == 8
  {
    assert forall i :: 0 <= i < 5 ==> s.version[i] == s.version[..5][i];
    var http := "HTTP/";
    assert forall i :: 0 <= i < |http| ==> 'A' <= http[i] <= 'Z' || http[i] == '/';
    assert forall i :: 0 <= i < |s.version| ==> s.version[i] > 32;
    TokenBytes(s.method_);
  }

  lemma StartParts(s: StartLine, tail: bytes)
    ensures StartText(s) + tail == s.method_ + [SP] + (s.target + [SP] + (s.version + tail))
  {
  }

  /** Where the two spaces are, and what lies between them. */
  lemma SpacesFound(a: bytes, b: bytes, c: bytes)
    requires SP !in a && SP !in b && SP !in c
    ensures var line := a + [SP] + (b + [SP] + c);
            var m := |a| + 1 + |b|;
            && FindByte(line, SP, 0) == |a| && FindByte(line, SP, |a| + 1) == m && FindByte(line, SP, m + 1) == -1
            && m < |line| && line[..|a|] == a && line[|a| + 1..m] == b && line[m + 1..] == c
  {
    hide *;
    var line := a + [SP] + (b + [SP] + c);
    assert line[0..] == line;
    FindByteFrom(line, 0, a, SP, b + [SP] + c);
    FindByteFrom(line, |a| + 1, b, SP, c);
    FindByteNone(line, SP, |a| + 1 + |b| + 1);
    assert line[..|a|] == line[0..|a|];
  }

  lemma PartsRead(a: bytes, b: bytes, c: bytes)
    requires SP !in a && SP !in b && SP !in c && a != [] && b != []
    ensures var s := StartLine(a, b, StripCr(c));
            StartLineOf(a + [SP] + (b + [SP] + c)) == if IsStart(s) then Some(s) else None
  {
    hide IsToken, IsTarget, IsVersion, FindByte, StripCr;
    SpacesFound(a, b, c);
  }

  /** A start line is read as its three parts, with or without a CR behind them. */
  lemma StartReads(s: StartLine, cr: bytes)
    requires IsStart(s) && (cr == [] || cr == [CR])
    ensures StartLineOf(StartText(s) + cr) == Some(s)
  {
    hide IsStart, IsToken, IsTarget, IsVersion, FindByte, StripCr, StartText, StartLineOf;
    StartBytes(s);
    StartParts(s, cr);
    PartsRead(s.method_, s.target, s.version + cr);
    StripsCr(s.version, cr);
  }

  lemma StripsCr(text: bytes, cr: bytes)
    requires CR !in text && (cr == [] || cr == [CR])
    ensures StripCr(text + cr) == text
  {
    if cr == [] { assert text + cr == text; } else { assert (text + cr)[..|text|] == text; }
  }

  /** No other line is. */
  lemma StartExact(line: bytes, s: StartLine)
    ensures StartLineOf(line) == Some(s) <==> IsStart(s) && (line == StartText(s) || line == StartText(s) + [CR])
  {
    hide IsToken, IsTarget, IsVersion, FindByte, StripCr, StartText;
    assert StartText(s) + [] == StartText(s);
    if StartLineOf(line) == Some(s) {
      var k := FindByte(line, SP, 0);
      var m := FindByte(line, SP, k + 1);
      ThreeParts(line, k, m);
      StrippedOrNot(line[m + 1..]);
      StartParts(s, []);
      StartParts(s, [CR]);
    }
    if IsStart(s) {
      StartReads(s, []);
      StartReads(s, [CR]);
    }
  }

  lemma ThreeParts(line: bytes, k: nat, m: nat)
    requires k < m < |line| && line[k] == SP && line[m] == SP
    ensures line == line[..k] + [SP] + (line[k + 1..m] + [SP] + line[m + 1..])
  {
  }

  lemma StrippedOrNot(s: bytes)
    ensures s == StripCr(s) || s == StripCr(s) + [CR]
  {
  }

  // ---- the whole head ---------------------------------------------------------------------------

  /** A line that holds something, and nothing that ends lines. */
  predicate IsText(t: bytes) { t != [] && CR !in t && LF !in t }

  predicate AreTexts(texts: seq<bytes>) {
    texts != [] && forall i :: 0 <= i < |texts| ==> IsText(texts[i])
  }

  /** A head may end its lines in CRLF or, before HTTP/1.1, in LF. */
  predicate IsCr(cr: bytes) { cr == [] || cr == [CR] }

  function WithCr(texts: seq<bytes>, cr: bytes): seq<bytes> {
    seq(|texts|, i requires 0 <= i < |texts| => texts[i] + cr)
  }

  /** The head up to its terminator. */
  function HeadBody(texts: seq<bytes>, cr: bytes): bytes
    requires texts != []
  {
    Ended(WithCr(texts[..|texts| - 1], cr)) + texts[|texts| - 1]
  }

  function Terminator(cr: bytes): bytes { cr + [LF] + cr + [LF] }

  /** The first line, and the rest. */
  lemma BodyStep(texts: seq<bytes>, cr: bytes)
    requires |texts| > 1
    ensures HeadBody(texts, cr) == (texts[0] + cr) + [LF] + HeadBody(texts[1..], cr)
  {
    var init := texts[..|texts| - 1];
    assert WithCr(init, cr)[1..] == WithCr(init[1..], cr);
    assert texts[1..][..|texts| - 2] == init[1..] && texts[1..][|texts| - 2] == texts[|texts| - 1];
  }

  lemma BodyOne(texts: seq<bytes>, cr: bytes)
    requires |texts| == 1
    ensures HeadBody(texts, cr) == texts[0]
  {
  }

  /** What the bytes next to a line end look like. */
  predicate EndsWell(head: bytes, cr: bytes) {
    && head != [] && head[0] != CR && head[0] != LF && head[|head| - 1] != CR && head[|head| - 1] != LF
    && (forall i :: 0 <= i < |head| - 1 && head[i] == LF ==>
          head[i + 1] != CR && head[i + 1] != LF && (cr != [] ==> i > 0 && head[i - 1] == CR))
    && (cr == [] ==> CR !in head)
  }

  lemma TextEndsWell(text: bytes, cr: bytes)
    requires IsText(text)
    ensures EndsWell(text, cr)
  {
  }

  lemma LineEndsWell(text: bytes, cr: bytes, rest: bytes)
    requires IsText(text) && IsCr(cr) && EndsWell(rest, cr)
    ensures EndsWell((text + cr) + [LF] + rest, cr)
  {
    var head := (text + cr) + [LF] + rest;
    var n := |text| + |cr|;
    assert head[n] == LF && forall i :: n < i < |head| ==> head[i] == rest[i - n - 1];
    assert forall i :: 0 <= i < |text| ==> head[i] == text[i];
    assert cr != [] ==> head[n - 1] == CR;
    forall i | 0 <= i < |head| - 1 && head[i] == LF
      ensures head[i + 1] != CR && head[i + 1] != LF && (cr != [] ==> i > 0 && head[i - 1] == CR)
    {
      assert i >= n;
      if i > n { assert rest[i - n - 1] == LF; }
    }
  }

  lemma {:induction false} BodyEndsWell(texts: seq<bytes>, cr: bytes)
    requires AreTexts(texts) && IsCr(cr)
    ensures EndsWell(HeadBody(texts, cr), cr)
    decreases |texts|
  {
    hide HeadBody, EndsWell, IsText;
    if |texts| == 1 {
      BodyOne(texts, cr);
      TextEndsWell(texts[0], cr);
    } else {
      BodyStep(texts, cr);
      BodyEndsWell(texts[1..], cr);
      LineEndsWell(texts[0], cr, HeadBody(texts[1..], cr));
    }
  }

  /** A head of such lines ends where it should. */
  lemma BoundsFound(head: bytes, cr: bytes, rest: bytes)
    requires EndsWell(head, cr) && IsCr(cr)
    ensures BoundsOf(head + Terminator(cr) + rest) == Bounds(|head|, if cr == [] then 2 else 4)
  {
    hide BoundsOf, TerminatorAt;
    var raw := head + Terminator(cr) + rest;
    forall i | 0 <= i < |head| ensures !TerminatorAt(raw, i) {
      TerminatorShapes(raw, i);
      assert raw[i] == head[i];
      assert i + 1 < |head| ==> raw[i + 1] == head[i + 1];
      assert i + 2 < |head| ==> raw[i + 2] == head[i + 2];
      NoTerminator(raw, i);
    }
    TerminatorShapes(raw, |head|);
    BoundsAre(raw, |head|, if cr == [] then 2 else 4);
  }

  lemma NoTerminator(raw: bytes, i: nat)
    requires !MatchesAt(raw, CRLFCRLF, i) && !MatchesAt(raw, LFLF, i)
    ensures !TerminatorAt(raw, i)
  {
  }

  lemma NoBareLfWritten(head: bytes, rest: bytes)
    requires EndsWell(head, [CR])
    ensures NoBareLfBefore(head + Terminator([CR]) + rest, |head| + 4)
  {
    var raw := head + Terminator([CR]) + rest;
    assert forall i :: 0 <= i < |head| ==> raw[i] == head[i];
    assert raw[|head|] == CR && raw[|head| + 1] == LF && raw[|head| + 2] == CR && raw[|head| + 3] == LF;
  }

  /** The lines of such a head, as the server splits it. */
  lemma LinesWritten(texts: seq<bytes>, cr: bytes)
    requires AreTexts(texts) && IsCr(cr)
    ensures var head := HeadBody(texts, cr);
            && RequestLine(head) == (if |texts| == 1 then texts[0] else texts[0] + cr)
            && HeaderLines(head) == Rows(texts[1..], cr)
            && (LF in head <==> |texts| > 1)
  {
    if |texts| == 1 {
      OneLineWritten(texts, cr);
    } else {
      hide HeadBody, FindByte, Lines, Rows, RequestLine, HeaderLines;
      BodyStep(texts, cr);
      assert IsText(texts[0]) && AreTexts(texts[1..]);
      FirstLineWritten(texts[0] + cr, HeadBody(texts[1..], cr));
      RowsRead(HeadBody(texts, cr), |texts[0] + cr| + 1, texts[1..], cr);
    }
  }

  lemma OneLineWritten(texts: seq<bytes>, cr: bytes)
    requires AreTexts(texts) && |texts| == 1
    ensures var head := HeadBody(texts, cr);
            RequestLine(head) == texts[0] && HeaderLines(head) == Rows([], cr) && LF !in head && texts[1..] == []
  {
    BodyOne(texts, cr);
    hide HeadBody;
    assert texts[0][0..] == texts[0];
    FindByteNone(texts[0], LF, 0);
  }

  lemma FirstLineWritten(line: bytes, rest: bytes)
    requires LF !in line
    ensures var head := line + [LF] + rest;
            && RequestLine(head) == line && HeaderLines(head) == Lines(head, |line| + 1)
            && LF in head && head[|line| + 1..] == rest
  {
    hide FindByte, Lines;
    var head := line + [LF] + rest;
    assert head[0..] == head;
    FindByteFrom(head, 0, line, LF, rest);
    assert head[|line|] == LF && head[..|line|] == head[0..|line|];
  }

  /** All rows but the last carry their CR. */
  function Rows(texts: seq<bytes>, cr: bytes): seq<bytes> {
    if texts == [] then [] else WithCr(texts[..|texts| - 1], cr) + [texts[|texts| - 1]]
  }

  lemma RowsRead(head: bytes, pos: nat, texts: seq<bytes>, cr: bytes)
    requires AreTexts(texts) && IsCr(cr) && pos <= |head| && head[pos..] == HeadBody(texts, cr)
    ensures Lines(head, pos) == Rows(texts, cr)
  {
    hide Lines, Ended;
    var rows, last := WithCr(texts[..|texts| - 1], cr), texts[|texts| - 1];
    assert AreLfFree(rows) by {
      forall i | 0 <= i < |rows| ensures LF !in rows[i] { assert IsText(texts[i]); }
    }
    LinesRead(head, pos, rows, last);
  }

  // ---- fields as they may be spelled ----------------------------------------------------------------

  /** A field with the blanks before its colon and around its value. */
  datatype Spelled = Spelled(field: Field, gap: bytes, before: bytes, after: bytes)

  function FieldLine(f: Spelled): bytes {
    f.field.name + f.gap + [COLON] + (f.before + f.field.value + f.after)
  }

  predicate IsSpelled(f: Spelled) {
    && IsToken(f.field.name) && IsTrimmed(f.field.value)
    && AllBlank(f.gap) && AllBlank(f.before) && AllBlank(f.after)
    && CR !in FieldLine(f) && LF !in FieldLine(f)
  }

  predicate AreSpelled(fs: seq<Spelled>) {
    forall i :: 0 <= i < |fs| ==> IsSpelled(fs[i])
  }

  function FieldLines(fs: seq<Spelled>): seq<bytes> {
    seq(|fs|, i requires 0 <= i < |fs| => FieldLine(fs[i]))
  }

  /** What the client means. */
  function Meant(fs: seq<Spelled>): seq<Field> {
    seq(|fs|, i requires 0 <= i < |fs| => fs[i].field)
  }

  /** However it is spelled, and whatever colons its value holds, a field line is read as the field. */
  lemma SpellingReads(f: Spelled)
    requires IsSpelled(f)
    ensures FieldLine(f) != [] && FieldOf(FieldLine(f)) == Some(f.field)
  {
    FieldReads(f.field.name, f.gap, f.before + f.field.value + f.after);
    TrimReads(f.before, f.field.value, f.after);
  }

  lemma RowReads(text: bytes, cr: bytes)
    requires CR !in text && IsCr(cr)
    ensures StripCr(text + cr) == text && StripCr(text) == text
  {
    StripsCr(text, cr);
    StripsCr(text, []);
    assert text + [] == text;
  }

  /** Each text is the line of its field. */
  predicate HoldFields(texts: seq<bytes>, fs: seq<Field>) {
    |texts| == |fs| && forall i :: 0 <= i < |fs| ==> IsText(texts[i]) && FieldOf(texts[i]) == Some(fs[i])
  }

  lemma {:induction false} RowsHold(texts: seq<bytes>, fs: seq<Field>, cr: bytes)
    requires HoldFields(texts, fs) && IsCr(cr)
    ensures FieldsOf(Rows(texts, cr)) == Some(fs)
    decreases |fs|
  {
    hide FieldOf, StripCr, Rows;
    if fs == [] {
      NoRows(cr);
      assert FieldsOf([]) == Some([]);
    } else {
      RowReads(texts[0], cr);
      RowsHold(texts[1..], fs[1..], cr);
      RowsStep(texts, cr);
      assert fs == [fs[0]] + fs[1..];
    }
  }

  lemma FieldsRead(fs: seq<Spelled>, cr: bytes)
    requires AreSpelled(fs) && IsCr(cr)
    ensures FieldsOf(Rows(FieldLines(fs), cr)) == Some(Meant(fs))
  {
    hide FieldLine, FieldOf, Rows, FieldsOf;
    forall i | 0 <= i < |fs| ensures IsText(FieldLines(fs)[i]) && FieldOf(FieldLines(fs)[i]) == Some(Meant(fs)[i]) {
      SpellingReads(fs[i]);
    }
    RowsHold(FieldLines(fs), Meant(fs), cr);
  }

  lemma NoRows(cr: bytes)
    ensures Rows([], cr) == []
  {
  }

  lemma RowsStep(texts: seq<bytes>, cr: bytes)
    requires texts != []
    ensures var rows := Rows(texts, cr);
            rows != [] && rows[1..] == Rows(texts[1..], cr) && (rows[0] == texts[0] + cr || rows[0] == texts[0])
  {
    if |texts| > 1 {
      var init, more := texts[..|texts| - 1], texts[1..][..|texts| - 2];
      assert init[1..] == more;
      var rows := WithCr(init, cr);
      assert |rows[1..]| == |more| && forall i :: 0 <= i < |more| ==> rows[1..][i] == more[i] + cr;
      assert rows[1..] == WithCr(more, cr);
    }
  }

  // ---- the whole request ------------------------------------------------------------------------------

  datatype Body = NoBody | Sized(data: bytes) | Coded(coding: Chunked.Coding)

  datatype Written = Written(start: StartLine, fields: seq<Spelled>, cr: bytes, body: Body)

  function Payload(body: Body): bytes {
    match body
    case NoBody => []
    case Sized(data) => data
    case Coded(m) => Chunked.Payload(m.chunks)
  }

  function BodyText(body: Body): bytes {
    match body
    case NoBody => []
    case Sized(data) => data
    case Coded(m) => Chunked.Encode(m)
  }

  function Texts(w: Written): seq<bytes> { [StartText(w.start)] + FieldLines(w.fields) }

  function WrittenHead(w: Written): bytes { HeadBody(Texts(w), w.cr) }

  function WrittenText(w: Written): bytes { WrittenHead(w) + Terminator(w.cr) + BodyText(w.body) }

  /** The fields announce the body: its length in decimal, or one chunked coding, or neither. */
  ghost predicate Announces(fs: seq<Field>, body: Body) {
    && Coherent(fs)
    && match body
       case NoBody => !HasLength(fs) && !HasCoding(fs)
       case Sized(data) => HasLength(fs) && LengthsAre(fs, |data|)
       case Coded(m) => HasCoding(fs) && !Unchunked(fs) && Chunked.IsCoding(m)
  }

  predicate WithinLimits(w: Written) {
    && (w.fields != [] ==> |StartText(w.start) + w.cr| <= 65536)
    && LinesShort(Rows(FieldLines(w.fields), w.cr)) && |w.fields| <= 100
  }

  /** Start line, fields, Host fields, line ends, limits and announcement are in order. */
  ghost predicate IsWritten(w: Written) {
    && IsStart(w.start) && AreSpelled(w.fields) && HostRule(Meant(w.fields), w.start.version)
    && IsCr(w.cr) && (VersionAtLeast11(StartText(w.start)) ==> w.cr == [CR] && w.fields != [])
    && WithinLimits(w) && Announces(Meant(w.fields), w.body)
  }

  lemma FieldTexts(fs: seq<Spelled>)
    requires AreSpelled(fs)
    ensures forall i :: 0 <= i < |FieldLines(fs)| ==> IsText(FieldLines(fs)[i])
  {
    hide FieldLine;
    forall i | 0 <= i < |FieldLines(fs)| ensures IsText(FieldLines(fs)[i]) { SpellingReads(fs[i]); }
  }

  lemma TextsWritten(w: Written)
    requires IsStart(w.start) && AreSpelled(w.fields)
    ensures AreTexts(Texts(w)) && Texts(w)[0] == StartText(w.start) && Texts(w)[1..] == FieldLines(w.fields)
    ensures |Texts(w)| == 1 + |w.fields|
  {
    hide StartText, FieldLine, IsStart, AreSpelled;
    StartBytes(w.start);
    StartNotEmpty(w.start);
    FieldTexts(w.fields);
    assert FieldLines(w.fields) == Texts(w)[1..];
  }

  lemma StartNotEmpty(s: StartLine)
    ensures StartText(s) != []
  {
  }

  /** The head of a written request, as the server takes it apart. */
  lemma HeadRead(w: Written)
    requires IsStart(w.start) && AreSpelled(w.fields) && IsCr(w.cr)
    ensures var head := WrittenHead(w);
            && StartLineOf(RequestLine(head)) == Some(w.start)
            && FieldsOf(HeaderLines(head)) == Some(Meant(w.fields))
            && HeaderLines(head) == Rows(FieldLines(w.fields), w.cr)
            && (RequestLine(head) == if w.fields == [] then StartText(w.start) else StartText(w.start) + w.cr)
            && (LF in head <==> w.fields != [])
  {
    TextsWritten(w);
    LinesWritten(Texts(w), w.cr);
    FieldsRead(w.fields, w.cr);
    StartReads(w.start, w.cr);
    StartReads(w.start, []);
    hide StartText, StartLineOf, FieldsOf, HeaderLines, RequestLine, Rows, Texts, FieldLines, Meant, HeadBody, IsStart;
    assert StartText(w.start) + [] == StartText(w.start);
  }

  /** A head written from any fields is read back: start line and fields, in order. */
  lemma HeadReads(w: Written)
    requires IsStart(w.start) && AreSpelled(w.fields) && IsCr(w.cr)
    ensures HeadOf(WrittenHead(w)) ==
            if HostRule(Meant(w.fields), w.start.version) then Some((w.start, Meant(w.fields))) else None
  {
    HeadRead(w);
    hide StartLineOf, FieldsOf, HeaderLines, RequestLine, Rows, WrittenHead, HostRule, FieldLines, Meant;
  }

  /** The parts of the buffer a written request begins. */
  lemma BufferParts(w: Written, rest: bytes)
    requires IsStart(w.start) && AreSpelled(w.fields) && IsCr(w.cr)
    ensures var raw := WrittenText(w) + rest;
            var head := WrittenHead(w);
            var base := |head| + |Terminator(w.cr)|;
            && raw == head + Terminator(w.cr) + (BodyText(w.body) + rest)
            && BoundsOf(raw) == Bounds(|head|, |Terminator(w.cr)|) && raw[..|head|] == head
            && raw[base..] == BodyText(w.body) + rest && |WrittenText(w)| == base + |BodyText(w.body)|
            && EndsWell(head, w.cr)
  {
    hide IsStart, AreSpelled, Texts, HeadBody, EndsWell, BodyText, BoundsOf, AreTexts, StartText;
    TextsWritten(w);
    BodyEndsWell(Texts(w), w.cr);
    BoundsFound(WrittenHead(w), w.cr, BodyText(w.body) + rest);
    hide WrittenHead;
    Pieces(WrittenHead(w), Terminator(w.cr), BodyText(w.body), rest);
  }

  lemma Pieces(head: bytes, term: bytes, body: bytes, rest: bytes)
    ensures var raw := head + term + body + rest;
            && raw == head + term + (body + rest) && raw[..|head|] == head && raw[|head| + |term|..] == body + rest
  {
  }

  lemma EndingsWritten(w: Written, rest: bytes)
    requires IsWritten(w)
    ensures BoundsOf(WrittenText(w) + rest).end != -1 && EndingsInOrder(WrittenText(w) + rest)
  {
    hide BoundsOf, IsStart, AreSpelled, HostRule, Announces, WithinLimits, StartLineOf, FieldsOf, HeaderLines,
      StartText, BodyText, WrittenText, WrittenHead, Meant, Rows, FieldLines, NoBareLfBefore, EndsWell,
      VersionAtLeast11, RequestLine, Terminator;
    BufferParts(w, rest);
    HeadRead(w);
    StartBytes(w.start);
    VersionIgnoresCr(StartText(w.start), w.cr);
    if w.cr == [CR] {
      NoBareLfWritten(WrittenHead(w), BodyText(w.body) + rest);
      TerminatorLength();
    }
  }

  lemma TerminatorLength()
    ensures |Terminator([CR])| == 4
  {
  }

  lemma VersionIgnoresCr(line: bytes, cr: bytes)
    ensures CR !in line && IsCr(cr) ==> (VersionAtLeast11(line + cr) <==> VersionAtLeast11(line))
  {
    if CR !in line && IsCr(cr) {
      StripsCr(line, cr);
      StripsCr(line, []);
      assert line + [] == line;
    }
  }

  /** The head of a written request is taken, and announces what was meant. */
  lemma WrittenIsTaken(w: Written, rest: bytes)
    requires IsWritten(w)
    ensures var raw := WrittenText(w) + rest;
            BoundsOf(raw).end != -1 && HeadTaken(raw) && FramingFields(raw) == Meant(w.fields)
  {
    BufferParts(w, rest);
    EndingsWritten(w, rest);
    HeadRead(w);
    NothingElse(Meant(w.fields), w.body);
    hide BoundsOf, IsStart, AreSpelled, HostRule, Announces, StartLineOf, FieldsOf, HeaderLines, StartText, BodyText,
      WrittenHead, WrittenText, Meant, Rows, FieldLines, EndingsInOrder, EndsWell, HeadTaken, FramingFields,
      VersionAtLeast11, RequestLine, LinesShort, Coherent, Unchunked, Terminator;
    TakenExactly(WrittenText(w) + rest, Meant(w.fields));
    assert |Meant(w.fields)| == |w.fields| by { MeantLength(w.fields); }
  }

  lemma MeantLength(fs: seq<Spelled>)
    ensures |Meant(fs)| == |fs|
  {
  }

  lemma NothingElse(fs: seq<Field>, body: Body)
    requires Announces(fs, body)
    ensures Coherent(fs) && !Unchunked(fs)
  {
    hide IsTransferEncoding, IsContentLength, IsChunked, LengthsAre, Chunked.IsCoding;
  }

  /** A written request is complete at its own end, whatever follows it. */
  lemma WrittenInspects(w: Written, rest: bytes)
    requires IsWritten(w) && |WrittenText(w) + rest| <= NPOS
    ensures InspectionOf(WrittenText(w) + rest) == Inspection(Complete, |WrittenText(w)|)
  {
    WrittenIsTaken(w, rest);
    BufferParts(w, rest);
    hide IsStart, AreSpelled, HostRule, WithinLimits, Coherent, HasLength, HasCoding, LengthsAre, Unchunked, Meant,
      BoundsOf, HeadTaken, FramingFields, InspectionOf, WrittenText, WrittenHead, Terminator, EndsWell, CodingAt,
      OffenceAfterChunks, StartText, Chunked.Encode, Chunked.IsCoding;
    var raw := WrittenText(w) + rest;
    match w.body
    case NoBody => FramedByNothing(raw);
    case Sized(data) => FramedByLength(raw, |data|);
    case Coded(m) => {
      FramedByChunks(raw, |Chunked.Encode(m)|);
      CodingStands(m, rest);
    }
  }

  lemma CodingStands(m: Chunked.Coding, rest: bytes)
    requires Chunked.IsCoding(m)
    ensures CodingAt(Chunked.Encode(m) + rest, |Chunked.Encode(m)|)
  {
    hide Chunked.IsCoding, Chunked.Encode;
    assert Chunked.Encode(m) <= Chunked.Encode(m) + rest;
  }

  lemma RequestParts(raw: bytes)
    requires RequestOf(raw).Some?
    ensures var r := RequestOf(raw).value;
            && HeadOf(raw[..BoundsOf(raw).end]) == Some((r.start, r.headers))
            && r.path == PathOf(r.start.target) && r.query == QueryOf(r.start.target)
  {
    hide BoundsOf, HeadRefusal, HeadOf, BodyOf, ScanOf, PathOf, QueryOf;
  }

  /** Only the announced body is framed as announced. */
  lemma BodyPinned(fs: seq<Field>, body: Body, rest: bytes, raw: bytes, base: nat, found: bytes)
    requires base <= |raw| && raw[base..] == BodyText(body) + rest
    requires Announces(fs, body) && Framed(raw, base, fs, found)
    ensures found == Payload(body)
  {
    hide Coherent, Chunked.Dechunk, Chunked.Encode, Chunked.IsCoding, Chunked.Payload, Unchunked, HasCoding;
    match body
    case NoBody =>
    case Sized(data) => {
      var i :| 0 <= i < |fs| && IsContentLength(fs[i]);
      assert DenotesSize(fs[i].value, |data|) && DenotesSize(fs[i].value, |found|);
      assert found == raw[base..][..|found|] == (data + rest)[..|data|];
    }
    case Coded(m) => Chunked.DecodesCoding(m, rest);
  }

  /**
   * Every request a client may write is read back as it was meant, whatever follows it: complete at its own end, with
   * its method, target and version, its fields in order, and its body.
   */
  lemma RequestReads(w: Written, rest: bytes)
    requires IsWritten(w) && |WrittenText(w) + rest| < NPOS
    ensures InspectionOf(WrittenText(w) + rest) == Inspection(Complete, |WrittenText(w)|)
    ensures RequestOf(WrittenText(w) + rest) ==
            Some(Request(w.start, PathOf(w.start.target), QueryOf(w.start.target), Meant(w.fields), Payload(w.body),
                         |Payload(w.body)|))
  {
    hide InspectionOf, RequestOf, BoundsOf, HeadOf, WrittenText, WrittenHead, Terminator, BodyText, Payload, Announces,
      WithinLimits, HostRule, Meant, AreSpelled, IsStart, EndsWell, Framed, Coherent, PathOf, QueryOf, StartText,
      VersionAtLeast11;
    var raw := WrittenText(w) + rest;
    WrittenInspects(w, rest);
    HeadReads(w);
    BufferParts(w, rest);
    ParseExact(raw);
    RequestParts(raw);
    BodyIsFramed(raw);
    var r := RequestOf(raw).value;
    BodyPinned(Meant(w.fields), w.body, rest, raw, BoundsOf(raw).end + BoundsOf(raw).separator, r.body);
  }

  // ---- the parts of a target --------------------------------------------------------------------------

  const QUESTION: byte := 63

  /** What stands before the first question mark, less one slash at its end, and what stands behind it. */
  lemma TargetReads(path: bytes, query: bytes)
    requires QUESTION !in path
    ensures QueryOf(path + [QUESTION] + query) == query && QueryOf(path) == []
    ensures PathOf(path + [QUESTION] + query) == PathOf(path)
    ensures path == [] || path == [SLASH] || path[|path| - 1] != SLASH ==> PathOf(path) == path
    ensures path != [] ==> PathOf(path + [SLASH]) == path
  {
    FindByteFirst(path, QUESTION, query);
    assert (path + [QUESTION] + query)[..|path|] == path;
    FindByteFirst(path + [SLASH], QUESTION, []);
    assert (path + [SLASH])[..|path|] == path;
  }

  // ---- the version a request line declares ----------------------------------------------------------------

  /** `text` ends in the only place of its first `HTTP/`, with these two digits. */
  predicate Declares(text: bytes, before: bytes, major: byte, minor: byte) {
    && text == before + Ascii("HTTP/") + [major, 46, minor] && IsDigit(major) && IsDigit(minor)
    && forall i :: 0 <= i < |before| ==> !MatchesAt(text, Ascii("HTTP/"), i)
  }

  /** The line endings are checked exactly for lines that end in a version of at least 1.1, CR or not. */
  lemma VersionExact(line: bytes)
    ensures VersionAtLeast11(line)
            <==> exists before, major, minor ::
                   Declares(StripCr(line), before, major, minor) && (major - 48) * 10 + (minor - 48) >= 11
  {
    var v, http := StripCr(line), Ascii("HTTP/");
    hide StripCr;
    var h := Find(v, HTTP_SLASH, 0);
    if VersionAtLeast11(line) {
      assert v == v[..h] + http + [v[h + 5], 46, v[h + 7]] by {
        assert v[h..h + 5] == http;
        assert v[h + 5..] == [v[h + 5], 46, v[h + 7]];
      }
      assert Declares(v, v[..h], v[h + 5], v[h + 7]);
    }
    forall before, major, minor |
      Declares(v, before, major, minor) && (major - 48) * 10 + (minor - 48) >= 11
      ensures VersionAtLeast11(line)
    {
      assert v[|before|..|before| + 5] == http;
      assert MatchesAt(v, http, |before|);
      assert h == |before|;
    }
  }

  /** The number a version stands for: 10 for HTTP/1.0, 11 for HTTP/1.1. */
  function VersionNumber(version: bytes): int
    requires IsVersion(version)
  {
    (version[5] - 48) * 10 + (version[7] - 48)
  }

  lemma HttpSlash()
    ensures HTTP_SLASH == [72, 84, 84, 80, 47]
  {
    var http := "HTTP/";
    assert http[0] == 'H' && http[1] == 'T' && http[2] == 'T' && http[3] == 'P' && http[4] == '/';
  }

  /** Five bytes without a space that start before the last part lie within the middle one, or in a slashless first. */
  lemma WithinParts(a: bytes, b: bytes, c: bytes, pat: bytes, i: nat)
    requires |pat| == 5 && SP !in pat && pat[4] == SLASH && SLASH !in a
    requires i < |a| + 1 + |b| + 1 && MatchesAt(a + [SP] + (b + [SP] + c), pat, i)
    ensures |a| + 1 <= i && i + 5 <= |a| + 1 + |b| && MatchesAt(b, pat, i - |a| - 1)
  {
    var line := a + [SP] + (b + [SP] + c);
    assert line[|a|] == SP && line[|a| + 1 + |b|] == SP;
    forall j | i <= j < i + 5 ensures line[j] == pat[j - i] && line[j] != SP {
      assert line[j] == line[i..i + 5][j - i];
    }
    assert line[i + 4] == SLASH;
    assert line[i..i + 5] == b[i - |a| - 1..i - |a| - 1 + 5];
  }

  lemma MiddleMatches(a: bytes, b: bytes, c: bytes, pat: bytes, i: nat)
    requires MatchesAt(b, pat, i)
    ensures MatchesAt(a + [SP] + (b + [SP] + c), pat, |a| + 1 + i)
  {
    var line := a + [SP] + (b + [SP] + c);
    assert line[|a| + 1 + i..|a| + 1 + i + |pat|] == b[i..i + |pat|];
  }

  lemma LastMatches(a: bytes, b: bytes, c: bytes, pat: bytes)
    requires pat <= c
    ensures MatchesAt(a + [SP] + (b + [SP] + c), pat, |a| + 1 + |b| + 1)
  {
    var line := a + [SP] + (b + [SP] + c);
    assert line[|a| + 1 + |b| + 1..] == c;
  }

  lemma NoSlash(name: bytes)
    requires IsToken(name)
    ensures SLASH !in name
  {
  }

  /** The first `HTTP/` of a start line is the one of its version, unless its target holds one. */
  lemma FirstHttp(s: StartLine)
    requires IsStart(s)
    ensures var h := Find(StartText(s), HTTP_SLASH, 0);
            0 <= h <= |StartText(s)| - 8 && (h == |StartText(s)| - 8 <==> Find(s.target, HTTP_SLASH, 0) == -1)
  {
    StartBytes(s);
    HttpSlash();
    NoSlash(s.method_);
    hide IsToken, IsTarget, IsVersion, Find, MatchesAt;
    var v := StartText(s);
    var p := |s.method_| + 1 + |s.target| + 1;
    var h, t := Find(v, HTTP_SLASH, 0), Find(s.target, HTTP_SLASH, 0);
    StartsHttp(s);
    LastMatches(s.method_, s.target, s.version, HTTP_SLASH);
    if 0 <= h < p { WithinParts(s.method_, s.target, s.version, HTTP_SLASH, h); }
    if t != -1 { MiddleMatches(s.method_, s.target, s.version, HTTP_SLASH, t); }
  }

  lemma StartsHttp(s: StartLine)
    requires IsVersion(s.version)
    ensures HTTP_SLASH <= s.version
  {
    assert s.version[..5] == HTTP_SLASH;
  }

  lemma VersionDigits(s: StartLine)
    requires |s.version| == 8
    ensures var p := |StartText(s)| - 8;
            p >= 0 && forall k :: 0 <= k < 8 ==> StartText(s)[p + k] == s.version[k]
  {
  }

  /** A line that declares HTTP/1.1 or newer is taken for one unless its target holds `HTTP/` itself. */
  lemma StartVersionExact(s: StartLine, cr: bytes)
    requires IsStart(s) && IsCr(cr)
    ensures VersionAtLeast11(StartText(s) + cr)
            <==> VersionNumber(s.version) >= 11 && Find(s.target, HTTP_SLASH, 0) == -1
  {
    hide IsToken, IsTarget, Find, StripCr, StartText;
    StartBytes(s);
    StripsCr(StartText(s), cr);
    FirstHttp(s);
    VersionDigits(s);
    var v := StartText(s);
    var p := |v| - 8;
    assert v[p + 5] == s.version[5] && v[p + 6] == s.version[6] && v[p + 7] == s.version[7];
  }

  const HIDING: StartLine := StartLine(Ascii("GET"), HTTP_SLASH, Ascii("HTTP/1.1"))
  const HOST_A: Spelled := Spelled(KeepAlive.HOST_FIELD, [], [SP], [])

  /** `GET HTTP/ HTTP/1.1` and a Host line, all lines ended by a bare LF. */
  const BARE_LF: Written := Written(HIDING, [HOST_A], [], NoBody)

  lemma HidingStart()
    ensures IsStart(HIDING) && Find(HIDING.target, HTTP_SLASH, 0) == 0 && VersionNumber(HIDING.version) == 11
    ensures |StartText(HIDING)| == 18
  {
    KeepAlive.GetTokens();
    HttpSlash();
    assert HTTP_SLASH[0..5] == HTTP_SLASH;
    assert HIDING.version[5] == 49 && HIDING.version[7] == 49;
  }

  lemma HostIsSpelled()
    ensures IsSpelled(HOST_A) && FieldLine(HOST_A) == KeepAlive.HOST_LINE && |FieldLine(HOST_A)| == 7
  {
    KeepAlive.HostLineReads();
    var host, line := "Host", "Host: a";
    assert forall i :: 0 <= i < 4 ==> host[i] == line[i] && (host[i] == 'H' || 'a' <= host[i] <= 'z');
    assert line[4] == ':' && line[5] == ' ' && line[6] == 'a';
    assert FieldLine(HOST_A) == HOST + [] + [COLON] + ([SP] + [97] + []);
    assert HOST[0] == 72 && HOST[3] == 116;
  }

  lemma HostCountsOne()
    ensures HostCount([KeepAlive.HOST_FIELD]) == 1
  {
    assert [KeepAlive.HOST_FIELD][..0] == [];
  }

  lemma HostAlone()
    ensures Meant([HOST_A]) == [KeepAlive.HOST_FIELD] && AreSpelled([HOST_A])
    ensures FieldLines([HOST_A]) == [FieldLine(HOST_A)]
    ensures Rows([FieldLine(HOST_A)], []) == [FieldLine(HOST_A)]
  {
    HostIsSpelled();
    hide IsSpelled, FieldLine;
    assert WithCr([], []) == [];
  }

  /** An HTTP/1.1 request with bare LFs throughout that is read all the same, because its target hides the version. */
  lemma BareLfIsRead()
    ensures IsWritten(BARE_LF) && VersionNumber(BARE_LF.start.version) == 11
    ensures WrittenText(BARE_LF) == StartText(HIDING) + [LF] + KeepAlive.HOST_LINE + [LF, LF]
    ensures InspectionOf(WrittenText(BARE_LF)) == Inspection(Complete, |WrittenText(BARE_LF)|)
    ensures RequestOf(WrittenText(BARE_LF)).Some?
  {
    hide IsStart, IsSpelled, FieldLine, StartText, Rows, Coherent, InspectionOf, RequestOf, PathOf, QueryOf,
      VersionAtLeast11, Meant, AreSpelled, FieldLines, HostCount, Find;
    HidingStart();
    HostIsSpelled();
    HostAlone();
    HostCountsOne();
    KeepAlive.HostIsNoFraming();
    StartVersionExact(HIDING, []);
    assert StartText(HIDING) + [] == StartText(HIDING);
    assert LinesShort([FieldLine(HOST_A)]);
    BareText();
    assert WrittenText(BARE_LF) + [] == WrittenText(BARE_LF);
    RequestReads(BARE_LF, []);
  }

  lemma BareText()
    ensures WrittenText(BARE_LF) == StartText(HIDING) + [LF] + KeepAlive.HOST_LINE + [LF, LF]
    ensures |WrittenText(BARE_LF)| == 28
  {
    hide StartText, FieldLine;
    HidingStart();
    HostIsSpelled();
    var texts := [StartText(HIDING), FieldLine(HOST_A)];
    assert Texts(BARE_LF) == texts;
    BodyStep(texts, []);
    BodyOne(texts[1..], []);
    assert StartText(HIDING) + [] == StartText(HIDING);
    var head := StartText(HIDING) + [LF] + FieldLine(HOST_A);
    assert WrittenHead(BARE_LF) == head;
    assert head + Terminator([]) + [] == head + [LF, LF];
  }

  // ---- the Host rule ----------------------------------------------------------------------------------------

  predicate IsHost(f: Field) { IEquals(f.name, Ascii("host")) }

  lemma HostNames(f: Field)
    ensures IsHost(f) <==> IEquals(f.name, HOST)
  {
    SameLetters("host", "Host", f.name);
  }

  /** No field before `n` is a Host field. */
  predicate NoHost(fs: seq<Field>, n: nat)
    requires n <= |fs|
  {
    forall i :: 0 <= i < n ==> !IsHost(fs[i])
  }

  predicate OnlyHostAt(fs: seq<Field>, k: int) {
    0 <= k < |fs| && IsHost(fs[k]) && forall i :: 0 <= i < |fs| && i != k ==> !IsHost(fs[i])
  }

  ghost predicate OneHost(fs: seq<Field>) { exists k :: OnlyHostAt(fs, k) }

  lemma OnlyHostSnoc(init: seq<Field>, f: Field, k: int)
    ensures var fs := init + [f];
            && (NoHost(fs, |fs|) <==> NoHost(init, |init|) && !IsHost(f))
            && (OnlyHostAt(fs, |init|) <==> NoHost(init, |init|) && IsHost(f))
            && (k != |init| ==> (OnlyHostAt(fs, k) <==> OnlyHostAt(init, k) && !IsHost(f)))
  {
    hide IsHost;
    var fs := init + [f];
    assert fs[|init|] == f;
    assert forall i :: 0 <= i < |init| ==> fs[i] == init[i];
  }

  lemma OneHostSnoc(init: seq<Field>, f: Field)
    ensures var fs := init + [f];
            && (NoHost(fs, |fs|) <==> NoHost(init, |init|) && !IsHost(f))
            && (OneHost(fs) <==> if IsHost(f) then NoHost(init, |init|) else OneHost(init))
  {
    hide IsHost, NoHost;
    OnlyHostSnoc(init, f, |init|);
    if OneHost(init) {
      var k :| OnlyHostAt(init, k);
      OnlyHostSnoc(init, f, k);
    }
    if OneHost(init + [f]) {
      var k :| OnlyHostAt(init + [f], k);
      OnlyHostSnoc(init, f, k);
    }
    hide OnlyHostAt;
  }

  lemma {:induction false} HostCountExact(fs: seq<Field>)
    ensures HostCount(fs) == 0 <==> NoHost(fs, |fs|)
    ensures HostCount(fs) == 1 <==> OneHost(fs)
  {
    if fs == [] {
    } else {
      hide OneHost, NoHost, IsHost, IEquals;
      var init, f := fs[..|fs| - 1], fs[|fs| - 1];
      assert fs == init + [f];
      HostCountExact(init);
      HostNames(f);
      OneHostSnoc(init, f);
    }
  }

  /** Exactly one Host field, or, in HTTP/1.0, none. */
  lemma HostRuleExact(fs: seq<Field>, version: bytes)
    requires IsVersion(version)
    ensures HostRule(fs, version) <==> OneHost(fs) || (NoHost(fs, |fs|) && version == Ascii("HTTP/1.0"))
  {
    hide OneHost, HostCount, NoHost;
    HostCountExact(fs);
    assert HTTP_10 <= version <==> version == HTTP_10;
  }
}
