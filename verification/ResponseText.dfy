/** Response heads as a client reads them: every header as it was set, and the defaults of those that were not. */
module ResponseText {
  import opened Bytes
  import opened Head
  import opened RequestText
  import opened Response
  import KeepAlive

  // ---- a head is the lines of its headers --------------------------------------------------------

  function PairLine(h: (bytes, bytes)): bytes { h.0 + COLON_SP + h.1 }

  function PairLines(hs: Headers): seq<bytes> {
    seq(|hs|, i requires 0 <= i < |hs| => PairLine(hs[i]))
  }

  /** A default header, unless the name was set. */
  function DefaultPair(hs: Headers, name: string, value: bytes): Headers {
    if Has(hs, Ascii(name)) then [] else [(Ascii(name), value)]
  }

  function Before(hs: Headers): Headers {
    DefaultPair(hs, "Server", Ascii("Vermell")) + DefaultPair(hs, "Content-Type", Ascii("text/plain"))
  }

  function Behind(hs: Headers, bodySize: nat): Headers {
    DefaultPair(hs, "Content-Length", Decimal(bodySize)) + DefaultPair(hs, "Accept-Ranges", Ascii("bytes"))
    + DefaultPair(hs, "X-Content-Type-Options", Ascii("nosniff"))
    + DefaultPair(hs, "Connection", Ascii("keep-alive"))
  }

  /** Every header the head carries. */
  function Sent(hs: Headers, bodySize: nat): Headers { Before(hs) + hs + Behind(hs, bodySize) }

  lemma PairLinesAdd(a: Headers, b: Headers)
    ensures PairLines(a + b) == PairLines(a) + PairLines(b)
  {
  }

  lemma {:induction false} HeaderTextIs(hs: Headers)
    ensures HeaderText(hs) == PairLines(hs)
  {
    if hs != [] {
      HeaderTextIs(hs[..|hs| - 1]);
      assert hs == hs[..|hs| - 1] + [hs[|hs| - 1]];
    }
  }

  lemma DefaultIs(hs: Headers, name: string, value: bytes)
    ensures Default(hs, name, value) == PairLines(DefaultPair(hs, name, value))
  {
    hide Has;
  }

  lemma HeadLinesAre(code: int, reason: bytes, hs: Headers, bodySize: nat)
    ensures HeadLines(code, reason, hs, bodySize) == [StatusLine(code, reason)] + PairLines(Sent(hs, bodySize))
  {
    hide Default, DefaultPair, HeaderText, PairLines, StatusLine, Decimal, Ascii;
    HeaderTextIs(hs);
    DefaultIs(hs, "Server", Ascii("Vermell"));
    DefaultIs(hs, "Content-Type", Ascii("text/plain"));
    DefaultIs(hs, "Content-Length", Decimal(bodySize));
    DefaultIs(hs, "Accept-Ranges", Ascii("bytes"));
    DefaultIs(hs, "X-Content-Type-Options", Ascii("nosniff"));
    DefaultIs(hs, "Connection", Ascii("keep-alive"));
    var a, b := DefaultPair(hs, "Server", Ascii("Vermell")), DefaultPair(hs, "Content-Type", Ascii("text/plain"));
    var c, d := DefaultPair(hs, "Content-Length", Decimal(bodySize)), DefaultPair(hs, "Accept-Ranges", Ascii("bytes"));
    var e := DefaultPair(hs, "X-Content-Type-Options", Ascii("nosniff"));
    var f := DefaultPair(hs, "Connection", Ascii("keep-alive"));
    PairLinesAdd(a, b);
    PairLinesAdd(a + b, hs);
    PairLinesAdd(c, d);
    PairLinesAdd(c + d, e);
    PairLinesAdd(c + d + e, f);
    PairLinesAdd(a + b + hs, c + d + e + f);
    Regrouped(StatusLine(code, reason), PairLines(a), PairLines(b), PairLines(hs), PairLines(c), PairLines(d),
              PairLines(e), PairLines(f));
  }

  lemma Regrouped<T>(s: T, a: seq<T>, b: seq<T>, h: seq<T>, c: seq<T>, d: seq<T>, e: seq<T>, f: seq<T>)
    ensures [s] + a + b + h + c + d + e + f == [s] + ((a + b) + h + (c + d + e + f))
  {
  }

  /** CRLF behind every line, and an empty line: the form in which the server takes requests apart. */
  lemma {:induction false} JoinedIsEnded(lines: seq<bytes>)
    ensures Joined(lines) == Ended(WithCr(lines, [CR]))
  {
    if lines != [] {
      var init, last := lines[..|lines| - 1], lines[|lines| - 1];
      JoinedIsEnded(init);
      EndedSnoc(WithCr(init, [CR]), last + [CR]);
      assert WithCr(lines, [CR]) == WithCr(init, [CR]) + [last + [CR]];
      assert last + [CR] + [LF] == last + CRLF;
    }
  }

  lemma {:induction false} EndedSnoc(lines: seq<bytes>, last: bytes)
    ensures Ended(lines + [last]) == Ended(lines) + (last + [LF])
  {
    if lines == [] {
      assert lines + [last] == [last];
    } else {
      assert (lines + [last])[1..] == lines[1..] + [last];
      EndedSnoc(lines[1..], last);
    }
  }

  lemma HeadIsBody(lines: seq<bytes>)
    requires lines != []
    ensures Joined(lines) + CRLF == HeadBody(lines, [CR]) + Terminator([CR])
  {
    var init, last := lines[..|lines| - 1], lines[|lines| - 1];
    JoinedIsEnded(init);
    assert Joined(lines) == Joined(init) + last + CRLF;
    hide Joined, Ended, WithCr;
    assert Joined(init) + last + CRLF + CRLF == (Joined(init) + last) + (CRLF + CRLF);
  }

  // ---- which value a name has ----------------------------------------------------------------------

  lemma ValueOfAdd(a: Headers, b: Headers, name: bytes)
    ensures ValueOf(a + b, name) == if ValueOf(a, name).Some? then ValueOf(a, name) else ValueOf(b, name)
  {
    hide IEquals;
    var k, m := IndexOf(a, name), IndexOf(b, name);
    var all := a + b;
    if k < |a| {
      assert all[k] == a[k] && forall i :: 0 <= i < k ==> all[i] == a[i];
      assert IndexOf(all, name) == k;
    } else {
      assert forall i :: 0 <= i < |a| ==> all[i] == a[i];
      assert forall i :: 0 <= i < |b| ==> all[|a| + i] == b[i];
      assert forall i :: |a| <= i < |a| + m ==> all[i] == b[i - |a|];
      if m < |b| { assert all[|a| + m] == b[m]; }
      assert IndexOf(all, name) == |a| + m;
    }
  }

  lemma NamesAgree(a: bytes, b: bytes)
    requires IEquals(a, b)
    ensures forall c :: IEquals(c, a) <==> IEquals(c, b)
  {
  }

  lemma DefaultValue(hs: Headers, own: string, value: bytes, name: bytes)
    ensures ValueOf(DefaultPair(hs, own, value), name) ==
            if IEquals(Ascii(own), name) && ValueOf(hs, name).None? then Some(value) else None
  {
    if IEquals(Ascii(own), name) { NamesAgree(Ascii(own), name); }
    hide IEquals, Ascii;
    assert Has(hs, name) <==> ValueOf(hs, name).Some?;
    assert IEquals(Ascii(own), name) ==> (Has(hs, Ascii(own)) <==> Has(hs, name));
    var pair := DefaultPair(hs, own, value);
    assert pair != [] ==> pair[0] == (Ascii(own), value) && pair[1..] == [];
  }

  /** What a head says of a name that was not set. */
  function DefaultFor(name: bytes, bodySize: nat): Option<bytes> {
    if IEquals(Ascii("Server"), name) then Some(Ascii("Vermell"))
    else if IEquals(Ascii("Content-Type"), name) then Some(Ascii("text/plain"))
    else if IEquals(Ascii("Content-Length"), name) then Some(Decimal(bodySize))
    else if IEquals(Ascii("Accept-Ranges"), name) then Some(Ascii("bytes"))
    else if IEquals(Ascii("X-Content-Type-Options"), name) then Some(Ascii("nosniff"))
    else if IEquals(Ascii("Connection"), name) then Some(Ascii("keep-alive"))
    else None
  }

  lemma BeforeValue(hs: Headers, name: bytes)
    ensures ValueOf(Before(hs), name) ==
            if ValueOf(hs, name).Some? then None
            else if IEquals(Ascii("Server"), name) then Some(Ascii("Vermell"))
            else if IEquals(Ascii("Content-Type"), name) then Some(Ascii("text/plain"))
            else None
  {
    hide ValueOf, IEquals, Ascii, DefaultPair;
    DefaultValue(hs, "Server", Ascii("Vermell"), name);
    DefaultValue(hs, "Content-Type", Ascii("text/plain"), name);
    ValueOfAdd(DefaultPair(hs, "Server", Ascii("Vermell")), DefaultPair(hs, "Content-Type", Ascii("text/plain")), name);
  }

  lemma BehindValue(hs: Headers, bodySize: nat, name: bytes)
    ensures ValueOf(Behind(hs, bodySize), name) ==
            if ValueOf(hs, name).Some? then None
            else if IEquals(Ascii("Content-Length"), name) then Some(Decimal(bodySize))
            else if IEquals(Ascii("Accept-Ranges"), name) then Some(Ascii("bytes"))
            else if IEquals(Ascii("X-Content-Type-Options"), name) then Some(Ascii("nosniff"))
            else if IEquals(Ascii("Connection"), name) then Some(Ascii("keep-alive"))
            else None
  {
    hide ValueOf, IEquals, Ascii, DefaultPair, Decimal;
    var c := DefaultPair(hs, "Content-Length", Decimal(bodySize));
    var d := DefaultPair(hs, "Accept-Ranges", Ascii("bytes"));
    var e := DefaultPair(hs, "X-Content-Type-Options", Ascii("nosniff"));
    var f := DefaultPair(hs, "Connection", Ascii("keep-alive"));
    DefaultValue(hs, "Content-Length", Decimal(bodySize), name);
    DefaultValue(hs, "Accept-Ranges", Ascii("bytes"), name);
    DefaultValue(hs, "X-Content-Type-Options", Ascii("nosniff"), name);
    DefaultValue(hs, "Connection", Ascii("keep-alive"), name);
    ValueOfAdd(c, d, name);
    ValueOfAdd(c + d, e, name);
    ValueOfAdd(c + d + e, f, name);
  }

  /** A set header is sent with its value, and any other name with its default. */
  lemma SentValue(hs: Headers, bodySize: nat, name: bytes)
    ensures ValueOf(Sent(hs, bodySize), name) ==
            if ValueOf(hs, name).Some? then ValueOf(hs, name) else DefaultFor(name, bodySize)
  {
    hide ValueOf, IEquals, Ascii, Before, Behind, Decimal;
    BeforeValue(hs, name);
    BehindValue(hs, bodySize, name);
    ValueOfAdd(Before(hs), hs, name);
    ValueOfAdd(Before(hs) + hs, Behind(hs, bodySize), name);
  }

  // ---- the head, read back ----------------------------------------------------------------------------

  function FieldsSent(hs: Headers): seq<Field> {
    seq(|hs|, i requires 0 <= i < |hs| => Field(hs[i].0, Trim(hs[i].1)))
  }

  lemma {:induction false} FieldValue(hs: Headers, name: bytes)
    ensures KeepAlive.HeaderValue(FieldsSent(hs), name) ==
            match ValueOf(hs, name) case None => [] case Some(v) => Trim(v)
  {
    hide IEquals, Trim;
    if hs == [] {
    } else if IEquals(hs[0].0, name) {
      assert FieldsSent(hs)[0] == Field(hs[0].0, Trim(hs[0].1));
    } else {
      assert FieldsSent(hs)[1..] == FieldsSent(hs[1..]);
      FieldValue(hs[1..], name);
      assert FieldsSent(hs)[0].name == hs[0].0;
      var k := IndexOf(hs[1..], name);
      assert IndexOf(hs, name) == k + 1;
      assert k < |hs[1..]| ==> hs[k + 1] == hs[1..][k];
    }
  }

  lemma TrimsBlank(v: bytes)
    ensures Trim([SP] + v) == Trim(v)
  {
    var before, after := TrimParts(v);
    hide Trim, AllBlank;
    var core := Trim(v);
    assert [SP] + v == ([SP] + before) + core + after;
    BlankBefore(before);
    TrimReads([SP] + before, core, after);
  }

  lemma BlankBefore(before: bytes)
    requires AllBlank(before)
    ensures AllBlank([SP] + before)
  {
  }

  lemma PairIsText(h: (bytes, bytes))
    requires IsToken(h.0) && IsClean(h.1)
    ensures IsText(PairLine(h)) && PairLine(h) == h.0 + [] + [COLON] + ([SP] + h.1)
  {
    TokenBytes(h.0);
    hide IsToken;
    assert forall i :: 0 <= i < |h.1| ==> !IsDirty(h.1[i]);
  }

  lemma PairReads(h: (bytes, bytes))
    requires IsToken(h.0) && IsClean(h.1)
    ensures IsText(PairLine(h)) && FieldOf(PairLine(h)) == Some(Field(h.0, Trim(h.1)))
  {
    hide IsToken, Trim, FieldOf, IsClean, PairLine;
    PairIsText(h);
    FieldReads(h.0, [], [SP] + h.1);
    TrimsBlank(h.1);
  }

  predicate AllReadable(hs: Headers) {
    forall i :: 0 <= i < |hs| ==> IsToken(hs[i].0) && IsClean(hs[i].1)
  }

  lemma PairsRead(hs: Headers)
    requires AllReadable(hs)
    ensures HoldFields(PairLines(hs), FieldsSent(hs))
  {
    hide IsToken, Trim, FieldOf, PairLine, IsClean;
    forall i | 0 <= i < |hs|
      ensures IsText(PairLines(hs)[i]) && FieldOf(PairLines(hs)[i]) == Some(FieldsSent(hs)[i])
    {
      PairReads(hs[i]);
    }
  }

  lemma LiteralIsReadable(name: string, value: string)
    requires name != ""
    requires forall c :: c in name ==> 'A' <= c <= 'Z' || 'a' <= c <= 'z' || c == '-'
    requires forall c :: c in value ==> ' ' <= c <= '~'
    ensures IsToken(Ascii(name)) && IsClean(Ascii(value))
  {
    forall i | 0 <= i < |name| ensures IsTokenByte(Ascii(name)[i]) { assert name[i] in name; }
    forall i | 0 <= i < |value| ensures !IsDirty(Ascii(value)[i]) { assert value[i] in value; }
  }

  lemma DefaultReadable(hs: Headers, name: string, value: bytes)
    requires IsToken(Ascii(name)) && IsClean(value)
    ensures AllReadable(DefaultPair(hs, name, value))
  {
    hide IsToken, IsClean, Ascii, Has;
  }

  lemma ReadableAdd(a: Headers, b: Headers)
    requires AllReadable(a) && AllReadable(b)
    ensures AllReadable(a + b)
  {
    hide IsToken, IsClean;
  }

  lemma LiteralDefault(hs: Headers, name: string, value: string)
    requires name != ""
    requires forall c :: c in name ==> 'A' <= c <= 'Z' || 'a' <= c <= 'z' || c == '-'
    requires forall c :: c in value ==> ' ' <= c <= '~'
    ensures AllReadable(DefaultPair(hs, name, Ascii(value)))
  {
    hide AllReadable, DefaultPair, Ascii, IsToken, IsClean;
    LiteralIsReadable(name, value);
    DefaultReadable(hs, name, Ascii(value));
  }

  lemma BeforeReadable(hs: Headers)
    ensures AllReadable(Before(hs))
  {
    hide AllReadable, DefaultPair, Ascii;
    LiteralDefault(hs, "Server", "Vermell");
    LiteralDefault(hs, "Content-Type", "text/plain");
    ReadableAdd(DefaultPair(hs, "Server", Ascii("Vermell")), DefaultPair(hs, "Content-Type", Ascii("text/plain")));
  }

  lemma LengthReadable(hs: Headers, bodySize: nat)
    ensures AllReadable(DefaultPair(hs, "Content-Length", Decimal(bodySize)))
  {
    assert IsClean(Decimal(bodySize));
    hide IsToken, IsClean, Ascii, Decimal, AllReadable, DefaultPair;
    LiteralIsReadable("Content-Length", "");
    DefaultReadable(hs, "Content-Length", Decimal(bodySize));
  }

  lemma BehindReadable(hs: Headers, bodySize: nat)
    ensures AllReadable(Behind(hs, bodySize))
  {
    hide AllReadable, DefaultPair, Ascii, Decimal;
    LengthReadable(hs, bodySize);
    LiteralDefault(hs, "Accept-Ranges", "bytes");
    LiteralDefault(hs, "X-Content-Type-Options", "nosniff");
    LiteralDefault(hs, "Connection", "keep-alive");
    var c := DefaultPair(hs, "Content-Length", Decimal(bodySize));
    var d := DefaultPair(hs, "Accept-Ranges", Ascii("bytes"));
    var e := DefaultPair(hs, "X-Content-Type-Options", Ascii("nosniff"));
    ReadableAdd(c, d);
    ReadableAdd(c + d, e);
    ReadableAdd(c + d + e, DefaultPair(hs, "Connection", Ascii("keep-alive")));
  }

  lemma EdgesTrim(v: bytes)
    requires IsTrimmed(v)
    ensures Trim(v) == v
  {
    assert [] + v + [] == v;
    TrimReads([], v, []);
  }

  lemma LiteralTrims(v: string)
    requires v != "" && ' ' < v[0] <= '~' && ' ' < v[|v| - 1] <= '~'
    ensures Trim(Ascii(v)) == Ascii(v)
  {
    assert IsTrimmed(Ascii(v));
    hide Trim, IsTrimmed, Ascii;
    EdgesTrim(Ascii(v));
  }

  /** No default has blanks around it. */
  lemma DefaultsTrimmed(name: bytes, bodySize: nat)
    ensures var v := DefaultFor(name, bodySize); v.Some? ==> Trim(v.value) == v.value
  {
    EdgesTrim(Decimal(bodySize));
    hide Trim, IEquals, Decimal, Ascii;
    LiteralTrims("Vermell");
    LiteralTrims("text/plain");
    LiteralTrims("bytes");
    LiteralTrims("nosniff");
    LiteralTrims("keep-alive");
  }

  lemma SentReadable(hs: Headers, bodySize: nat)
    requires AllReadable(hs)
    ensures AllReadable(Sent(hs, bodySize)) && Sent(hs, bodySize) != []
  {
    assert hs == [] ==> Before(hs) != [];
    hide AllReadable, Before, Behind;
    BeforeReadable(hs);
    BehindReadable(hs, bodySize);
    ReadableAdd(Before(hs), hs);
    ReadableAdd(Before(hs) + hs, Behind(hs, bodySize));
  }

  /**
   * Whatever was set and whatever the body is, the head is read back: behind the status line every name has the value
   * it was set to, without outer blanks, and otherwise its default, of which the Content-Length is the body's size.
   */
  lemma HeadReadBack(code: int, reason: bytes, hs: Headers, body: bytes, name: bytes)
    requires AllClean(hs) && IsClean(reason) && AllReadable(hs)
    ensures var text := HeadText(code, reason, hs, |body|) + body;
            var b := BoundsOf(text);
            b.end != -1 && text[b.end + b.separator..] == body &&
            var head := text[..b.end];
            var fields := FieldsOf(HeaderLines(head));
            && RequestLine(head) == StatusLine(code, reason) + [CR] && fields.Some?
            && KeepAlive.HeaderValue(fields.value, name) ==
               match ValueOf(hs, name)
               case Some(v) => Trim(v)
               case None => match DefaultFor(name, |body|) case Some(v) => v case None => []
  {
    var sent := Sent(hs, |body|);
    var lines := HeadLines(code, reason, hs, |body|);
    hide Sent, DefaultFor, HeadLines, StatusLine, IsToken, IsClean, Trim, ValueOf, FieldsOf, Joined, HeadBody,
      Terminator, BoundsOf, HeaderLines, RequestLine, KeepAlive.HeaderValue, FieldsSent, Rows, PairLines, AllClean;
    SentReadable(hs, |body|);
    PairsRead(sent);
    HeadLinesAre(code, reason, hs, |body|);
    HeadIsLines(code, reason, hs, |body|);
    LinesAreTexts(lines);
    HeadParts(lines, body);
    assert lines[1..] == PairLines(sent);
    RowsHold(PairLines(sent), FieldsSent(sent), [CR]);
    FieldValue(sent, name);
    SentValue(hs, |body|, name);
    DefaultsTrimmed(name, |body|);
  }

  lemma LinesAreTexts(lines: seq<bytes>)
    requires AreLines(lines) && lines != []
    ensures AreTexts(lines)
  {
  }

  /** The lines of a head in front of any body, as the server would take them apart. */
  lemma HeadParts(lines: seq<bytes>, body: bytes)
    requires AreTexts(lines) && |lines| > 1
    ensures var text := Joined(lines) + CRLF + body;
            var b := BoundsOf(text);
            b.end != -1 && text[b.end + b.separator..] == body &&
            var head := text[..b.end];
            RequestLine(head) == lines[0] + [CR] && HeaderLines(head) == Rows(lines[1..], [CR])
  {
    hide BoundsOf, HeadBody, EndsWell, Joined, RequestLine, HeaderLines, Rows, IsText;
    var head := HeadBody(lines, [CR]);
    HeadIsBody(lines);
    BodyEndsWell(lines, [CR]);
    BoundsFound(head, [CR], body);
    LinesWritten(lines, [CR]);
    TerminatorLength();
    hide Terminator;
    var text := head + Terminator([CR]) + body;
    assert text[..|head|] == head && text[|head| + 4..] == body;
  }

  /** The status line: version, code and phrase, with one space between them. */
  lemma StatusReads(code: int, reason: bytes)
    ensures var line, digits := StatusLine(code, reason), SignedDecimal(code);
            && FindByte(line, SP, 0) == 8 && line[..8] == Ascii("HTTP/1.1")
            && FindByte(line, SP, 9) == 9 + |digits| && line[9..9 + |digits|] == digits
            && line[10 + |digits|..] == reason
  {
    var version, text := "HTTP/1.1", "HTTP/1.1 ";
    assert Ascii(text) == Ascii(version) + [SP];
    assert SP !in Ascii(version) by { assert forall i :: 0 <= i < 8 ==> version[i] != ' ' && version[i] < 128 as char; }
    assert SP !in SignedDecimal(code);
    hide SignedDecimal, Ascii;
    var line, digits := StatusLine(code, reason), SignedDecimal(code);
    assert line[0..] == Ascii(version) + [SP] + (digits + [SP] + reason);
    FindByteFrom(line, 0, Ascii(version), SP, digits + [SP] + reason);
    FindByteFrom(line, 9, digits, SP, reason);
    assert line[..8] == line[0..8];
  }
}
