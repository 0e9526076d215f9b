/** Responses: header bookkeeping and the text of a response head. */
module Response {
  import opened Bytes
  import Head

  type Headers = seq<(bytes, bytes)>

  predicate IsDirty(c: byte) {
    c < 32 || c == 127
  }

  predicate IsClean(s: bytes) {
    forall i :: 0 <= i < |s| ==> !IsDirty(s[i])
  }

  /** The part of `s` before its first control byte. */
  function Sanitized(s: bytes): (r: bytes)
    ensures r <= s && IsClean(r) && (|r| < |s| ==> IsDirty(s[|r|]))
  {
    if s == [] || IsDirty(s[0]) then []
    else
      var r := Sanitized(s[1..]);
      assert forall i :: 0 < i <= |r| ==> s[i] == s[1..][i - 1] == r[i - 1];
      [s[0]] + r
  }

  method Sanitize(s: bytes) returns (out: bytes)
    ensures out == Sanitized(s)
  {
    out := [];
    var i := 0;
    while i < |s|
      invariant 0 <= i <= |s| && out == s[..i] && IsClean(out)
    {
      if IsDirty(s[i]) { break; }
      out := out + [s[i]];
      i := i + 1;
    }
    SanitizedIs(s, i);
  }

  lemma SanitizedIs(s: bytes, n: nat)
    requires n <= |s| && IsClean(s[..n]) && (n < |s| ==> IsDirty(s[n]))
    ensures Sanitized(s) == s[..n]
  {
    var r := Sanitized(s);
    assert forall k :: 0 <= k < n ==> s[k] == s[..n][k];
    assert forall k :: 0 <= k < |r| ==> s[k] == r[k];
  }

  // ---- the header list -----------------------------------------------------------------

  predicate Has(hs: Headers, name: bytes) {
    exists i :: 0 <= i < |hs| && IEquals(hs[i].0, name)
  }

  /** Position of the first header called `name`, or `|hs|`. */
  function IndexOf(hs: Headers, name: bytes): (k: nat)
    ensures k <= |hs|
    ensures k < |hs| ==> IEquals(hs[k].0, name)
    ensures forall i :: 0 <= i < k ==> !IEquals(hs[i].0, name)
  {
    if hs == [] || IEquals(hs[0].0, name) then 0
    else
      var k := IndexOf(hs[1..], name);
      assert forall i :: 0 < i <= k && i < |hs| ==> hs[i] == hs[1..][i - 1];
      k + 1
  }

  /** Replaces the value of an existing header in place, or appends a new one. */
  function WithHeader(hs: Headers, name: bytes, value: bytes): Headers {
    var safe := Sanitized(name);
    if safe == [] then hs
    else
      var k := IndexOf(hs, safe);
      if k < |hs| then hs[k := (hs[k].0, Sanitized(value))] else hs + [(safe, Sanitized(value))]
  }

  predicate Unique(hs: Headers) {
    forall i, j :: 0 <= i < j < |hs| ==> !IEquals(hs[i].0, hs[j].0)
  }

  predicate AllClean(hs: Headers) {
    forall i :: 0 <= i < |hs| ==> hs[i].0 != [] && IsClean(hs[i].0) && IsClean(hs[i].1)
  }

  function ValueOf(hs: Headers, name: bytes): Option<bytes> {
    var k := IndexOf(hs, name);
    if k < |hs| then Some(hs[k].1) else None
  }

  lemma SetKeeps(hs: Headers, name: bytes, value: bytes)
    requires Unique(hs) && AllClean(hs)
    ensures Unique(WithHeader(hs, name, value)) && AllClean(WithHeader(hs, name, value))
  {
    var safe := Sanitized(name);
    var k := IndexOf(hs, safe);
    var r := WithHeader(hs, name, value);
    if safe != [] {
      forall i, j | 0 <= i < j < |r| ensures !IEquals(r[i].0, r[j].0) {
        if j < |hs| { assert r[i].0 == hs[i].0 && r[j].0 == hs[j].0; }
      }
    }
  }

  /** After `set`, the name has the new value and every other name keeps its own. */
  lemma SetReads(hs: Headers, name: bytes, value: bytes, other: bytes)
    requires Sanitized(name) != []
    ensures ValueOf(WithHeader(hs, name, value), other) ==
            if IEquals(Sanitized(name), other) then Some(Sanitized(value)) else ValueOf(hs, other)
  {
    var safe := Sanitized(name);
    var r := WithHeader(hs, name, value);
    var k := IndexOf(hs, safe);
    var m := IndexOf(hs, other);
    assert forall i :: 0 <= i < |hs| ==> r[i].0 == hs[i].0;
    if IEquals(safe, other) {
      assert forall i :: 0 <= i < k ==> !IEquals(hs[i].0, safe) && r[i].0 == hs[i].0;
      assert IEquals(r[k].0, other);
      assert IndexOf(r, other) == k;
    } else if m < |hs| {
      assert m != k by { if m == k { assert IEquals(safe, other); } }
      assert IndexOf(r, other) == m;
    } else {
      assert k < |hs| || r[k].0 == safe;
      assert IndexOf(r, other) == |r|;
    }
  }

  /** A set moves nothing: what stood in the list keeps its place and its spelling, and a new name comes last. */
  lemma SetKeepsOrder(hs: Headers, name: bytes, value: bytes)
    ensures var r := WithHeader(hs, name, value);
            var safe := Sanitized(name);
            && |r| == |hs| + (if safe != [] && !Has(hs, safe) then 1 else 0)
            && (forall i :: 0 <= i < |hs| ==> r[i].0 == hs[i].0 && (r[i] == hs[i] || IEquals(hs[i].0, safe)))
            && (|r| > |hs| ==> r[|hs|] == (safe, Sanitized(value)))
  {
    hide IEquals;
    var safe := Sanitized(name);
    assert Has(hs, safe) <==> IndexOf(hs, safe) < |hs|;
  }

  // ---- the head ------------------------------------------------------------------------

  const COLON_SP: bytes := [COLON, SP]

  /** A default header line, present unless the name was set. */
  function Default(hs: Headers, name: string, value: bytes): seq<bytes> {
    if Has(hs, Ascii(name)) then [] else [Ascii(name) + COLON_SP + value]
  }

  function HeaderText(hs: Headers): seq<bytes> {
    if hs == [] then []
    else HeaderText(hs[..|hs| - 1]) + [hs[|hs| - 1].0 + COLON_SP + hs[|hs| - 1].1]
  }

  /** The phrase of the status line is a parameter: any text without control bytes. */
  function StatusLine(code: int, reason: bytes): bytes {
    Ascii("HTTP/1.1 ") + SignedDecimal(code) + [SP] + reason
  }

  /** The lines of a head, without their line ends. */
  function HeadLines(code: int, reason: bytes, hs: Headers, bodySize: nat): seq<bytes> {
    [StatusLine(code, reason)]
    + Default(hs, "Server", Ascii("Vermell"))
    + Default(hs, "Content-Type", Ascii("text/plain"))
    + HeaderText(hs)
    + Default(hs, "Content-Length", Decimal(bodySize))
    + Default(hs, "Accept-Ranges", Ascii("bytes"))
    + Default(hs, "X-Content-Type-Options", Ascii("nosniff"))
    + Default(hs, "Connection", Ascii("keep-alive"))
  }

  function Joined(lines: seq<bytes>): bytes {
    if lines == [] then [] else Joined(lines[..|lines| - 1]) + lines[|lines| - 1] + CRLF
  }

  function HeadText(code: int, reason: bytes, hs: Headers, bodySize: nat): bytes {
    Joined(HeadLines(code, reason, hs, bodySize)) + CRLF
  }

  class Response {
    var code: int
    var headers: Headers
    var body: bytes

    ghost predicate Valid()
      reads this
    {
      Unique(headers) && AllClean(headers)
    }

    constructor ()
      ensures Valid() && headers == [] && code == 200 && body == []
    {
      code, headers, body := 200, [], [];
    }

    method Set(name: bytes, value: bytes)
      requires Valid()
      modifies this`headers
      ensures Valid() && headers == WithHeader(old(headers), name, value)
    {
      SetKeeps(headers, name, value);
      var safeName := Sanitize(name);
      var safeValue := Sanitize(value);
      if safeName == [] { return; }
      var i := 0;
      while i < |headers|
        invariant 0 <= i <= |headers| && headers == old(headers)
        invariant forall j :: 0 <= j < i ==> !IEquals(headers[j].0, safeName)
      {
        if IEquals(headers[i].0, safeName) {
          assert IndexOf(headers, safeName) == i;
          headers := headers[i := (headers[i].0, safeValue)];
          return;
        }
        i := i + 1;
      }
      headers := headers + [(safeName, safeValue)];
    }

    /** Appends a default line unless the application set that header. */
    method AppendDefault(out: bytes, ghost lines: seq<bytes>, name: string, value: bytes) returns (r: bytes)
      requires out == Joined(lines)
      ensures r == Joined(lines + Default(headers, name, value))
    {
      r := out;
      if !Has(headers, Ascii(name)) {
        r := r + (Ascii(name) + COLON_SP + value) + CRLF;
        JoinedSnoc(lines, Ascii(name) + COLON_SP + value);
      } else {
        assert lines + [] == lines;
      }
    }

    method Head(reason: bytes) returns (out: bytes)
      ensures out == HeadText(code, reason, headers, |body|)
    {
      hide Joined, Default, HeaderText, StatusLine;
      ghost var lines := [StatusLine(code, reason)];
      out := StatusLine(code, reason) + CRLF;
      JoinedOne(StatusLine(code, reason));
      out := AppendDefault(out, lines, "Server", Ascii("Vermell"));
      lines := lines + Default(headers, "Server", Ascii("Vermell"));
      out := AppendDefault(out, lines, "Content-Type", Ascii("text/plain"));
      lines := lines + Default(headers, "Content-Type", Ascii("text/plain"));
      out := AppendHeaders(out, lines);
      lines := lines + HeaderText(headers);
      out := AppendDefault(out, lines, "Content-Length", Decimal(|body|));
      lines := lines + Default(headers, "Content-Length", Decimal(|body|));
      out := AppendDefault(out, lines, "Accept-Ranges", Ascii("bytes"));
      lines := lines + Default(headers, "Accept-Ranges", Ascii("bytes"));
      out := AppendDefault(out, lines, "X-Content-Type-Options", Ascii("nosniff"));
      lines := lines + Default(headers, "X-Content-Type-Options", Ascii("nosniff"));
      out := AppendDefault(out, lines, "Connection", Ascii("keep-alive"));
      lines := lines + Default(headers, "Connection", Ascii("keep-alive"));
      out := out + CRLF;
    }

    method AppendHeaders(out: bytes, ghost lines: seq<bytes>) returns (r: bytes)
      requires out == Joined(lines)
      ensures r == Joined(lines + HeaderText(headers))
    {
      r := out;
      assert headers[..0] == [] && lines + [] == lines;
      for i := 0 to |headers|
        invariant r == Joined(lines + HeaderText(headers[..i]))
      {
        var line := headers[i].0 + COLON_SP + headers[i].1;
        r := r + line + CRLF;
        assert headers[..i + 1][..i] == headers[..i];
        assert lines + HeaderText(headers[..i + 1]) == (lines + HeaderText(headers[..i])) + [line];
        JoinedSnoc(lines + HeaderText(headers[..i]), line);
      }
      assert headers[..|headers|] == headers;
    }
  }

  lemma JoinedSnoc(lines: seq<bytes>, line: bytes)
    ensures Joined(lines + [line]) == Joined(lines) + line + CRLF
  {
    assert (lines + [line])[..|lines + [line]| - 1] == lines;
  }

  lemma JoinedOne(line: bytes)
    ensures Joined([line]) == line + CRLF
  {
    assert [line][..0] == [];
  }

  // ---- the head delimits itself ------------------------------------------------------------

  /** A line that no reader can split or mistake for the end of the head. */
  predicate IsLine(s: bytes) {
    s != [] && CR !in s && LF !in s
  }

  predicate AreLines(lines: seq<bytes>) {
    forall i :: 0 <= i < |lines| ==> IsLine(lines[i])
  }

  /** No terminator starts inside the lines, and none ends right after them. */
  lemma {:induction false} NoEarlyTerminator(lines: seq<bytes>, i: nat)
    requires AreLines(lines)
    ensures lines != [] ==> |Joined(lines)| >= 3
    ensures i < |Joined(lines)| ==> !Head.TerminatorAt(Joined(lines), i)
    ensures lines != [] ==> Joined(lines)[|Joined(lines)| - 2..] == CRLF
    ensures lines != [] ==> var t := Joined(lines); t[|t| - 3] != CR && t[|t| - 3] != LF
    decreases |lines|
  {
    var t := Joined(lines);
    if lines != [] {
      var init, line := lines[..|lines| - 1], lines[|lines| - 1];
      var u := Joined(init);
      assert t == u + line + CRLF;
      NoEarlyTerminator(init, i);
      Head.TerminatorShapes(t, i);
      Head.TerminatorShapes(u, i);
      if i < |t| {
        if |u| <= i < |u| + |line| { assert t[i] == line[i - |u|]; }
        else if i < |u| {
          assert t[i] == u[i];
          assert t[|u|] == line[0];
          if i + 4 <= |u| { assert u[i + 1] == t[i + 1] && u[i + 2] == t[i + 2] && u[i + 3] == t[i + 3]; }
          else {
            assert init != [];
            assert u[|u| - 2..][0] == CR && u[|u| - 2..][1] == LF;
            assert t[|u| - 1] == LF && t[|u| - 2] == CR && t[|u| - 3] == u[|u| - 3];
          }
        }
      }
    }
  }

  /** Clean lines joined by CRLF and closed by an empty line end where the head ends, whatever follows. */
  lemma JoinedTerminates(lines: seq<bytes>, rest: bytes)
    requires AreLines(lines) && lines != []
    ensures var head := Joined(lines) + CRLF;
            Head.BoundsOf(head + rest) == Head.Bounds(|head| - 4, 4)
  {
    var t := Joined(lines);
    var s := t + CRLF + rest;
    NoEarlyTerminator(lines, 0);
    assert t[|t| - 2..][0] == CR && t[|t| - 2..][1] == LF;
    forall i: nat | i < |t| - 2 ensures !Head.TerminatorAt(s, i) {
      NoEarlyTerminator(lines, i);
      Head.TerminatorShapes(s, i);
      Head.TerminatorShapes(t, i);
      assert s[i] == t[i] && s[i + 1] == t[i + 1] && s[i + 2] == t[i + 2];
    }
    Head.TerminatorShapes(s, |t| - 2);
    Head.BoundsAre(s, |t| - 2, 4);
  }

  lemma LiteralLine(s: string)
    requires IsOneLine(s)
    ensures CR !in Ascii(s) && LF !in Ascii(s)
  {
    forall i | 0 <= i < |s| ensures Ascii(s)[i] >= 32 {
      assert s[i] in s;
    }
  }

  predicate IsOneLine(s: string) {
    forall c | c in s :: 32 <= c as int
  }

  lemma DefaultIsLine(hs: Headers, name: string, value: bytes)
    requires IsOneLine(name)
    requires CR !in value && LF !in value
    ensures AreLines(Default(hs, name, value))
  {
    LiteralLine(name);
  }

  lemma {:induction false} HeaderTextIsLines(hs: Headers)
    requires AllClean(hs)
    ensures AreLines(HeaderText(hs))
  {
    if hs != [] {
      HeaderTextIsLines(hs[..|hs| - 1]);
      var h := hs[|hs| - 1];
      assert IsClean(h.0) && IsClean(h.1);
    }
  }

  lemma DigitsOneLine(n: int)
    ensures CR !in SignedDecimal(n) && LF !in SignedDecimal(n)
  {
  }

  lemma HeadIsLines(code: int, reason: bytes, hs: Headers, bodySize: nat)
    requires AllClean(hs) && IsClean(reason)
    ensures AreLines(HeadLines(code, reason, hs, bodySize))
  {
    StatusPrefix();
    DigitsOneLine(code);
    hide SignedDecimal, Ascii, IsOneLine, Default, HeaderText;
    assert IsLine(StatusLine(code, reason));
    DefaultsAreLines(hs, bodySize);
    HeaderTextIsLines(hs);
  }

  lemma StatusPrefix()
    ensures var p := Ascii("HTTP/1.1 "); CR !in p && LF !in p
  {
    assert IsOneLine("HTTP/1.1 ");
    LiteralLine("HTTP/1.1 ");
  }

  lemma FixedDefaults(hs: Headers)
    ensures AreLines(Default(hs, "Server", Ascii("Vermell")))
    ensures AreLines(Default(hs, "Content-Type", Ascii("text/plain")))
    ensures AreLines(Default(hs, "Accept-Ranges", Ascii("bytes")))
  {
    hide Default, Ascii;
    LiteralLine("Vermell");
    LiteralLine("text/plain");
    LiteralLine("bytes");
    DefaultIsLine(hs, "Server", Ascii("Vermell"));
    DefaultIsLine(hs, "Content-Type", Ascii("text/plain"));
    DefaultIsLine(hs, "Accept-Ranges", Ascii("bytes"));
  }

  lemma DefaultsAreLines(hs: Headers, bodySize: nat)
    ensures AreLines(Default(hs, "Server", Ascii("Vermell")))
    ensures AreLines(Default(hs, "Content-Type", Ascii("text/plain")))
    ensures AreLines(Default(hs, "Content-Length", Decimal(bodySize)))
    ensures AreLines(Default(hs, "Accept-Ranges", Ascii("bytes")))
    ensures AreLines(Default(hs, "X-Content-Type-Options", Ascii("nosniff")))
    ensures AreLines(Default(hs, "Connection", Ascii("keep-alive")))
  {
    FixedDefaults(hs);
    DigitsOneLine(bodySize);
    NotSigned(bodySize);
    hide Default, Ascii, SignedDecimal, AreLines, Decimal;
    LiteralLine("nosniff");
    LiteralLine("keep-alive");
    DefaultIsLine(hs, "Content-Length", Decimal(bodySize));
    DefaultIsLine(hs, "X-Content-Type-Options", Ascii("nosniff"));
    DefaultIsLine(hs, "Connection", Ascii("keep-alive"));
  }

  lemma NotSigned(n: nat)
    ensures SignedDecimal(n) == Decimal(n)
  {
  }

  /**
   * Whatever headers were set and whatever the body is, the first terminator a
   * reader finds in `head() + body` ends exactly at the end of `head()`.
   */
  lemma HeadDelimitsItself(code: int, reason: bytes, hs: Headers, body: bytes)
    requires AllClean(hs) && IsClean(reason)
    ensures var head := HeadText(code, reason, hs, |body|);
            |head| >= 4 && Head.BoundsOf(head + body) == Head.Bounds(|head| - 4, 4)
  {
    hide HeadLines, Joined;
    var lines := HeadLines(code, reason, hs, |body|);
    HeadIsLines(code, reason, hs, |body|);
    assert lines != [] by { SomeLines(code, reason, hs, |body|); }
    NoEarlyTerminator(lines, 0);
    JoinedTerminates(lines, body);
  }

  lemma SomeLines(code: int, reason: bytes, hs: Headers, bodySize: nat)
    ensures HeadLines(code, reason, hs, bodySize) != []
  {
  }

  /** The header list after any sequence of `set` calls. */
  function AfterSets(sets: seq<(bytes, bytes)>): Headers {
    if sets == [] then []
    else WithHeader(AfterSets(sets[..|sets| - 1]), sets[|sets| - 1].0, sets[|sets| - 1].1)
  }

  lemma {:induction false} SetsKeep(sets: seq<(bytes, bytes)>, code: int, reason: bytes, body: bytes)
    requires IsClean(reason)
    ensures Unique(AfterSets(sets)) && AllClean(AfterSets(sets))
    ensures var head := HeadText(code, reason, AfterSets(sets), |body|);
            |head| >= 4 && Head.BoundsOf(head + body) == Head.Bounds(|head| - 4, 4)
  {
    hide HeadText;
    if sets != [] {
      SetsKeep(sets[..|sets| - 1], code, reason, body);
      SetKeeps(AfterSets(sets[..|sets| - 1]), sets[|sets| - 1].0, sets[|sets| - 1].1);
    }
    HeadDelimitsItself(code, reason, AfterSets(sets), body);
  }
}
