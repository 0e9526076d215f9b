/** Byte strings and the few `std::string_view` operations the server relies on. */
module Bytes {

  datatype Option<+T> = None | Some(value: T)

  type byte = b: int | 0 <= b < 256
  type bytes = seq<byte>

  /** `std::string_view::npos`, the largest `size_t`. */
  const NPOS: nat := 0xFFFF_FFFF_FFFF_FFFF

  const TAB: byte := 9
  const LF: byte := 10
  const CR: byte := 13
  const SP: byte := 32
  const QUOTE: byte := 34
  const PERCENT: byte := 37
  const AMPERSAND: byte := 38
  const PLUS: byte := 43
  const DASH: byte := 45
  const SLASH: byte := 47
  const COLON: byte := 58
  const SEMICOLON: byte := 59
  const EQUALS: byte := 61

  const CRLF: bytes := [13, 10]

  /** The bytes of an ASCII literal. */
  function Ascii(s: string): (r: bytes)
    ensures |r| == |s|
  {
    seq(|s|, i requires 0 <= i < |s| => if s[i] < 128 as char then s[i] as int else 63)
  }

  // ---- searching ------------------------------------------------------------

  predicate MatchesAt(s: bytes, pat: bytes, i: int) {
    0 <= i && i + |pat| <= |s| && s[i..i + |pat|] == pat
  }

  /** `s.find(pat, from)`, with -1 for npos. */
  function Find(s: bytes, pat: bytes, from: nat): (r: int)
    ensures r == -1 || (from <= r && MatchesAt(s, pat, r))
    ensures forall i :: from <= i && (r == -1 || i < r) ==> !MatchesAt(s, pat, i)
    decreases |s| - from
  {
    if from + |pat| > |s| then -1
    else if s[from..from + |pat|] == pat then from
    else Find(s, pat, from + 1)
  }

  function FindByte(s: bytes, c: byte, from: nat): (r: int)
    ensures r == -1 || (from <= r < |s| && s[r] == c)
    ensures forall i :: from <= i < |s| && (r == -1 || i < r) ==> s[i] != c
    decreases |s| - from
  {
    if from >= |s| then -1 else if s[from] == c then from else FindByte(s, c, from + 1)
  }

  lemma MatchesTwo(s: bytes, a: byte, b: byte, i: int)
    ensures MatchesAt(s, [a, b], i) <==> 0 <= i && i + 2 <= |s| && s[i] == a && s[i + 1] == b
  {
    if 0 <= i && i + 2 <= |s| {
      assert s[i..i + 2] == [s[i], s[i + 1]];
    }
  }

  lemma MatchesFour(s: bytes, a: byte, b: byte, c: byte, d: byte, i: int)
    ensures MatchesAt(s, [a, b, c, d], i)
            <==> 0 <= i && i + 4 <= |s| && s[i] == a && s[i + 1] == b && s[i + 2] == c && s[i + 3] == d
  {
    if 0 <= i && i + 4 <= |s| {
      assert s[i..i + 4] == [s[i], s[i + 1], s[i + 2], s[i + 3]];
    }
  }

  lemma MatchesAgree(s: bytes, t: bytes, n: nat, pat: bytes, i: int)
    requires n <= |s| && n <= |t| && s[..n] == t[..n] && i + |pat| <= n
    ensures MatchesAt(s, pat, i) == MatchesAt(t, pat, i)
  {
    if 0 <= i {
      assert s[i..i + |pat|] == s[..n][i..i + |pat|];
      assert t[i..i + |pat|] == t[..n][i..i + |pat|];
    }
  }

  /** A search that succeeds inside a common prefix gives the same answer in both strings. */
  lemma FindAgree(s: bytes, t: bytes, n: nat, pat: bytes, from: nat)
    requires n <= |s| && n <= |t| && s[..n] == t[..n]
    requires Find(s, pat, from) != -1 && Find(s, pat, from) + |pat| <= n
    ensures Find(t, pat, from) == Find(s, pat, from)
  {
    var r := Find(s, pat, from);
    forall i | from <= i <= r ensures MatchesAt(s, pat, i) == MatchesAt(t, pat, i) {
      MatchesAgree(s, t, n, pat, i);
    }
    assert MatchesAt(t, pat, r);
  }

  lemma MatchesShift(s: bytes, pat: bytes, k: nat, i: nat)
    requires k <= |s|
    ensures MatchesAt(s[k..], pat, i) == MatchesAt(s, pat, k + i)
  {
    if i + |pat| <= |s| - k {
      var a, b := s[k..][i..i + |pat|], s[k + i..k + i + |pat|];
      assert |a| == |b| && forall j :: 0 <= j < |a| ==> a[j] == b[j];
      assert a == b;
    }
  }

  /** Searching from `k` is searching the suffix. */
  lemma FindShift(s: bytes, pat: bytes, k: nat)
    requires k <= |s|
    ensures Find(s, pat, k) == if Find(s[k..], pat, 0) == -1 then -1 else k + Find(s[k..], pat, 0)
  {
    forall i: nat ensures MatchesAt(s[k..], pat, i) == MatchesAt(s, pat, k + i) {
      MatchesShift(s, pat, k, i);
    }
    var r := Find(s, pat, k);
    if r != -1 {
      assert MatchesAt(s[k..], pat, r - k);
    }
  }

  /** A text without CRLF, followed by CRLF, ends exactly there. */
  predicate NoCrlf(s: bytes) {
    forall i :: 0 <= i && i + 1 < |s| ==> !(s[i] == CR && s[i + 1] == LF)
  }

  lemma FindCrlf(line: bytes, rest: bytes)
    requires NoCrlf(line)
    ensures Find(line + CRLF + rest, CRLF, 0) == |line|
  {
    var s := line + CRLF + rest;
    forall i: nat | i < |line| ensures !MatchesAt(s, CRLF, i) {
      MatchesTwo(s, 13, 10, i);
    }
    MatchesTwo(s, 13, 10, |line|);
  }

  lemma BeforeCrlf(s: bytes)
    requires Find(s, CRLF, 0) != -1
    ensures var e := Find(s, CRLF, 0); NoCrlf(s[..e]) && s == s[..e] + CRLF + s[e + 2..]
  {
    var e := Find(s, CRLF, 0);
    MatchesTwo(s, 13, 10, e);
    forall i | 0 <= i && i + 1 < |s[..e]| ensures !(s[..e][i] == CR && s[..e][i + 1] == LF) {
      MatchesTwo(s, 13, 10, i);
      assert !MatchesAt(s, CRLF, i);
    }
  }

  lemma FindByteFirst(before: bytes, c: byte, rest: bytes)
    requires c !in before
    ensures FindByte(before + [c] + rest, c, 0) == |before|
    ensures FindByte(before, c, 0) == -1
  {
    var s := before + [c] + rest;
    assert forall i :: 0 <= i < |before| ==> s[i] == before[i];
    assert s[|before|] == c;
  }

  lemma FindByteShift(s: bytes, c: byte, k: nat)
    requires k <= |s|
    ensures FindByte(s, c, k) == if FindByte(s[k..], c, 0) == -1 then -1 else k + FindByte(s[k..], c, 0)
  {
    assert forall i :: 0 <= i < |s[k..]| ==> s[k..][i] == s[k + i];
    var r := FindByte(s, c, k);
    if r != -1 { assert s[k..][r - k] == c; }
  }

  /** What stands before the next `c`, and what behind it. */
  lemma FindByteFrom(s: bytes, pos: nat, part: bytes, c: byte, rest: bytes)
    requires pos <= |s| && s[pos..] == part + [c] + rest && c !in part
    ensures pos + |part| < |s| && FindByte(s, c, pos) == pos + |part|
    ensures s[pos..pos + |part|] == part && s[pos + |part| + 1..] == rest
  {
    FindByteFirst(part, c, rest);
    FindByteShift(s, c, pos);
    hide FindByte;
    var t := s[pos..];
    assert t[..|part|] == part && t[|part| + 1..] == rest;
    assert s[pos..pos + |part|] == t[..|part|] && s[pos + |part| + 1..] == t[|part| + 1..];
  }

  lemma FindByteNone(s: bytes, c: byte, pos: nat)
    requires pos <= |s| && c !in s[pos..]
    ensures FindByte(s, c, pos) == -1
  {
    assert forall i :: pos <= i < |s| ==> s[i] == s[pos..][i - pos];
  }

  // ---- text helpers ---------------------------------------------------------

  function AsciiLower(c: byte): byte {
    if 65 <= c <= 90 then c + 32 else c
  }

  /** Equality up to ASCII case. */
  predicate IEquals(a: bytes, b: bytes) {
    |a| == |b| && forall i :: 0 <= i < |a| ==> AsciiLower(a[i]) == AsciiLower(b[i])
  }

  predicate IsBlank(c: byte) {
    c == SP || c == TAB || c == CR || c == LF
  }

  function TrimLeft(s: bytes): (r: bytes)
    ensures r == [] || !IsBlank(r[0])
    ensures |r| <= |s|
  {
    if s != [] && IsBlank(s[0]) then TrimLeft(s[1..]) else s
  }

  function TrimRight(s: bytes): (r: bytes)
    ensures r == [] || !IsBlank(r[|r| - 1])
    ensures r <= s
  {
    if s != [] && IsBlank(s[|s| - 1]) then TrimRight(s[..|s| - 1]) else s
  }

  function Trim(s: bytes): bytes {
    TrimRight(TrimLeft(s))
  }

  predicate AllBlank(s: bytes) {
    forall i :: 0 <= i < |s| ==> IsBlank(s[i])
  }

  predicate IsTrimmed(s: bytes) {
    s != [] ==> !IsBlank(s[0]) && !IsBlank(s[|s| - 1])
  }

  lemma {:induction false} TrimLeftReads(before: bytes, s: bytes)
    requires AllBlank(before) && (s != [] ==> !IsBlank(s[0]))
    ensures TrimLeft(before + s) == s
  {
    if before == [] {
      assert before + s == s;
    } else {
      assert (before + s)[1..] == before[1..] + s;
      TrimLeftReads(before[1..], s);
    }
  }

  lemma {:induction false} TrimRightReads(s: bytes, after: bytes)
    requires AllBlank(after) && (s != [] ==> !IsBlank(s[|s| - 1]))
    ensures TrimRight(s + after) == s
    decreases |after|
  {
    if after == [] {
      assert s + after == s;
    } else {
      assert (s + after)[..|s + after| - 1] == s + after[..|after| - 1];
      TrimRightReads(s, after[..|after| - 1]);
    }
  }

  /** Blanks around a trimmed text are taken off, and nothing else. */
  lemma TrimReads(before: bytes, s: bytes, after: bytes)
    requires AllBlank(before) && IsTrimmed(s) && AllBlank(after)
    ensures Trim(before + s + after) == s
  {
    if s == [] {
      assert before + s + after == (before + after) + [];
      TrimLeftReads(before + after, []);
    } else {
      assert before + s + after == before + (s + after);
      TrimLeftReads(before, s + after);
      TrimRightReads(s, after);
    }
  }

  lemma {:induction false} TrimLeftParts(s: bytes) returns (before: bytes)
    ensures s == before + TrimLeft(s) && AllBlank(before)
  {
    before := [];
    if s != [] && IsBlank(s[0]) {
      var b := TrimLeftParts(s[1..]);
      before := [s[0]] + b;
    }
  }

  lemma {:induction false} TrimRightParts(s: bytes) returns (after: bytes)
    ensures s == TrimRight(s) + after && AllBlank(after)
  {
    after := [];
    if s != [] && IsBlank(s[|s| - 1]) {
      var a := TrimRightParts(s[..|s| - 1]);
      after := a + [s[|s| - 1]];
    }
  }

  /** What is taken off are blanks. */
  lemma TrimParts(s: bytes) returns (before: bytes, after: bytes)
    ensures s == before + Trim(s) + after && AllBlank(before) && AllBlank(after) && IsTrimmed(Trim(s))
  {
    before := TrimLeftParts(s);
    after := TrimRightParts(TrimLeft(s));
  }

  predicate IsDigit(c: byte) {
    48 <= c <= 57
  }

  predicate AllDigits(s: bytes) {
    forall i :: 0 <= i < |s| ==> IsDigit(s[i])
  }

  /** The number a decimal numeral denotes. */
  function DecimalValue(s: bytes): nat
    requires AllDigits(s)
  {
    if s == [] then 0 else DecimalValue(s[..|s| - 1]) * 10 + (s[|s| - 1] - 48)
  }

  /** `std::to_chars` of a non-negative number. */
  function Decimal(n: nat): (r: bytes)
    ensures r != [] && AllDigits(r) && DecimalValue(r) == n
    ensures n > 0 ==> r[0] != 48
    ensures n == 0 ==> r == [48]
  {
    if n < 10 then [48 + n]
    else
      var r := Decimal(n / 10) + [48 + n % 10];
      assert r[..|r| - 1] == Decimal(n / 10);
      r
  }

  /** `std::to_chars` of a signed number. */
  function SignedDecimal(n: int): bytes {
    if n < 0 then [DASH] + Decimal(-n) else Decimal(n)
  }

  /** A decimal numeral of `n`, which a `size_t` can hold; leading zeros are allowed. */
  predicate DenotesSize(s: bytes, n: nat) {
    s != [] && AllDigits(s) && DecimalValue(s) == n <= NPOS
  }

  /** `std::from_chars` into a `size_t` that has to consume the whole text. */
  function SizeOf(s: bytes): (r: Option<nat>)
    ensures r.Some? ==> DenotesSize(s, r.value)
    ensures r.None? ==> forall n: nat :: !DenotesSize(s, n)
  {
    if s != [] && AllDigits(s) && DecimalValue(s) <= NPOS then Some(DecimalValue(s)) else None
  }

  /** Value of a hexadecimal digit, -1 for any other byte. */
  function HexDigit(c: byte): (r: int)
    ensures -1 <= r < 16
  {
    if 48 <= c <= 57 then c - 48
    else if 97 <= c <= 102 then c - 87
    else if 65 <= c <= 70 then c - 55
    else -1
  }

  predicate AllHex(s: bytes) {
    forall i :: 0 <= i < |s| ==> HexDigit(s[i]) >= 0
  }

  /** The number a hexadecimal numeral denotes. */
  function HexValue(s: bytes): nat
    requires AllHex(s)
  {
    if s == [] then 0 else HexValue(s[..|s| - 1]) * 16 + HexDigit(s[|s| - 1])
  }

  /** A hexadecimal numeral of `n`. */
  function Hexadecimal(n: nat): (r: bytes)
    ensures r != [] && AllHex(r) && HexValue(r) == n
  {
    HexDigitsExact(Ascii("0123456789abcdef")[n % 16], n % 16);
    var last := [Ascii("0123456789abcdef")[n % 16]];
    if n < 16 then last
    else
      var more := Hexadecimal(n / 16);
      assert (more + last)[..|more|] == more;
      more + last
  }

  // ---- the character classes, spelled out ----------------------------------------------------

  lemma AsciiHas(s: string, c: byte)
    requires forall i :: 0 <= i < |s| ==> s[i] < 128 as char
    ensures c in Ascii(s) <==> exists i :: 0 <= i < |s| && s[i] as int == c
  {
    if c in Ascii(s) {
      var i :| 0 <= i < |s| && Ascii(s)[i] == c;
    }
    if exists i :: 0 <= i < |s| && s[i] as int == c {
      var i :| 0 <= i < |s| && s[i] as int == c;
      assert Ascii(s)[i] == c;
    }
  }

  /** Two literals that differ at most in case are equal to the same texts up to case. */
  lemma SameLetters(lower: string, mixed: string, name: bytes)
    requires |lower| == |mixed|
    requires forall i :: 0 <= i < |lower| ==>
               lower[i] < 128 as char && mixed[i] < 128 as char
               && (lower[i] == mixed[i] || ('A' <= mixed[i] <= 'Z' && mixed[i] as int + 32 == lower[i] as int))
    ensures IEquals(name, Ascii(lower)) <==> IEquals(name, Ascii(mixed))
  {
    assert forall i :: 0 <= i < |lower| ==> AsciiLower(Ascii(lower)[i]) == AsciiLower(Ascii(mixed)[i]);
  }

  lemma BlanksAndDigits(c: byte)
    ensures IsBlank(c) <==> c in Ascii(" \t\r\n")
    ensures IsDigit(c) <==> c in Ascii("0123456789")
  {
    var blanks, digits := " \t\r\n", "0123456789";
    AsciiHas(blanks, c);
    AsciiHas(digits, c);
    assert blanks[0] as int == SP && blanks[1] as int == TAB && blanks[2] as int == CR && blanks[3] as int == LF;
    assert forall i :: 0 <= i < 10 ==> digits[i] as int == 48 + i;
    if IsDigit(c) { assert digits[c - 48] as int == c; }
  }

  lemma HexDigitsExact(c: byte, d: nat)
    requires d < 16
    ensures HexDigit(c) == d <==> c == Ascii("0123456789abcdef")[d] || c == Ascii("0123456789ABCDEF")[d]
  {
    var lower, upper := "0123456789abcdef", "0123456789ABCDEF";
    assert forall i :: 0 <= i < 10 ==> lower[i] as int == 48 + i && upper[i] as int == 48 + i;
    assert forall i :: 10 <= i < 16 ==> lower[i] as int == 87 + i && upper[i] as int == 55 + i;
  }

  lemma LowerExact(c: byte)
    ensures AsciiLower(c) == if 'A' as int <= c <= 'Z' as int then c - 'A' as int + 'a' as int else c
  {
  }

  // ---- lists of byte strings --------------------------------------------------

  function Concat(parts: seq<bytes>): bytes {
    if parts == [] then [] else parts[0] + Concat(parts[1..])
  }

  lemma {:induction false} ConcatSnoc(parts: seq<bytes>, last: bytes)
    ensures Concat(parts + [last]) == Concat(parts) + last
  {
    if parts == [] {
      assert parts + [last] == [last] && [last][1..] == [];
    } else {
      assert (parts + [last])[1..] == parts[1..] + [last];
      ConcatSnoc(parts[1..], last);
    }
  }
}
