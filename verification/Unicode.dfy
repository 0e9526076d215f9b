/** `\u` escapes: UTF-16 code units, scalars and their UTF-8 form. */
module Unicode {
  import opened Bytes

  predicate IsHighSurrogate(u: nat) { 0xD800 <= u <= 0xDBFF }
  predicate IsLowSurrogate(u: nat) { 0xDC00 <= u <= 0xDFFF }

  predicate IsScalar(cp: nat) {
    cp <= 0x10FFFF && !IsHighSurrogate(cp) && !IsLowSurrogate(cp)
  }

  function JoinSurrogates(high: nat, low: nat): (cp: nat)
    requires IsHighSurrogate(high) && IsLowSurrogate(low)
    ensures 0x10000 <= cp <= 0x10FFFF
  {
    0x10000 + (high - 0xD800) * 0x400 + (low - 0xDC00)
  }

  /** The UTF-8 bytes that `encode_utf8` appends. */
  function Utf8(cp: nat): (r: bytes)
    requires cp <= 0x10FFFF
    ensures 1 <= |r| <= 4
  {
    if cp < 0x80 then [cp]
    else if cp < 0x800 then [0xC0 + cp / 64, 0x80 + cp % 64]
    else if cp < 0x10000 then [0xE0 + cp / 4096, 0x80 + cp / 64 % 64, 0x80 + cp % 64]
    else [0xF0 + cp / 262144, 0x80 + cp / 4096 % 64, 0x80 + cp / 64 % 64, 0x80 + cp % 64]
  }

  // ---- reference definitions -----------------------------------------------------------

  predicate IsTail(b: byte) { 0x80 <= b <= 0xBF }

  /** Payload of a byte whose marker bits are `mark`. */
  function Bits(b: byte, mark: int): int { b - mark }

  /** Section 3 of RFC 3629: the scalar a whole byte string encodes, shortest form only. */
  function DecodeUtf8(s: bytes): Option<nat> {
    if |s| == 1 && s[0] < 0x80 then Some(s[0])
    else if |s| == 2 && 0xC2 <= s[0] <= 0xDF && IsTail(s[1]) then
      Some(Bits(s[0], 0xC0) * 64 + Bits(s[1], 0x80))
    else if |s| == 3 && 0xE0 <= s[0] <= 0xEF && IsTail(s[1]) && IsTail(s[2]) then
      var cp := Bits(s[0], 0xE0) * 4096 + Bits(s[1], 0x80) * 64 + Bits(s[2], 0x80);
      if cp >= 0x800 && IsScalar(cp) then Some(cp) else None
    else if |s| == 4 && 0xF0 <= s[0] <= 0xF4 && IsTail(s[1]) && IsTail(s[2]) && IsTail(s[3]) then
      var cp := Bits(s[0], 0xF0) * 262144 + Bits(s[1], 0x80) * 4096 + Bits(s[2], 0x80) * 64 + Bits(s[3], 0x80);
      if 0x10000 <= cp <= 0x10FFFF then Some(cp) else None
    else None
  }

  /** Section 2.1 of RFC 2781: the surrogate pair of a scalar beyond the first plane. */
  function SplitUtf16(cp: nat): (nat, nat)
    requires 0x10000 <= cp <= 0x10FFFF
  {
    (0xD800 + (cp - 0x10000) / 0x400, 0xDC00 + (cp - 0x10000) % 0x400)
  }

  /** Encoding is exact: it decodes back, and it is the only encoding of the scalar. */
  lemma Utf8Decodes(cp: nat)
    requires IsScalar(cp)
    ensures DecodeUtf8(Utf8(cp)) == Some(cp)
  {
    if cp >= 0x10000 { FourBytes(cp); } else if cp >= 0x800 { ThreeBytes(cp); }
  }

  lemma FourBytes(cp: nat)
    requires 0x10000 <= cp <= 0x10FFFF
    ensures DecodeUtf8(Utf8(cp)) == Some(cp)
  {
    assert cp / 4096 == cp / 64 / 64 && cp / 262144 == cp / 64 / 64 / 64;
    assert cp == cp / 64 * 64 + cp % 64;
    assert cp / 64 == cp / 64 / 64 * 64 + cp / 64 % 64;
  }

  lemma ThreeBytes(cp: nat)
    requires 0x800 <= cp < 0x10000 && IsScalar(cp)
    ensures DecodeUtf8(Utf8(cp)) == Some(cp)
  {
    assert cp / 4096 == cp / 64 / 64;
  }

  lemma Utf8Unique(s: bytes, cp: nat)
    requires DecodeUtf8(s) == Some(cp)
    ensures IsScalar(cp) && s == Utf8(cp)
  {
    if |s| == 4 { FourBytesUnique(s, cp); } else if |s| == 3 { ThreeBytesUnique(s, cp); }
  }

  lemma FourBytesUnique(s: bytes, cp: nat)
    requires |s| == 4 && DecodeUtf8(s) == Some(cp)
    ensures IsScalar(cp) && s == Utf8(cp)
  {
    var a, b, c, d := Bits(s[0], 0xF0), Bits(s[1], 0x80), Bits(s[2], 0x80), Bits(s[3], 0x80);
    assert cp / 64 == a * 4096 + b * 64 + c && cp % 64 == d;
    assert cp / 64 / 64 == a * 64 + b && cp / 64 % 64 == c;
    assert cp / 4096 == cp / 64 / 64;
    assert cp / 262144 == cp / 64 / 64 / 64;
  }

  lemma ThreeBytesUnique(s: bytes, cp: nat)
    requires |s| == 3 && DecodeUtf8(s) == Some(cp)
    ensures IsScalar(cp) && s == Utf8(cp)
  {
    var a, b, c := Bits(s[0], 0xE0), Bits(s[1], 0x80), Bits(s[2], 0x80);
    assert cp / 64 == a * 64 + b && cp % 64 == c;
    assert cp / 4096 == cp / 64 / 64;
  }

  /** Joining a surrogate pair is the inverse of splitting a scalar. */
  lemma SurrogatesInverse(cp: nat, high: nat, low: nat)
    ensures 0x10000 <= cp <= 0x10FFFF ==>
              var (h, l) := SplitUtf16(cp);
              IsHighSurrogate(h) && IsLowSurrogate(l) && JoinSurrogates(h, l) == cp
    ensures IsHighSurrogate(high) && IsLowSurrogate(low) ==> SplitUtf16(JoinSurrogates(high, low)) == (high, low)
  {
  }
}
