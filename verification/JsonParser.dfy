/** The recursive-descent JSON parser: its meaning on the rest of the input, and the cursor class. */
module JsonParser {
  import opened Bytes
  import opened Unicode
  import opened Json

  datatype Parsed<+T> = Fail | Ok(value: T, used: nat)

  // ---- meaning of each production, on the text that is left ---------------------------------

  function WsRun(s: bytes): (r: nat)
    ensures r <= |s| && IsWs(s[..r]) && (r < |s| ==> !IsWsByte(s[r]))
  {
    if s != [] && IsWsByte(s[0]) then
      var r := WsRun(s[1..]);
      assert forall k :: 1 <= k <= r ==> s[k] == s[1..][..r][k - 1];
      r + 1
    else 0
  }

  lemma WsStep(s: bytes, pos: nat)
    requires pos < |s|
    ensures WsRun(s[pos..]) == if IsWsByte(s[pos]) then 1 + WsRun(s[pos + 1..]) else 0
  {
    assert s[pos..][1..] == s[pos + 1..];
  }

  function DigitRun(s: bytes): (r: nat)
    ensures r <= |s| && AllDigits(s[..r]) && (r < |s| ==> !IsDigit(s[r]))
  {
    if s != [] && IsDigit(s[0]) then
      var r := DigitRun(s[1..]);
      assert forall k :: 1 <= k <= r ==> s[k] == s[1..][..r][k - 1];
      r + 1
    else 0
  }

  predicate StartsWith(s: bytes, c: byte) { s != [] && s[0] == c }

  function Hex4Of(s: bytes): Parsed<nat> {
    if |s| >= 4 && IsHex4(s[..4]) then Ok(Hex4Value(s[..4]), 4) else Fail
  }

  /** A `\uXXXX` escape after its `\u`, with surrogate pairs joined. */
  function CodePointOf(s: bytes): (r: Parsed<nat>)
    ensures r.Ok? ==> IsScalar(r.value) && 4 <= r.used <= |s|
  {
    var high := Hex4Of(s);
    if high.Fail? then Fail
    else if IsHighSurrogate(high.value) then
      if |s| < 6 || s[4] != BACKSLASH || s[5] != 117 then Fail
      else
        var low := Hex4Of(s[6..]);
        if low.Fail? || !IsLowSurrogate(low.value) then Fail
        else Ok(JoinSurrogates(high.value, low.value), 10)
    else if IsLowSurrogate(high.value) then Fail
    else high
  }

  /** Byte a short escape stands for, -1 when the letter is no short escape. */
  function ShortValue(letter: byte): int {
    match letter
    case 34 => 34
    case 92 => 92
    case 47 => 47
    case 98 => 8
    case 102 => 12
    case 110 => 10
    case 114 => 13
    case 116 => 9
    case _ => -1
  }

  /** One character of a string, and what it stands for. */
  function CharOf(s: bytes): (r: Parsed<bytes>)
    requires s != [] && s[0] != QUOTE
    ensures r.Ok? ==> 1 <= r.used <= |s|
  {
    if s[0] == BACKSLASH then
      if |s| < 2 then Fail
      else if s[1] == 117 then
        match CodePointOf(s[2..])
        case Fail => Fail
        case Ok(cp, n) => Ok(Utf8(cp), n + 2)
      else if ShortValue(s[1]) >= 0 then Ok([ShortValue(s[1])], 2)
      else Fail
    else if s[0] < 32 then Fail
    else Ok([s[0]], 1)
  }

  function Joined(a: bytes, n: nat, r: Parsed<bytes>): Parsed<bytes> {
    match r
    case Fail => Fail
    case Ok(b, m) => Ok(a + b, n + m)
  }

  /** Characters up to and including the closing quote. */
  function CharsOf(s: bytes): (r: Parsed<bytes>)
    ensures r.Ok? ==> 1 <= r.used <= |s|
    decreases |s|
  {
    if s == [] then Fail
    else if s[0] == QUOTE then Ok([], 1)
    else
      var c := CharOf(s);
      if c.Fail? then Fail else Joined(c.value, c.used, CharsOf(s[c.used..]))
  }

  function StringOf(s: bytes): (r: Parsed<bytes>)
    ensures r.Ok? ==> 2 <= r.used <= |s|
  {
    if StartsWith(s, QUOTE) then Joined([], 1, CharsOf(s[1..])) else Fail
  }

  /** Length of `-? int`, -1 when there is none. */
  function WholeLength(s: bytes): (r: int)
    ensures r == -1 || 1 <= r <= |s|
  {
    var i := if StartsWith(s, DASH) then 1 else 0;
    if StartsWith(s[i..], ZERO) then
      if i + 1 < |s| && IsDigit(s[i + 1]) then -1 else i + 1
    else
      var run := DigitRun(s[i..]);
      if run == 0 then -1 else i + run
  }

  /** Length of an optional fraction, -1 when it is malformed. */
  function FracLength(s: bytes): (r: int)
    ensures r == -1 || 0 <= r <= |s|
  {
    if !StartsWith(s, DOT) then 0
    else
      var run := DigitRun(s[1..]);
      if run == 0 then -1 else 1 + run
  }

  predicate IsMark(c: byte) { c == 101 || c == 69 }

  function ExpLength(s: bytes): (r: int)
    ensures r == -1 || 0 <= r <= |s|
  {
    if s == [] || !IsMark(s[0]) then 0
    else
      var i := if |s| > 1 && (s[1] == PLUS || s[1] == DASH) then 2 else 1;
      var run := DigitRun(s[i..]);
      if run == 0 then -1 else i + run
  }

  datatype Scan = Scan(length: int, isReal: bool)

  /** The longest numeral at the front; length -1 when it is malformed. */
  function NumberScan(s: bytes): (r: Scan)
    ensures r.length == -1 || 1 <= r.length <= |s|
  {
    var w := WholeLength(s);
    if w == -1 then Scan(-1, false)
    else
      var f := FracLength(s[w..]);
      if f == -1 then Scan(-1, false)
      else
        var e := ExpLength(s[w + f..]);
        if e == -1 then Scan(-1, false) else Scan(w + f + e, f != 0 || e != 0)
  }

  /** `std::from_chars` into an int64, for a token made of an optional minus and digits. */
  function Int64Of(token: bytes): Option<int64> {
    var digits := if StartsWith(token, DASH) then token[1..] else token;
    if !IsDigits(digits) then None
    else
      var v := if StartsWith(token, DASH) then 0 - DecimalValue(digits) else DecimalValue(digits);
      if FitsInt64(v) then Some(v) else None
  }

  function NumberOf(s: bytes, finite: bytes -> bool): (r: Parsed<Value>)
    ensures r.Ok? ==> 1 <= r.used <= |s|
  {
    var scan := NumberScan(s);
    if scan.length == -1 then Fail
    else
      var token := s[..scan.length];
      if !scan.isReal && Int64Of(token).Some? then Ok(Int(Int64Of(token).value), scan.length)
      else if finite(token) then Ok(Double(token), scan.length)
      else Fail
  }

  function LiteralOf(s: bytes, literal: bytes, v: Value): Parsed<Value> {
    if literal <= s then Ok(v, |literal|) else Fail
  }

  function Wrapped<T>(r: Parsed<T>, n: nat, f: T -> Value): Parsed<Value> {
    match r
    case Fail => Fail
    case Ok(v, m) => Ok(f(v), n + m)
  }

  function ValueOf(s: bytes, depth: nat, finite: bytes -> bool): (r: Parsed<Value>)
    ensures r.Ok? ==> 1 <= r.used <= |s|
    decreases |s|, 0
  {
    if depth > MAX_DEPTH || s == [] then Fail
    else match s[0]
      case 110 => LiteralOf(s, NULL_TEXT, Null)
      case 116 => LiteralOf(s, TRUE_TEXT, Bool(true))
      case 102 => LiteralOf(s, FALSE_TEXT, Bool(false))
      case 34 => Wrapped(StringOf(s), 0, t => Str(t))
      case 91 =>
        var w := 1 + WsRun(s[1..]);
        if StartsWith(s[w..], RBRACKET) then Ok(Arr([]), w + 1)
        else Wrapped(ItemsOf(s[w..], depth, finite), w, vs => Arr(vs))
      case 123 =>
        var w := 1 + WsRun(s[1..]);
        if StartsWith(s[w..], RBRACE) then Ok(Obj([]), w + 1)
        else Wrapped(MembersOf(s[w..], depth, finite), w, ms => Obj(ms))
      case _ => NumberOf(s, finite)
  }

  function After<T>(first: seq<T>, n: nat, rest: Parsed<seq<T>>): Parsed<seq<T>> {
    match rest
    case Fail => Fail
    case Ok(more, m) => Ok(first + more, n + m)
  }

  /** Items up to and including the closing bracket of an array at `depth`. */
  function ItemsOf(s: bytes, depth: nat, finite: bytes -> bool): (r: Parsed<seq<Value>>)
    ensures r.Ok? ==> 1 <= r.used <= |s|
    decreases |s|, 1
  {
    var w := WsRun(s);
    match ValueOf(s[w..], depth + 1, finite)
    case Fail => Fail
    case Ok(v, n) => ItemsTail(s, 0, w + n, v, depth, finite)
  }

  /** What follows item `v`, read from `start` and ended at `a`. */
  function ItemsTail(s: bytes, start: nat, a: nat, v: Value, depth: nat, finite: bytes -> bool): (r: Parsed<seq<Value>>)
    requires start <= a <= |s|
    ensures r.Ok? ==> a - start < r.used <= |s| - start
    decreases |s|, 0
  {
    var e := a + WsRun(s[a..]);
    if StartsWith(s[e..], COMMA) then
      After([v], e + 1 - start, ItemsOf(s[e + 1..], depth, finite))
    else if StartsWith(s[e..], RBRACKET) then Ok([v], e + 1 - start)
    else Fail
  }

  /** One `string ws : ws` prefix, white space before it included. */
  function KeyOf(s: bytes): (r: Parsed<bytes>)
    ensures r.Ok? ==> 1 <= r.used <= |s|
  {
    var w := WsRun(s);
    match StringOf(s[w..])
    case Fail => Fail
    case Ok(key, n) => KeyTail(s, 0, w + n, key)
  }

  function KeyTail(s: bytes, start: nat, a: nat, key: bytes): (r: Parsed<bytes>)
    requires start <= a <= |s|
    ensures r.Ok? ==> a - start < r.used <= |s| - start
  {
    var e := a + WsRun(s[a..]);
    if StartsWith(s[e..], COLON) then Ok(key, e + 1 + WsRun(s[e + 1..]) - start) else Fail
  }

  function MembersOf(s: bytes, depth: nat, finite: bytes -> bool): (r: Parsed<seq<Member>>)
    ensures r.Ok? ==> 1 <= r.used <= |s|
    decreases |s|, 1
  {
    match KeyOf(s)
    case Fail => Fail
    case Ok(key, k) =>
      match ValueOf(s[k..], depth + 1, finite)
      case Fail => Fail
      case Ok(v, n) => MembersTail(s, 0, k + n, Member(key, v), depth, finite)
  }

  function MembersTail(s: bytes, start: nat, a: nat, m: Member, depth: nat,
        finite: bytes -> bool): (r: Parsed<seq<Member>>)
    requires start <= a <= |s|
    ensures r.Ok? ==> a - start < r.used <= |s| - start
    decreases |s|, 0
  {
    var e := a + WsRun(s[a..]);
    if StartsWith(s[e..], COMMA) then After([m], e + 1 - start, MembersOf(s[e + 1..], depth, finite))
    else if StartsWith(s[e..], RBRACE) then Ok([m], e + 1 - start)
    else Fail
  }

  function DocumentOf(src: bytes, finite: bytes -> bool): Option<Value> {
    var w := WsRun(src);
    match ValueOf(src[w..], 0, finite)
    case Fail => None
    case Ok(v, n) => if w + n + WsRun(src[w + n..]) == |src| then Some(v) else None
  }

  // ---- the cursor class ----------------------------------------------------------------------

  /** The outcome of a production read from `from`, with the cursor left at `pos`. */
  predicate Reads<T(==)>(p: Parsed<T>, from: nat, pos: nat, r: Option<T>) {
    match p
    case Fail => r == None
    case Ok(v, n) => r == Some(v) && pos == from + n
  }

  /** Reading on from `mid` after `n` bytes is reading the rest. */
  lemma Dropped(s: bytes, from: nat, n: nat)
    requires from + n <= |s|
    ensures s[from..][n..] == s[from + n..]
  {
  }

  class JsonParser {
    const src: bytes
    const finite: bytes -> bool
    var pos: nat

    ghost predicate Valid()
      reads this
    {
      pos <= |src|
    }

    ghost function Rest(): bytes
      reads this
      requires Valid()
    {
      src[pos..]
    }

    constructor (src: bytes, finite: bytes -> bool)
      ensures Valid() && this.src == src && this.finite == finite && pos == 0
    {
      this.src, this.finite, pos := src, finite, 0;
    }

    /** The current byte, NUL at the end of the input. */
    function Peek(): (c: byte)
      reads this
      requires Valid()
      ensures c != 0 ==> StartsWith(Rest(), c)
      ensures forall d: byte :: d != 0 && StartsWith(Rest(), d) ==> c == d
    {
      if pos < |src| then src[pos] else 0
    }

    method SkipWs()
      requires Valid()
      modifies this`pos
      ensures Valid() && pos == old(pos) + WsRun(old(Rest()))
    {
      hide WsRun, IsWs;
      while pos < |src|
        invariant Valid() && pos + WsRun(src[pos..]) == old(pos) + WsRun(old(Rest()))
        decreases |src| - pos
      {
        var c := src[pos];
        WsStep(src, pos);
        if c != SP && c != TAB && c != LF && c != CR { break; }
        pos := pos + 1;
      }
    }

    method Consume(c: byte) returns (ok: bool)
      requires Valid() && c != 0
      modifies this`pos
      ensures Valid() && ok == StartsWith(old(Rest()), c) && pos == old(pos) + if ok then 1 else 0
    {
      ok := Peek() == c;
      if ok { pos := pos + 1; }
    }

    method ConsumeLit(literal: bytes) returns (ok: bool)
      requires Valid()
      modifies this`pos
      ensures Valid() && ok == (literal <= old(Rest())) && pos == old(pos) + if ok then |literal| else 0
    {
      assert pos + |literal| <= |src| ==> Rest()[..|literal|] == src[pos..pos + |literal|];
      ok := pos + |literal| <= |src| && src[pos..pos + |literal|] == literal;
      if ok { pos := pos + |literal|; }
    }

    method ParseHex4() returns (r: Option<nat>)
      requires Valid()
      modifies this`pos
      ensures Valid() && pos >= old(pos) && Reads(Hex4Of(old(Rest())), old(pos), pos, r)
    {
      if pos + 4 > |src| { return None; }
      ghost var digits := src[pos..pos + 4];
      assert old(Rest())[..4] == digits;
      var value := 0;
      for i := 0 to 4
        invariant Valid() && pos == old(pos) + i
        invariant forall k :: 0 <= k < i ==> HexDigit(digits[k]) >= 0
        invariant i == 0 ==> value == 0
        invariant i == 1 ==> value == HexDigit(digits[0])
        invariant i == 2 ==> value == HexDigit(digits[0]) * 16 + HexDigit(digits[1])
        invariant i == 3 ==> value == HexDigit(digits[0]) * 256 + HexDigit(digits[1]) * 16 + HexDigit(digits[2])
        invariant i == 4 ==> value == HexDigit(digits[0]) * 4096 + HexDigit(digits[1]) * 256 + HexDigit(digits[2]) * 16
                                      + HexDigit(digits[3])
      {
        var d := HexDigit(src[pos]);
        assert src[pos] == digits[i];
        pos := pos + 1;
        if d < 0 { return None; }
        value := value * 16 + d;
      }
      r := Some(value);
    }

    method ParseCodepoint() returns (r: Option<nat>)
      requires Valid()
      modifies this`pos
      ensures Valid() && pos >= old(pos) && Reads(CodePointOf(old(Rest())), old(pos), pos, r)
    {
      ghost var s := Rest();
      var high := ParseHex4();
      if high == None { return None; }
      var cp := high.value;
      if IsHighSurrogate(cp) {
        if !(pos + 2 <= |src| && src[pos] == BACKSLASH && src[pos + 1] == 117) {
          assert |s| < 6 || s[4] != BACKSLASH || s[5] != 117;
          return None;
        }
        pos := pos + 2;
        Dropped(src, old(pos), 6);
        var low := ParseHex4();
        if low == None || !IsLowSurrogate(low.value) { return None; }
        cp := 0x10000 + (cp - 0xD800) * 0x400 + (low.value - 0xDC00);
      } else if IsLowSurrogate(cp) {
        return None;
      }
      r := Some(cp);
    }

    /** The source's `encode_utf8`: appends one scalar. */
    static method EncodeUtf8(before: bytes, cp: nat) returns (out: bytes)
      requires cp <= 0x10FFFF
      ensures out == before + Utf8(cp)
    {
      if cp < 0x80 {
        out := before + [cp];
      } else if cp < 0x800 {
        out := before + [0xC0 + cp / 64];
        out := out + [0x80 + cp % 64];
      } else if cp < 0x10000 {
        out := before + [0xE0 + cp / 4096];
        out := out + [0x80 + cp / 64 % 64];
        out := out + [0x80 + cp % 64];
      } else {
        out := before + [0xF0 + cp / 262144];
        out := out + [0x80 + cp / 4096 % 64];
        out := out + [0x80 + cp / 64 % 64];
        out := out + [0x80 + cp % 64];
      }
    }

    /** One turn of the string loop: a character that is not the closing quote. */
    method ParseChar(before: bytes) returns (ok: bool, out: bytes)
      requires Valid() && pos < |src| && src[pos] != QUOTE
      modifies this`pos
      ensures Valid() && pos > old(pos)
      ensures match CharOf(old(Rest()))
              case Fail => !ok
              case Ok(meaning, n) => ok && out == before + meaning && pos == old(pos) + n
    {
      hide Utf8;
      ghost var s := Rest();
      out := before;
      var c := src[pos];
      pos := pos + 1;
      if c == BACKSLASH {
        if pos >= |src| { return false, out; }
        var letter := src[pos];
        assert s[1] == letter;
        pos := pos + 1;
        if letter == 117 {
          Dropped(src, old(pos), 2);
          var cp := ParseCodepoint();
          if cp == None { return false, out; }
          out := EncodeUtf8(out, cp.value);
        } else if ShortValue(letter) >= 0 {
          out := out + [ShortValue(letter)];
        } else {
          return false, out;
        }
      } else if c < 32 {
        return false, out;
      } else {
        out := out + [c];
      }
      ok := true;
    }

    method ParseString() returns (r: Option<bytes>)
      requires Valid()
      modifies this`pos
      ensures Valid() && Reads(StringOf(old(Rest())), old(pos), pos, r)
    {
      hide CharOf, CharsOf;
      var quoted := Consume(QUOTE);
      if !quoted { return None; }
      Dropped(src, old(pos), 1);
      ghost var start := pos;
      ghost var all := Joined([], 1, CharsOf(src[start..]));
      var out: bytes := [];
      while true
        invariant Valid() && start <= pos
        invariant all == Joined(out, 1 + pos - start, CharsOf(src[pos..]))
        decreases |src| - pos
      {
        CharsUnfold(src[pos..]);
        if pos >= |src| { return None; }
        if src[pos] == QUOTE {
          pos := pos + 1;
          assert out + [] == out;
          return Some(out);
        }
        ghost var at, was := pos, out;
        var ok;
        ok, out := ParseChar(out);
        if !ok { return None; }
        var c := CharOf(src[at..]);
        Dropped(src, at, c.used);
        JoinedTwice(was, 1 + at - start, c.value, c.used, CharsOf(src[pos..]));
      }
    }

    method SkipDigits() returns (any: bool)
      requires Valid()
      modifies this`pos
      ensures Valid() && pos == old(pos) + DigitRun(old(Rest())) && any == (DigitRun(old(Rest())) > 0)
    {
      any := pos < |src| && IsDigit(src[pos]);
      while pos < |src| && IsDigit(src[pos])
        invariant Valid() && pos + DigitRun(src[pos..]) == old(pos) + DigitRun(old(Rest()))
        invariant any == (DigitRun(old(Rest())) > 0)
        decreases |src| - pos
      {
        Dropped(src, pos, 1);
        pos := pos + 1;
      }
    }

    /** `-? int`. */
    method SkipWhole() returns (ok: bool)
      requires Valid()
      modifies this`pos
      ensures Valid() && ok == (WholeLength(old(Rest())) != -1) && (ok ==> pos == old(pos) + WholeLength(old(Rest())))
    {
      var minus := Consume(DASH);
      Dropped(src, old(pos), pos - old(pos));
      var zero := Consume(ZERO);
      if zero {
        ok := !(pos < |src| && IsDigit(src[pos]));
      } else {
        ok := SkipDigits();
      }
    }

    method SkipFrac() returns (ok: bool, present: bool)
      requires Valid()
      modifies this`pos
      ensures Valid() && ok == (FracLength(old(Rest())) != -1)
      ensures ok ==> pos == old(pos) + FracLength(old(Rest())) && present == (FracLength(old(Rest())) != 0)
    {
      ok := true;
      present := Consume(DOT);
      if present {
        Dropped(src, old(pos), 1);
        ok := SkipDigits();
      }
    }

    method SkipExp() returns (ok: bool, present: bool)
      requires Valid()
      modifies this`pos
      ensures Valid() && ok == (ExpLength(old(Rest())) != -1)
      ensures ok ==> pos == old(pos) + ExpLength(old(Rest())) && present == (ExpLength(old(Rest())) != 0)
    {
      ok := true;
      present := Peek() == 101 || Peek() == 69;
      if present {
        pos := pos + 1;
        if Peek() == PLUS || Peek() == DASH { pos := pos + 1; }
        Dropped(src, old(pos), pos - old(pos));
        ok := SkipDigits();
      }
    }

    method ParseNumber() returns (r: Option<Value>)
      requires Valid()
      modifies this`pos
      ensures Valid() && Reads(NumberOf(old(Rest()), finite), old(pos), pos, r)
    {
      hide WholeLength, FracLength, ExpLength, Int64Of;
      ghost var s := Rest();
      var begin := pos;
      var whole := SkipWhole();
      if !whole { return None; }
      Dropped(src, begin, pos - begin);
      var fracOk, frac := SkipFrac();
      if !fracOk { return None; }
      Dropped(src, begin, pos - begin);
      var expOk, exp := SkipExp();
      if !expOk { return None; }
      var token := src[begin..pos];
      assert token == s[..pos - begin];
      if !(frac || exp) {
        var v := Int64Of(token);
        if v.Some? { return Some(Int(v.value)); }
      }
      if finite(token) { return Some(Double(token)); }
      return None;
    }

    method ParseValue(depth: nat) returns (r: Option<Value>)
      requires Valid()
      modifies this`pos
      ensures Valid() && Reads(ValueOf(old(Rest()), depth, finite), old(pos), pos, r)
      decreases |src| - pos, 2
    {
      hide NumberOf, StringOf, ItemsOf, MembersOf;
      if depth > MAX_DEPTH { return None; }
      match Peek() {
        case 110 =>
          var ok := ConsumeLit(NULL_TEXT);
          return if ok then Some(Null) else None;
        case 116 =>
          var ok := ConsumeLit(TRUE_TEXT);
          return if ok then Some(Bool(true)) else None;
        case 102 =>
          var ok := ConsumeLit(FALSE_TEXT);
          return if ok then Some(Bool(false)) else None;
        case 34 =>
          var text := ParseString();
          return if text.Some? then Some(Str(text.value)) else None;
        case 91 => r := ParseArray(depth);
        case 123 => r := ParseObject(depth);
        case _ =>
          if pos == |src| { NumberNeedsText(finite); }
          r := ParseNumber();
      }
    }

    method ParseArray(depth: nat) returns (r: Option<Value>)
      requires Valid() && StartsWith(Rest(), LBRACKET) && depth <= MAX_DEPTH
      modifies this`pos
      ensures Valid() && Reads(ValueOf(old(Rest()), depth, finite), old(pos), pos, r)
      decreases |src| - pos, 1
    {
      hide ItemsOf, WsRun;
      pos := pos + 1;
      Dropped(src, old(pos), 1);
      SkipWs();
      Dropped(src, old(pos), pos - old(pos));
      var empty := Consume(RBRACKET);
      if empty { return Some(Arr([])); }
      var items := ParseItems(depth);
      return if items.Some? then Some(Arr(items.value)) else None;
    }

    /** The loop of the source's `parse_array`. */
    method ParseItems(depth: nat) returns (r: Option<seq<Value>>)
      requires Valid() && depth <= MAX_DEPTH
      modifies this`pos
      ensures Valid() && Reads(ItemsOf(old(Rest()), depth, finite), old(pos), pos, r)
      decreases |src| - pos, 3
    {
      hide ItemsOf, ValueOf, WsRun, IsWs, AllDigits;
      var items: seq<Value> := [];
      AfterNothing(ItemsOf(Rest(), depth, finite));
      while true
        invariant Valid() && old(pos) <= pos
        invariant ItemsOf(old(Rest()), depth, finite) == After(items, pos - old(pos),
                                                               ItemsOf(src[pos..], depth, finite))
        decreases |src| - pos
      {
        ghost var at, was := pos, items;
        ItemsUnfold(src, at, depth, finite);
        SkipWs();
        var item := ParseValue(depth + 1);
        if item == None { return None; }
        items := items + [item.value];
        SkipWs();
        var comma := Consume(COMMA);
        if comma {
          AfterTwice(was, at - old(pos), [item.value], pos - at, ItemsOf(src[pos..], depth, finite));
          continue;
        }
        var close := Consume(RBRACKET);
        if close { return Some(items); }
        return None;
      }
    }

    method ParseKey() returns (r: Option<bytes>)
      requires Valid()
      modifies this`pos
      ensures Valid() && Reads(KeyOf(old(Rest())), old(pos), pos, r)
    {
      hide StringOf, WsRun, KeyOf, IsWs;
      KeyUnfold(src, pos);
      SkipWs();
      if Peek() != QUOTE {
        NotAString(src[pos..]);
        return None;
      }
      var key := ParseString();
      if key == None { return None; }
      SkipWs();
      var colon := Consume(COLON);
      if !colon { return None; }
      SkipWs();
      return key;
    }

    method ParseObject(depth: nat) returns (r: Option<Value>)
      requires Valid() && StartsWith(Rest(), LBRACE) && depth <= MAX_DEPTH
      modifies this`pos
      ensures Valid() && Reads(ValueOf(old(Rest()), depth, finite), old(pos), pos, r)
      decreases |src| - pos, 1
    {
      hide MembersOf, WsRun;
      pos := pos + 1;
      Dropped(src, old(pos), 1);
      SkipWs();
      Dropped(src, old(pos), pos - old(pos));
      var empty := Consume(RBRACE);
      if empty { return Some(Obj([])); }
      var members := ParseMembers(depth);
      return if members.Some? then Some(Obj(members.value)) else None;
    }

    /** The loop of the source's `parse_object`. */
    method ParseMembers(depth: nat) returns (r: Option<seq<Member>>)
      requires Valid() && depth <= MAX_DEPTH
      modifies this`pos
      ensures Valid() && Reads(MembersOf(old(Rest()), depth, finite), old(pos), pos, r)
      decreases |src| - pos, 3
    {
      hide MembersOf, KeyOf, ValueOf, WsRun, IsWs, AllDigits;
      var members: seq<Member> := [];
      AfterNothing(MembersOf(Rest(), depth, finite));
      while true
        invariant Valid() && old(pos) <= pos
        invariant MembersOf(old(Rest()), depth, finite)
                  == After(members, pos - old(pos), MembersOf(src[pos..], depth, finite))
        decreases |src| - pos
      {
        ghost var at, was := pos, members;
        MembersUnfold(src, at, depth, finite);
        var key := ParseKey();
        if key == None { return None; }
        var value := ParseValue(depth + 1);
        if value == None { return None; }
        var member := Member(key.value, value.value);
        members := members + [member];
        SkipWs();
        var comma := Consume(COMMA);
        if comma {
          AfterTwice(was, at - old(pos), [member], pos - at, MembersOf(src[pos..], depth, finite));
          continue;
        }
        var close := Consume(RBRACE);
        if close { return Some(members); }
        return None;
      }
    }

    method Run() returns (r: Option<Value>)
      requires pos == 0
      modifies this`pos
      ensures r == DocumentOf(src, finite)
    {
      hide ValueOf;
      assert src[0..] == src;
      SkipWs();
      var value := ParseValue(0);
      if value == None { return None; }
      SkipWs();
      if pos != |src| { return None; }
      return value;
    }
  }

  lemma CharsUnfold(s: bytes)
    ensures s == [] ==> CharsOf(s) == Fail
    ensures s != [] && s[0] == QUOTE ==> CharsOf(s) == Ok([], 1)
    ensures s != [] && s[0] != QUOTE ==>
              CharsOf(s) == if CharOf(s).Fail? then Fail
                            else Joined(CharOf(s).value, CharOf(s).used, CharsOf(s[CharOf(s).used..]))
  {
  }

  lemma JoinedTwice(a: bytes, m: nat, b: bytes, n: nat, r: Parsed<bytes>)
    ensures Joined(a, m, Joined(b, n, r)) == Joined(a + b, m + n, r)
  {
    if r.Ok? { assert a + (b + r.value) == (a + b) + r.value; }
  }

  lemma AfterNothing<T>(r: Parsed<seq<T>>)
    ensures After([], 0, r) == r
  {
    if r.Ok? { assert [] + r.value == r.value; }
  }

  lemma AfterTwice<T>(a: seq<T>, m: nat, b: seq<T>, n: nat, r: Parsed<seq<T>>)
    ensures After(a, m, After(b, n, r)) == After(a + b, m + n, r)
  {
    if r.Ok? { assert a + (b + r.value) == (a + b) + r.value; }
  }

  lemma NumberNeedsText(finite: bytes -> bool)
    ensures NumberOf([], finite) == Fail
  {
  }

  lemma NotAString(s: bytes)
    requires !StartsWith(s, QUOTE)
    ensures StringOf(s) == Fail
  {
  }

  lemma KeyUnfold(src: bytes, at: nat)
    requires at <= |src|
    ensures var k := at + WsRun(src[at..]);
            var key := StringOf(src[k..]);
            KeyOf(src[at..]) ==
            if key.Fail? then Fail else KeyTail(src, at, k + key.used, key.value)
  {
    hide StringOf, WsRun, KeyTail;
    var k := at + WsRun(src[at..]);
    Dropped(src, at, k - at);
    var key := StringOf(src[k..]);
    if key.Ok? { KeyTailShift(src, at, k + key.used, key.value); }
  }

  lemma KeyTailShift(src: bytes, at: nat, a: nat, key: bytes)
    requires at <= a <= |src|
    ensures KeyTail(src[at..], 0, a - at, key) == KeyTail(src, at, a, key)
  {
    hide WsRun;
    Dropped(src, at, a - at);
    var e := a + WsRun(src[a..]);
    Dropped(src, at, e - at);
    if e < |src| { Dropped(src, at, e + 1 - at); }
  }

  lemma ItemsTailShift(src: bytes, at: nat, a: nat, v: Value, depth: nat, finite: bytes -> bool)
    requires at <= a <= |src|
    ensures ItemsTail(src[at..], 0, a - at, v, depth, finite) == ItemsTail(src, at, a, v, depth, finite)
  {
    hide ItemsOf, WsRun, After, IsWs;
    Dropped(src, at, a - at);
    var e := a + WsRun(src[a..]);
    Dropped(src, at, e - at);
    if e < |src| { Dropped(src, at, e + 1 - at); }
  }

  lemma MembersTailShift(src: bytes, at: nat, a: nat, m: Member, depth: nat, finite: bytes -> bool)
    requires at <= a <= |src|
    ensures MembersTail(src[at..], 0, a - at, m, depth, finite) == MembersTail(src, at, a, m, depth, finite)
  {
    hide MembersOf, WsRun, After, IsWs;
    Dropped(src, at, a - at);
    var e := a + WsRun(src[a..]);
    Dropped(src, at, e - at);
    if e < |src| { Dropped(src, at, e + 1 - at); }
  }

  /** `ItemsOf` at a position of the source. */
  lemma ItemsUnfold(src: bytes, at: nat, depth: nat, finite: bytes -> bool)
    requires at <= |src|
    ensures var v := at + WsRun(src[at..]);
            var value := ValueOf(src[v..], depth + 1, finite);
            ItemsOf(src[at..], depth, finite) ==
            if value.Fail? then Fail else ItemsTail(src, at, v + value.used, value.value, depth, finite)
  {
    hide ValueOf, ItemsTail, WsRun;
    var v := at + WsRun(src[at..]);
    Dropped(src, at, v - at);
    var value := ValueOf(src[v..], depth + 1, finite);
    if value.Ok? { ItemsTailShift(src, at, v + value.used, value.value, depth, finite); }
  }

  lemma MembersUnfold(src: bytes, at: nat, depth: nat, finite: bytes -> bool)
    requires at <= |src|
    ensures var key := KeyOf(src[at..]);
            MembersOf(src[at..], depth, finite) ==
            if key.Fail? then Fail
            else
              var v := at + key.used;
              var value := ValueOf(src[v..], depth + 1, finite);
              if value.Fail? then Fail
              else MembersTail(src, at, v + value.used, Member(key.value, value.value), depth, finite)
  {
    hide ValueOf, KeyOf, MembersTail;
    var key := KeyOf(src[at..]);
    if key.Ok? {
      var v := at + key.used;
      Dropped(src, at, key.used);
      var value := ValueOf(src[v..], depth + 1, finite);
      if value.Ok? { MembersTailShift(src, at, v + value.used, Member(key.value, value.value), depth, finite); }
    }
  }
}
