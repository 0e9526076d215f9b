/** JSON values, their serialization, and the grammar of RFC 8259 as derivation trees. */
module Json {
  import opened Bytes
  import opened Unicode

  type int64 = x: int | -0x8000_0000_0000_0000 <= x < 0x8000_0000_0000_0000

  predicate FitsInt64(x: int) { -0x8000_0000_0000_0000 <= x < 0x8000_0000_0000_0000 }

  /** A double is kept as the numeral it was read from. */
  datatype Value =
    | Null
    | Bool(b: bool)
    | Int(n: int64)
    | Double(numeral: bytes)
    | Str(s: bytes)
    | Arr(items: seq<Value>)
    | Obj(members: seq<Member>)

  datatype Member = Member(key: bytes, value: Value)

  const MAX_DEPTH: nat := 256

  const LBRACKET: byte := 91
  const RBRACKET: byte := 93
  const LBRACE: byte := 123
  const RBRACE: byte := 125
  const COMMA: byte := 44
  const BACKSLASH: byte := 92
  const DOT: byte := 46
  const ZERO: byte := 48

  const NULL_TEXT: bytes := [110, 117, 108, 108]
  const TRUE_TEXT: bytes := [116, 114, 117, 101]
  const FALSE_TEXT: bytes := [102, 97, 108, 115, 101]

  predicate DoubleFree(v: Value) {
    match v
    case Double(_) => false
    case Arr(items) => forall i :: 0 <= i < |items| ==> DoubleFree(items[i])
    case Obj(members) => forall i :: 0 <= i < |members| ==> DoubleFree(members[i].value)
    case _ => true
  }

  function Max(a: nat, b: nat): nat { if a < b then b else a }

  /** How deep the deepest value sits below this one. */
  function Height(v: Value): nat {
    match v
    case Arr(items) => HeightOfItems(items)
    case Obj(members) => HeightOfMembers(members)
    case _ => 0
  }

  function HeightOfItems(items: seq<Value>): nat {
    if items == [] then 0 else Max(1 + Height(items[0]), HeightOfItems(items[1..]))
  }

  function HeightOfMembers(members: seq<Member>): nat {
    if members == [] then 0 else Max(1 + Height(members[0].value), HeightOfMembers(members[1..]))
  }

  // ---- grammar: strings (section 7) -----------------------------------------------------

  /** One unit of a string: a raw byte, a short escape with the byte it stands for, or a `\u` escape or pair. */
  datatype Char = Raw(b: byte) | Short(letter: byte, b: byte) | Escape(digits: bytes) | Pair(high: bytes, low: bytes)

  /** The eight short escapes: quotation mark, backslash, slash, `b`, `f`, `n`, `r` and `t`. */
  predicate IsShort(letter: byte, b: byte) {
    || (letter == 34 && b == 34) || (letter == 92 && b == 92) || (letter == 47 && b == 47)
    || (letter == 98 && b == 8) || (letter == 102 && b == 12) || (letter == 110 && b == 10)
    || (letter == 114 && b == 13) || (letter == 116 && b == 9)
  }

  predicate IsHex4(digits: bytes) {
    |digits| == 4 && AllHex(digits)
  }

  function Hex4Value(digits: bytes): (r: nat)
    requires IsHex4(digits)
    ensures r < 0x10000
  {
    HexDigit(digits[0]) * 4096 + HexDigit(digits[1]) * 256 + HexDigit(digits[2]) * 16 + HexDigit(digits[3])
  }

  predicate IsChar(c: Char) {
    match c
    case Raw(b) => b >= 32 && b != QUOTE && b != BACKSLASH
    case Short(letter, b) => IsShort(letter, b)
    case Escape(digits) => IsHex4(digits) && IsScalar(Hex4Value(digits))
    case Pair(high, low) =>
      IsHex4(high) && IsHex4(low) && IsHighSurrogate(Hex4Value(high)) && IsLowSurrogate(Hex4Value(low))
  }

  function CharText(c: Char): bytes {
    match c
    case Raw(b) => [b]
    case Short(letter, _) => [BACKSLASH, letter]
    case Escape(digits) => [BACKSLASH, 117] + digits
    case Pair(high, low) => [BACKSLASH, 117] + high + [BACKSLASH, 117] + low
  }

  function CharMeaning(c: Char): bytes
    requires IsChar(c)
  {
    match c
    case Raw(b) => [b]
    case Short(_, b) => [b]
    case Escape(digits) => Utf8(Hex4Value(digits))
    case Pair(high, low) => Utf8(JoinSurrogates(Hex4Value(high), Hex4Value(low)))
  }

  predicate AreChars(cs: seq<Char>) {
    forall i :: 0 <= i < |cs| ==> IsChar(cs[i])
  }

  /** The characters and the closing quote. */
  function CharsText(cs: seq<Char>): bytes {
    if cs == [] then [QUOTE] else CharText(cs[0]) + CharsText(cs[1..])
  }

  function CharsMeaning(cs: seq<Char>): bytes
    requires AreChars(cs)
  {
    if cs == [] then [] else CharMeaning(cs[0]) + CharsMeaning(cs[1..])
  }

  // ---- grammar: numbers (section 6) ------------------------------------------------------

  datatype Exponent = Exponent(mark: byte, sign: bytes, digits: bytes)
  datatype Numeral = Numeral(negative: bool, whole: bytes, frac: Option<bytes>, exp: Option<Exponent>)

  predicate IsDigits(s: bytes) { s != [] && AllDigits(s) }

  predicate IsNumeral(n: Numeral) {
    && IsDigits(n.whole) && (n.whole[0] == ZERO ==> |n.whole| == 1)
    && (n.frac.Some? ==> IsDigits(n.frac.value))
    && (n.exp.Some? ==>
          && (n.exp.value.mark == 101 || n.exp.value.mark == 69)
          && (n.exp.value.sign == [] || n.exp.value.sign == [PLUS] || n.exp.value.sign == [DASH])
          && IsDigits(n.exp.value.digits))
  }

  function WholeText(n: Numeral): bytes { (if n.negative then [DASH] else []) + n.whole }
  function FracText(n: Numeral): bytes { if n.frac.Some? then [DOT] + n.frac.value else [] }
  function ExpText(n: Numeral): bytes {
    if n.exp.Some? then [n.exp.value.mark] + n.exp.value.sign + n.exp.value.digits else []
  }

  function NumeralText(n: Numeral): bytes { WholeText(n) + FracText(n) + ExpText(n) }

  predicate IsIntegral(n: Numeral) { n.frac.None? && n.exp.None? }

  function IntegralValue(n: Numeral): int
    requires IsDigits(n.whole)
  {
    if n.negative then 0 - DecimalValue(n.whole) else DecimalValue(n.whole)
  }

  /** Integers in range are exact, every other numeral is a double. */
  function NumeralMeaning(n: Numeral): Value
    requires IsNumeral(n)
  {
    if IsIntegral(n) && FitsInt64(IntegralValue(n)) then Int(IntegralValue(n)) else Double(NumeralText(n))
  }

  // ---- grammar: values (sections 2 to 5) ---------------------------------------------------

  datatype Tree =
    | TNull
    | TBool(b: bool)
    | TNumber(n: Numeral)
    | TString(cs: seq<Char>)
    | TEmptyArray(ws: bytes)
    | TArray(items: Items)
    | TEmptyObject(ws: bytes)
    | TObject(members: Members)

  /** `ws value ws` separated by commas. */
  datatype Items =
    | LastItem(before: bytes, value: Tree, after: bytes)
    | MoreItems(before: bytes, value: Tree, after: bytes, rest: Items)

  /** `ws string ws : ws value ws` separated by commas. */
  datatype Members =
    | LastMember(before: bytes, key: seq<Char>, mid: bytes, beforeValue: bytes, value: Tree, after: bytes)
    | MoreMembers(before: bytes, key: seq<Char>, mid: bytes, beforeValue: bytes, value: Tree, after: bytes,
            rest: Members)

  predicate IsWsByte(c: byte) { c == SP || c == TAB || c == LF || c == CR }

  predicate IsWs(s: bytes) {
    forall i :: 0 <= i < |s| ==> IsWsByte(s[i])
  }

  /** A derivation; `finite` tells which numerals the double reader takes. */
  predicate IsTree(t: Tree, finite: bytes -> bool) {
    match t
    case TNumber(n) => IsNumeral(n) && (NumeralMeaning(n).Double? ==> finite(NumeralText(n)))
    case TString(cs) => AreChars(cs)
    case TEmptyArray(ws) => IsWs(ws)
    case TArray(items) => AreItems(items, finite)
    case TEmptyObject(ws) => IsWs(ws)
    case TObject(members) => AreMembers(members, finite)
    case _ => true
  }

  predicate AreItems(items: Items, finite: bytes -> bool) {
    && IsWs(items.before) && IsTree(items.value, finite) && IsWs(items.after)
    && (items.MoreItems? ==> AreItems(items.rest, finite))
  }

  predicate AreMembers(ms: Members, finite: bytes -> bool) {
    && IsWs(ms.before) && AreChars(ms.key) && IsWs(ms.mid) && IsWs(ms.beforeValue)
    && IsTree(ms.value, finite) && IsWs(ms.after)
    && (ms.MoreMembers? ==> AreMembers(ms.rest, finite))
  }

  function TreeText(t: Tree): bytes {
    match t
    case TNull => NULL_TEXT
    case TBool(b) => if b then TRUE_TEXT else FALSE_TEXT
    case TNumber(n) => NumeralText(n)
    case TString(cs) => [QUOTE] + CharsText(cs)
    case TEmptyArray(ws) => [LBRACKET] + (ws + [RBRACKET])
    case TArray(items) => [LBRACKET] + ItemsText(items)
    case TEmptyObject(ws) => [LBRACE] + (ws + [RBRACE])
    case TObject(members) => [LBRACE] + MembersText(members)
  }

  /** The items and the closing bracket. */
  function ItemsText(items: Items): bytes {
    items.before + (TreeText(items.value) + (items.after + match items
      case LastItem(_, _, _) => [RBRACKET]
      case MoreItems(_, _, _, rest) => [COMMA] + ItemsText(rest)))
  }

  /** A key with what stands between it and its value. */
  function KeyText(key: seq<Char>, mid: bytes, beforeValue: bytes): bytes {
    [QUOTE] + CharsText(key) + (mid + [COLON] + beforeValue)
  }

  function MembersText(ms: Members): bytes {
    ms.before + (KeyText(ms.key, ms.mid, ms.beforeValue) + (TreeText(ms.value) + (ms.after + match ms
      case LastMember(_, _, _, _, _, _) => [RBRACE]
      case MoreMembers(_, _, _, _, _, _, rest) => [COMMA] + MembersText(rest))))
  }

  function TreeMeaning(t: Tree, finite: bytes -> bool): Value
    requires IsTree(t, finite)
  {
    match t
    case TNull => Null
    case TBool(b) => Bool(b)
    case TNumber(n) => NumeralMeaning(n)
    case TString(cs) => Str(CharsMeaning(cs))
    case TEmptyArray(_) => Arr([])
    case TArray(items) => Arr(ItemsMeaning(items, finite))
    case TEmptyObject(_) => Obj([])
    case TObject(members) => Obj(MembersMeaning(members, finite))
  }

  function ItemsMeaning(items: Items, finite: bytes -> bool): seq<Value>
    requires AreItems(items, finite)
  {
    [TreeMeaning(items.value, finite)] + if items.MoreItems? then ItemsMeaning(items.rest, finite) else []
  }

  function MembersMeaning(ms: Members, finite: bytes -> bool): seq<Member>
    requires AreMembers(ms, finite)
  {
    [Member(CharsMeaning(ms.key), TreeMeaning(ms.value, finite))]
    + if ms.MoreMembers? then MembersMeaning(ms.rest, finite) else []
  }

  function TreeDepth(t: Tree): nat {
    match t
    case TArray(items) => ItemsDepth(items)
    case TObject(members) => MembersDepth(members)
    case _ => 0
  }

  function ItemsDepth(items: Items): nat {
    Max(1 + TreeDepth(items.value), if items.MoreItems? then ItemsDepth(items.rest) else 0)
  }

  function MembersDepth(ms: Members): nat {
    Max(1 + TreeDepth(ms.value), if ms.MoreMembers? then MembersDepth(ms.rest) else 0)
  }

  // ---- serialization ------------------------------------------------------------------------

  function HexLower(d: int): byte
    requires 0 <= d < 16
  {
    if d < 10 then 48 + d else 87 + d
  }

  /** How `escape_string` spells one byte. */
  function Spelled(b: byte): Char {
    match b
    case 34 => Short(34, 34)
    case 92 => Short(92, 92)
    case 8 => Short(98, 8)
    case 12 => Short(102, 12)
    case 10 => Short(110, 10)
    case 13 => Short(114, 13)
    case 9 => Short(116, 9)
    case _ => if b < 32 then Escape([ZERO, ZERO, HexLower(b / 16), HexLower(b % 16)]) else Raw(b)
  }

  function Escaped(s: bytes): bytes {
    if s == [] then [QUOTE] else CharText(Spelled(s[0])) + Escaped(s[1..])
  }

  function StringText(s: bytes): bytes { [QUOTE] + Escaped(s) }

  function Dump(v: Value): bytes
    requires DoubleFree(v)
  {
    match v
    case Null => NULL_TEXT
    case Bool(b) => if b then TRUE_TEXT else FALSE_TEXT
    case Int(n) => SignedDecimal(n)
    case Str(s) => StringText(s)
    case Arr(items) => [LBRACKET] + DumpItems(items)
    case Obj(members) => [LBRACE] + DumpMembers(members)
  }

  function DumpItems(items: seq<Value>): bytes
    requires forall i :: 0 <= i < |items| ==> DoubleFree(items[i])
  {
    if items == [] then [RBRACKET]
    else Dump(items[0]) + (if |items| > 1 then [COMMA] else []) + DumpItems(items[1..])
  }

  function MemberText(m: Member): bytes
    requires DoubleFree(m.value)
  {
    StringText(m.key) + [COLON] + Dump(m.value)
  }

  function DumpMembers(members: seq<Member>): bytes
    requires forall i :: 0 <= i < |members| ==> DoubleFree(members[i].value)
  {
    if members == [] then [RBRACE]
    else MemberText(members[0])
         + (if |members| > 1 then [COMMA] else []) + DumpMembers(members[1..])
  }

  /** The source's switch over one byte. */
  method EscapeByte(c: byte, before: bytes) returns (out: bytes)
    ensures out == before + CharText(Spelled(c))
  {
    match c {
      case 34 => out := before + [BACKSLASH, 34];
      case 92 => out := before + [BACKSLASH, 92];
      case 8 => out := before + [BACKSLASH, 98];
      case 12 => out := before + [BACKSLASH, 102];
      case 10 => out := before + [BACKSLASH, 110];
      case 13 => out := before + [BACKSLASH, 114];
      case 9 => out := before + [BACKSLASH, 116];
      case _ =>
        if c < 32 {
          out := before + [BACKSLASH, 117, ZERO, ZERO];
          out := out + [HexLower(c / 16)];
          out := out + [HexLower(c % 16)];
        } else {
          out := before + [c];
        }
    }
  }

  /** Appends the quoted, escaped text. */
  method EscapeString(text: bytes, before: bytes) returns (out: bytes)
    ensures out == before + StringText(text)
  {
    hide CharText, Spelled;
    out := before + [QUOTE];
    assert text[0..] == text;
    for i := 0 to |text|
      invariant out + Escaped(text[i..]) == before + StringText(text)
    {
      assert text[i..][1..] == text[i + 1..];
      ghost var was := out;
      out := EscapeByte(text[i], out);
      assert was + (CharText(Spelled(text[i])) + Escaped(text[i + 1..])) == out + Escaped(text[i + 1..]);
    }
    out := out + [QUOTE];
  }

  /** The source's recursive writer: appends to the text produced so far. */
  method DumpTo(v: Value, before: bytes) returns (out: bytes)
    requires DoubleFree(v)
    ensures out == before + Dump(v)
    decreases v, 2
  {
    hide DumpItems, DumpMembers, StringText, SignedDecimal;
    match v
    case Null => out := before + NULL_TEXT;
    case Bool(b) => out := before + if b then TRUE_TEXT else FALSE_TEXT;
    case Int(n) => out := before + SignedDecimal(n);
    case Str(s) => out := EscapeString(s, before);
    case Arr(items) =>
      out := DumpArray(v, before + [LBRACKET]);
      assert before + [LBRACKET] + DumpItems(items) == before + Dump(v);
    case Obj(members) =>
      out := DumpObject(v, before + [LBRACE]);
      assert before + [LBRACE] + DumpMembers(members) == before + Dump(v);
  }

  method DumpArray(v: Value, before: bytes) returns (out: bytes)
    requires DoubleFree(v) && v.Arr?
    ensures out == before + DumpItems(v.items)
    decreases v, 0
  {
    hide Dump;
    out := before;
    var first := true;
    assert v.items[0..] == v.items;
    for i := 0 to |v.items|
      invariant first <==> i == 0
      invariant out + (if 0 < i < |v.items| then [COMMA] else []) + DumpItems(v.items[i..])
                == before + DumpItems(v.items)
    {
      ghost var was := out;
      assert v.items[i..][1..] == v.items[i + 1..];
      if !first { out := out + [COMMA]; }
      first := false;
      out := DumpTo(v.items[i], out);
      ItemSpliced(was, if 0 < i then [COMMA] else [], Dump(v.items[i]),
                  if i + 1 < |v.items| then [COMMA] else [], DumpItems(v.items[i + 1..]));
    }
    out := out + [RBRACKET];
  }

  method DumpMember(v: Value, i: nat, before: bytes) returns (out: bytes)
    requires DoubleFree(v) && v.Obj? && i < |v.members|
    ensures out == before + MemberText(v.members[i])
    decreases v, 0
  {
    hide Dump, StringText;
    out := EscapeString(v.members[i].key, before);
    out := out + [COLON];
    out := DumpTo(v.members[i].value, out);
  }

  method DumpObject(v: Value, before: bytes) returns (out: bytes)
    requires DoubleFree(v) && v.Obj?
    ensures out == before + DumpMembers(v.members)
    decreases v, 1
  {
    hide Dump, MemberText;
    out := before;
    var first := true;
    assert v.members[0..] == v.members;
    for i := 0 to |v.members|
      invariant first <==> i == 0
      invariant out + (if 0 < i < |v.members| then [COMMA] else []) + DumpMembers(v.members[i..])
                == before + DumpMembers(v.members)
    {
      ghost var was := out;
      assert v.members[i..][1..] == v.members[i + 1..];
      if !first { out := out + [COMMA]; }
      first := false;
      out := DumpMember(v, i, out);
      ItemSpliced(was, if 0 < i then [COMMA] else [], MemberText(v.members[i]),
                  if i + 1 < |v.members| then [COMMA] else [], DumpMembers(v.members[i + 1..]));
    }
    out := out + [RBRACE];
  }

  lemma ItemSpliced(out: bytes, sep: bytes, item: bytes, next: bytes, rest: bytes)
    ensures out + sep + (item + next + rest) == (out + sep + item) + next + rest
  {
  }
}
