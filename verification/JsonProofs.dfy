/** The JSON parser accepts exactly the grammar, and reads back everything that is serialized. */
module JsonProofs {
  import opened Bytes
  import opened Unicode
  import opened Json
  import opened JsonParser

  // ---- runs -----------------------------------------------------------------------------------

  lemma WsRunIs(ws: bytes, rest: bytes)
    requires IsWs(ws) && (rest != [] ==> !IsWsByte(rest[0]))
    ensures WsRun(ws + rest) == |ws|
  {
    var s := ws + rest;
    var r := WsRun(s);
    assert forall k :: 0 <= k < |ws| ==> s[k] == ws[k];
    assert forall k :: 0 <= k < r ==> IsWsByte(s[..r][k]) && s[..r][k] == s[k];
    assert |ws| < |s| ==> s[|ws|] == rest[0];
  }

  lemma DigitRunIs(digits: bytes, rest: bytes)
    requires AllDigits(digits) && (rest != [] ==> !IsDigit(rest[0]))
    ensures DigitRun(digits + rest) == |digits|
  {
    var s := digits + rest;
    var r := DigitRun(s);
    assert forall k :: 0 <= k < |digits| ==> s[k] == digits[k];
    assert forall k :: 0 <= k < r ==> IsDigit(s[..r][k]) && s[..r][k] == s[k];
    assert |digits| < |s| ==> s[|digits|] == rest[0];
  }

  // ---- the tokens, as characters ------------------------------------------------------------------

  /** White space, the three literal names and the structural characters, as sections 2 and 3 spell them. */
  lemma TokensExact(c: byte, finite: bytes -> bool)
    ensures IsWsByte(c) <==> c in Ascii(" \t\n\r")
    ensures TreeText(TNull) == Ascii("null") && TreeMeaning(TNull, finite) == Null
    ensures TreeText(TBool(true)) == Ascii("true") && TreeMeaning(TBool(true), finite) == Bool(true)
    ensures TreeText(TBool(false)) == Ascii("false") && TreeMeaning(TBool(false), finite) == Bool(false)
    ensures [LBRACKET, RBRACKET, LBRACE, RBRACE, COMMA, COLON, QUOTE, BACKSLASH, DOT, PLUS, DASH, ZERO]
            == Ascii("[]{},:\"\\.+-0")
  {
    var ws := Ascii(" \t\n\r");
    assert ws[0] == SP && ws[1] == TAB && ws[2] == LF && ws[3] == CR;
  }

  // ---- strings ----------------------------------------------------------------------------------

  /** Four digits are the hexadecimal numeral they look like. */
  lemma Hex4IsNumeral(digits: bytes)
    requires IsHex4(digits)
    ensures Hex4Value(digits) == HexValue(digits)
  {
    var three, two, one := digits[..3], digits[..2], digits[..1];
    assert three[..2] == two && two[..1] == one && one[..0] == [];
    assert HexValue(one) == HexDigit(digits[0]);
    assert HexValue(two) == HexValue(one) * 16 + HexDigit(digits[1]);
    assert HexValue(three) == HexValue(two) * 16 + HexDigit(digits[2]);
  }

  lemma Hex4Reads(digits: bytes, rest: bytes)
    requires IsHex4(digits)
    ensures Hex4Of(digits + rest) == Ok(Hex4Value(digits), 4)
  {
    assert (digits + rest)[..4] == digits;
  }

  /** The parser knows exactly the short escapes of the grammar. */
  lemma ShortEscapesExact(letter: byte, rest: bytes)
    requires letter != 117
    ensures CharOf([BACKSLASH, letter] + rest) ==
            match letter
            case 34 => Ok([34], 2)
            case 92 => Ok([92], 2)
            case 47 => Ok([47], 2)
            case 98 => Ok([8], 2)
            case 102 => Ok([12], 2)
            case 110 => Ok([10], 2)
            case 114 => Ok([13], 2)
            case 116 => Ok([9], 2)
            case _ => Fail
    ensures forall b: byte :: IsShort(letter, b) <==> CharOf([BACKSLASH, letter] + rest) == Ok([b], 2)
  {
  }

  lemma CharReads(c: Char, rest: bytes)
    requires IsChar(c)
    ensures var s := CharText(c) + rest;
            s[0] != QUOTE && CharOf(s) == Ok(CharMeaning(c), |CharText(c)|)
  {
    match c
    case Escape(_) => EscapeReads(c, rest);
    case Pair(_, _) => PairReads(c, rest);
    case _ => hide Utf8, Hex4Of, Hex4Value;
  }

  lemma EscapeReads(c: Char, rest: bytes)
    requires c.Escape? && IsChar(c)
    ensures var s := CharText(c) + rest;
            s[0] != QUOTE && CharOf(s) == Ok(CharMeaning(c), |CharText(c)|)
  {
    hide Utf8, Hex4Of, Hex4Value, ShortValue;
    var s := CharText(c) + rest;
    assert s[2..] == c.digits + rest;
    Hex4Reads(c.digits, rest);
  }

  lemma PairReads(c: Char, rest: bytes)
    requires c.Pair? && IsChar(c)
    ensures var s := CharText(c) + rest;
            s[0] != QUOTE && CharOf(s) == Ok(CharMeaning(c), |CharText(c)|)
  {
    hide Utf8, Hex4Of, Hex4Value, ShortValue;
    var s := CharText(c) + rest;
    var tail := [BACKSLASH, 117] + c.low + rest;
    assert s[2..] == c.high + tail;
    Hex4Reads(c.high, tail);
    assert s[2..][4] == tail[0] && s[2..][5] == tail[1];
    assert s[2..][6..] == c.low + rest;
    Hex4Reads(c.low, rest);
  }

  lemma {:induction false} CharsRead(cs: seq<Char>, rest: bytes)
    requires AreChars(cs)
    ensures CharsOf(CharsText(cs) + rest) == Ok(CharsMeaning(cs), |CharsText(cs)|)
    decreases |cs|
  {
    hide CharOf, CharMeaning, CharText, IsChar;
    var s := CharsText(cs) + rest;
    CharsUnfold(s);
    if cs != [] {
      var more := CharsText(cs[1..]) + rest;
      assert s == CharText(cs[0]) + more;
      CharReads(cs[0], more);
      assert s[|CharText(cs[0])|..] == more;
      CharsRead(cs[1..], rest);
    }
  }

  lemma CharWas(s: bytes) returns (c: Char)
    requires s != [] && s[0] != QUOTE && CharOf(s).Ok?
    ensures IsChar(c) && CharMeaning(c) == CharOf(s).value && CharText(c) == s[..CharOf(s).used]
  {
    hide Utf8, Hex4Value;
    if s[0] != BACKSLASH {
      c := Raw(s[0]);
    } else if s[1] != 117 {
      c := Short(s[1], ShortValue(s[1]));
    } else {
      var t := s[2..];
      var high := t[..4];
      if IsHighSurrogate(Hex4Value(high)) {
        var low := t[6..][..4];
        c := Pair(high, low);
        assert s[..12] == [s[0], s[1]] + high + [t[4], t[5]] + low;
      } else {
        c := Escape(high);
        assert s[..6] == [s[0], s[1]] + high;
      }
    }
  }

  lemma {:induction false} CharsWere(s: bytes) returns (cs: seq<Char>)
    requires CharsOf(s).Ok?
    ensures AreChars(cs) && CharsMeaning(cs) == CharsOf(s).value && CharsText(cs) == s[..CharsOf(s).used]
    decreases |s|
  {
    hide CharOf, CharMeaning, CharText, IsChar;
    if s[0] == QUOTE {
      cs := [];
    } else {
      var c := CharWas(s);
      var n := CharOf(s).used;
      var more := CharsWere(s[n..]);
      cs := [c] + more;
      assert cs[1..] == more;
      assert s[..n + CharsOf(s[n..]).used] == s[..n] + s[n..][..CharsOf(s[n..]).used];
    }
  }

  lemma StringReads(cs: seq<Char>, rest: bytes)
    requires AreChars(cs)
    ensures StringOf([QUOTE] + CharsText(cs) + rest) == Ok(CharsMeaning(cs), 1 + |CharsText(cs)|)
  {
    hide CharsOf, CharsText, CharsMeaning;
    CharsRead(cs, rest);
    assert ([QUOTE] + CharsText(cs) + rest)[1..] == CharsText(cs) + rest;
    assert [] + CharsMeaning(cs) == CharsMeaning(cs);
  }

  lemma StringWas(s: bytes) returns (cs: seq<Char>)
    requires StringOf(s).Ok?
    ensures AreChars(cs) && CharsMeaning(cs) == StringOf(s).value
    ensures [QUOTE] + CharsText(cs) == s[..StringOf(s).used]
  {
    hide CharsOf, CharsText, CharsMeaning;
    cs := CharsWere(s[1..]);
    var n := CharsOf(s[1..]).used;
    assert s[..1 + n] == [s[0]] + s[1..][..n];
    assert [] + CharsMeaning(cs) == CharsMeaning(cs);
  }

  // ---- numbers ------------------------------------------------------------------------------------

  /** Nothing in `rest` could still belong to a numeral. */
  predicate EndsNumber(rest: bytes) {
    rest == [] || (!IsDigit(rest[0]) && rest[0] != DOT && !IsMark(rest[0]))
  }

  lemma WholeReads(n: Numeral, rest: bytes)
    requires IsNumeral(n) && (rest != [] ==> !IsDigit(rest[0]))
    ensures WholeLength(WholeText(n) + rest) == |WholeText(n)|
  {
    var s := WholeText(n) + rest;
    var i := if n.negative then 1 else 0;
    assert s[i..] == n.whole + rest;
    assert IsDigit(n.whole[0]);
    assert StartsWith(s, DASH) <==> n.negative;
    if n.whole[0] == ZERO {
      assert i + 1 < |s| ==> s[i + 1] == rest[0];
    } else {
      DigitRunIs(n.whole, rest);
    }
  }

  lemma FracReads(n: Numeral, rest: bytes)
    requires IsNumeral(n) && (rest != [] ==> !IsDigit(rest[0]) && rest[0] != DOT)
    ensures FracLength(FracText(n) + rest) == |FracText(n)|
  {
    if n.frac.Some? {
      assert (FracText(n) + rest)[1..] == n.frac.value + rest;
      DigitRunIs(n.frac.value, rest);
    } else {
      assert FracText(n) + rest == rest;
    }
  }

  lemma ExpReads(n: Numeral, rest: bytes)
    requires IsNumeral(n) && EndsNumber(rest)
    ensures ExpLength(ExpText(n) + rest) == |ExpText(n)|
  {
    if n.exp.Some? {
      hide DigitRun, AllDigits;
      var e := n.exp.value;
      var s := ExpText(n) + rest;
      ExpParts(e, rest);
      assert s == [e.mark] + e.sign + (e.digits + rest);
      DigitRunIs(e.digits, rest);
    } else {
      assert ExpText(n) + rest == rest;
    }
  }

  lemma ExpParts(e: Exponent, rest: bytes)
    requires IsDigits(e.digits) && (e.sign == [] || e.sign == [PLUS] || e.sign == [DASH])
    ensures var s := [e.mark] + e.sign + (e.digits + rest);
            && s[0] == e.mark && |s| > 1 && s[1 + |e.sign|..] == e.digits + rest
            && (if e.sign == [] then IsDigit(s[1]) else s[1] == e.sign[0])
  {
    assert IsDigit(e.digits[0]);
  }

  lemma ScanOfParts(s: bytes, w: nat, f: nat, e: nat)
    requires WholeLength(s) == w && w <= |s|
    requires FracLength(s[w..]) == f && w + f <= |s|
    requires ExpLength(s[w + f..]) == e
    ensures NumberScan(s) == Scan(w + f + e, f != 0 || e != 0)
  {
    hide WholeLength, FracLength, ExpLength;
  }

  lemma PartsEnd(n: Numeral, rest: bytes)
    requires IsNumeral(n) && EndsNumber(rest)
    ensures var afterFrac := ExpText(n) + rest;
            afterFrac != [] ==> !IsDigit(afterFrac[0]) && afterFrac[0] != DOT
    ensures var afterWhole := FracText(n) + (ExpText(n) + rest);
            afterWhole != [] ==> !IsDigit(afterWhole[0])
  {
    var afterFrac := ExpText(n) + rest;
    if n.exp.None? { assert afterFrac == rest; } else { assert afterFrac[0] == n.exp.value.mark; }
    if n.frac.None? { assert FracText(n) + afterFrac == afterFrac; }
  }

  lemma ScanOfTexts(w: bytes, f: bytes, e: bytes, rest: bytes)
    requires WholeLength(w + (f + (e + rest))) == |w|
    requires FracLength(f + (e + rest)) == |f|
    requires ExpLength(e + rest) == |e|
    ensures NumberScan(w + f + e + rest) == Scan(|w| + |f| + |e|, f != [] || e != [])
  {
    hide WholeLength, FracLength, ExpLength, NumberScan;
    var s := w + (f + (e + rest));
    assert w + f + e + rest == s;
    assert s[|w|..] == f + (e + rest);
    assert s[|w| + |f|..] == e + rest;
    ScanOfParts(s, |w|, |f|, |e|);
  }

  lemma ScanReads(n: Numeral, rest: bytes)
    requires IsNumeral(n) && EndsNumber(rest)
    ensures NumberScan(NumeralText(n) + rest) == Scan(|NumeralText(n)|, !IsIntegral(n))
  {
    hide WholeLength, FracLength, ExpLength, NumberScan;
    PartsEnd(n, rest);
    WholeReads(n, FracText(n) + (ExpText(n) + rest));
    FracReads(n, ExpText(n) + rest);
    ExpReads(n, rest);
    hide WholeText, IsNumeral, EndsNumber;
    ScanOfTexts(WholeText(n), FracText(n), ExpText(n), rest);
  }

  lemma Int64Reads(n: Numeral)
    requires IsNumeral(n) && IsIntegral(n)
    ensures NumeralText(n) == WholeText(n)
    ensures Int64Of(NumeralText(n)) == if FitsInt64(IntegralValue(n)) then Some(IntegralValue(n)) else None
  {
    assert IsDigit(n.whole[0]);
    var token := NumeralText(n);
    assert token == WholeText(n);
    assert StartsWith(token, DASH) <==> n.negative;
    if n.negative { assert token[1..] == n.whole; } else { assert token == n.whole; }
  }

  /** A numeral is read whole; it fails only when the double reader refuses it. */
  lemma NumberReads(n: Numeral, rest: bytes, finite: bytes -> bool)
    requires IsNumeral(n) && EndsNumber(rest)
    ensures NumberOf(NumeralText(n) + rest, finite) ==
            if NumeralMeaning(n).Double? && !finite(NumeralText(n)) then Fail
            else Ok(NumeralMeaning(n), |NumeralText(n)|)
  {
    hide NumberScan, Int64Of;
    ScanReads(n, rest);
    assert (NumeralText(n) + rest)[..|NumeralText(n)|] == NumeralText(n);
    if IsIntegral(n) { Int64Reads(n); }
  }

  lemma WholeWas(s: bytes) returns (negative: bool, whole: bytes)
    requires WholeLength(s) != -1
    ensures var n := Numeral(negative, whole, None, None);
            IsNumeral(n) && WholeText(n) == s[..WholeLength(s)]
  {
    negative := StartsWith(s, DASH);
    var i := if negative then 1 else 0;
    var w := WholeLength(s);
    whole := s[i..w];
    if StartsWith(s[i..], ZERO) {
      assert whole == [ZERO];
    } else {
      assert s[i..][..w - i] == whole;
      assert s[i..][0] == whole[0];
    }
    assert negative ==> s[..w] == [s[0]] + whole;
  }

  lemma FracWas(s: bytes) returns (frac: Option<bytes>)
    requires FracLength(s) != -1
    ensures frac.Some? ==> IsDigits(frac.value)
    ensures s[..FracLength(s)] == if frac.Some? then [DOT] + frac.value else []
    ensures frac.Some? <==> FracLength(s) != 0
  {
    if StartsWith(s, DOT) {
      frac := Some(s[1..][..FracLength(s) - 1]);
      assert s[..FracLength(s)] == [DOT] + frac.value;
    } else {
      frac := None;
    }
  }

  lemma ExpWas(s: bytes) returns (exp: Option<Exponent>)
    requires ExpLength(s) != -1
    ensures var n := Numeral(false, [ZERO], None, exp);
            IsNumeral(n) && ExpText(n) == s[..ExpLength(s)] && (exp.Some? <==> ExpLength(s) != 0)
  {
    if s == [] || !IsMark(s[0]) {
      exp := None;
    } else {
      var i := if |s| > 1 && (s[1] == PLUS || s[1] == DASH) then 2 else 1;
      var e := ExpLength(s);
      exp := Some(Exponent(s[0], s[1..i], s[i..][..e - i]));
      assert s[1..i] == if i == 2 then [s[1]] else [];
      assert s[..e] == [s[0]] + s[1..i] + s[i..][..e - i];
    }
  }

  lemma NumeralOfParts(negative: bool, whole: bytes, frac: Option<bytes>, exp: Option<Exponent>)
    requires IsNumeral(Numeral(negative, whole, None, None)) && IsNumeral(Numeral(false, [ZERO], None, exp))
    requires frac.Some? ==> IsDigits(frac.value)
    ensures var n := Numeral(negative, whole, frac, exp);
            && IsNumeral(n)
            && NumeralText(n) == WholeText(Numeral(negative, whole, None, None))
                                 + (if frac.Some? then [DOT] + frac.value else [])
                                 + ExpText(Numeral(false, [ZERO], None, exp))
  {
  }

  lemma ScanWas(s: bytes) returns (n: Numeral)
    requires NumberScan(s).length != -1
    ensures IsNumeral(n) && NumeralText(n) == s[..NumberScan(s).length] && NumberScan(s).isReal == !IsIntegral(n)
  {
    hide WholeLength, FracLength, ExpLength, IsNumeral, WholeText, FracText, ExpText, NumeralText, IsDigits;
    var w := WholeLength(s);
    var f := FracLength(s[w..]);
    var e := ExpLength(s[w + f..]);
    var negative, whole := WholeWas(s);
    var frac := FracWas(s[w..]);
    var exp := ExpWas(s[w + f..]);
    n := Numeral(negative, whole, frac, exp);
    NumeralOfParts(negative, whole, frac, exp);
    ThreeSlices(s, w, f, e);
  }

  lemma ThreeSlices(s: bytes, w: nat, f: nat, e: nat)
    requires w + f + e <= |s|
    ensures s[..w + f + e] == s[..w] + s[w..][..f] + s[w + f..][..e]
  {
  }

  lemma NumberWas(s: bytes, finite: bytes -> bool) returns (n: Numeral)
    requires NumberOf(s, finite).Ok?
    ensures IsTree(TNumber(n), finite) && NumeralMeaning(n) == NumberOf(s, finite).value
    ensures NumeralText(n) == s[..NumberOf(s, finite).used]
  {
    hide NumberScan, Int64Of;
    n := ScanWas(s);
    if IsIntegral(n) { Int64Reads(n); }
  }

  lemma NumberStarts(n: Numeral)
    requires IsNumeral(n)
    ensures var c := NumeralText(n)[0]; NumeralText(n) != [] && (c == DASH || IsDigit(c))
  {
    assert IsDigit(n.whole[0]);
    assert NumeralText(n)[0] == if n.negative then DASH else n.whole[0];
  }

  // ---- completeness: every derivation is read -----------------------------------------------------

  /** The first byte of a value: no white space, no closing bracket, no comma. */
  lemma TreeStarts(t: Tree, finite: bytes -> bool)
    requires IsTree(t, finite)
    ensures TreeText(t) != []
    ensures var c := TreeText(t)[0]; !IsWsByte(c) && c != RBRACKET && c != RBRACE
    ensures t.TNumber? ==> TreeText(t)[0] == DASH || IsDigit(TreeText(t)[0])
  {
    hide ItemsText, MembersText, CharsText, AreItems, AreMembers, AreChars;
    if t.TNumber? {
      hide NumeralText;
      NumberStarts(t.n);
    }
  }

  /** What stands between a value and the next item, or the end of the array. */
  function ItemsEnd(items: Items): bytes {
    match items
    case LastItem(_, _, _) => [RBRACKET]
    case MoreItems(_, _, _, rest) => [COMMA] + ItemsText(rest)
  }

  /** The items without their leading white space. */
  function ItemsBody(items: Items): bytes {
    TreeText(items.value) + (items.after + ItemsEnd(items))
  }

  lemma ItemsTextIs(items: Items)
    ensures ItemsText(items) == items.before + ItemsBody(items)
  {
    hide TreeText;
  }

  function MembersEnd(ms: Members): bytes {
    match ms
    case LastMember(_, _, _, _, _, _) => [RBRACE]
    case MoreMembers(_, _, _, _, _, _, rest) => [COMMA] + MembersText(rest)
  }

  function KeyBody(ms: Members): bytes {
    KeyText(ms.key, ms.mid, ms.beforeValue)
  }

  function MembersBody(ms: Members): bytes {
    KeyBody(ms) + (TreeText(ms.value) + (ms.after + MembersEnd(ms)))
  }

  lemma MembersTextIs(ms: Members)
    ensures MembersText(ms) == ms.before + MembersBody(ms)
  {
    hide TreeText, CharsText;
  }

  lemma WsSkipped(ws: bytes, text: bytes)
    requires IsWs(ws) && text != [] && !IsWsByte(text[0])
    ensures WsRun(ws + text) == |ws| && (ws + text)[|ws|..] == text
  {
    WsRunIs(ws, text);
  }

  /** The end of an item is read as white space, a comma or bracket, and the rest. */
  lemma ItemsTailReads(s: bytes, a: nat, after: bytes, end: bytes, v: Value, depth: nat, finite: bytes -> bool)
    requires a <= |s| && s[a..] == after + end && IsWs(after)
    requires end != [] && (end[0] == COMMA || end[0] == RBRACKET)
    ensures ItemsTail(s, 0, a, v, depth, finite) ==
            if end[0] == COMMA then After([v], a + |after| + 1, ItemsOf(end[1..], depth, finite))
            else Ok([v], a + |after| + 1)
  {
    hide ItemsOf, WsRun;
    WsSkipped(after, end);
    var e := a + |after|;
    Dropped(s, a, |after|);
    assert s[e..] == end;
    Dropped(s, e, 1);
  }

  lemma MembersTailReads(s: bytes, a: nat, after: bytes, end: bytes, m: Member, depth: nat, finite: bytes -> bool)
    requires a <= |s| && s[a..] == after + end && IsWs(after)
    requires end != [] && (end[0] == COMMA || end[0] == RBRACE)
    ensures MembersTail(s, 0, a, m, depth, finite) ==
            if end[0] == COMMA then After([m], a + |after| + 1, MembersOf(end[1..], depth, finite))
            else Ok([m], a + |after| + 1)
  {
    hide MembersOf, WsRun;
    WsSkipped(after, end);
    var e := a + |after|;
    Dropped(s, a, |after|);
    assert s[e..] == end;
    Dropped(s, e, 1);
  }

  lemma KeyReads(ws: bytes, ms: Members, text: bytes)
    requires IsWs(ws) && AreChars(ms.key) && IsWs(ms.mid) && IsWs(ms.beforeValue)
    requires text != [] && !IsWsByte(text[0])
    ensures KeyOf(ws + (KeyBody(ms) + text)) == Ok(CharsMeaning(ms.key), |ws| + |KeyBody(ms)|)
  {
    hide StringOf, WsRun, CharsText, AreChars, CharsMeaning, KeyOf, KeyTail;
    var afterKey := ms.mid + ([COLON] + (ms.beforeValue + text));
    var quoted := [QUOTE] + CharsText(ms.key);
    var s := ws + (quoted + afterKey);
    assert KeyBody(ms) + text == quoted + afterKey;
    assert s[0..] == s;
    KeyUnfold(s, 0);
    WsSkipped(ws, quoted + afterKey);
    StringReads(ms.key, afterKey);
    assert s[|ws| + |quoted|..] == afterKey;
    KeyTailReads(s, |ws| + |quoted|, ms.mid, ms.beforeValue, text, CharsMeaning(ms.key));
  }

  lemma KeyTailReads(s: bytes, a: nat, mid: bytes, before: bytes, text: bytes, key: bytes)
    requires a <= |s| && s[a..] == mid + ([COLON] + (before + text)) && IsWs(mid) && IsWs(before)
    requires text != [] && !IsWsByte(text[0])
    ensures KeyTail(s, 0, a, key) == Ok(key, a + |mid| + 1 + |before|)
  {
    hide WsRun;
    var tail := [COLON] + (before + text);
    WsSkipped(mid, tail);
    var e := a + |mid|;
    Dropped(s, a, |mid|);
    assert s[e..] == tail;
    Dropped(s, e, 1);
    assert tail[1..] == before + text;
    WsSkipped(before, text);
  }

  /**
   * Every derivation is read back, whatever follows it, as long as it is not nested
   * too deep; and it is refused when it is.
   */
  lemma {:induction false} TreeReads(t: Tree, rest: bytes, depth: nat, finite: bytes -> bool)
    requires IsTree(t, finite) && (t.TNumber? ==> EndsNumber(rest))
    ensures ValueOf(TreeText(t) + rest, depth, finite) ==
            if depth + TreeDepth(t) > MAX_DEPTH then Fail else Ok(TreeMeaning(t, finite), |TreeText(t)|)
    decreases t
  {
    if depth > MAX_DEPTH {
    } else if t.TArray? {
      hide ValueOf, ItemsOf, AreItems, ItemsBody, Max;
      ItemsRead([], t.items, rest, depth, finite);
      ArrayTreeReads(t.items, rest, depth, finite);
      ArraySize(t.items);
    } else if t.TObject? {
      hide ValueOf, MembersOf, AreMembers, MembersBody, Max;
      MembersRead([], t.members, rest, depth, finite);
      ObjectTreeReads(t.members, rest, depth, finite);
      ObjectSize(t.members);
    } else {
      LeafReads(t, rest, depth, finite);
    }
  }

  lemma ArraySize(items: Items)
    ensures |TreeText(TArray(items))| == 1 + |items.before| + |ItemsBody(items)|
  {
    ItemsTextIs(items);
    hide ItemsText, ItemsBody;
  }

  lemma ObjectSize(ms: Members)
    ensures |TreeText(TObject(ms))| == 1 + |ms.before| + |MembersBody(ms)|
  {
    MembersTextIs(ms);
    hide MembersText, MembersBody;
  }

  /** Values that hold no others. */
  lemma LeafReads(t: Tree, rest: bytes, depth: nat, finite: bytes -> bool)
    requires IsTree(t, finite) && (t.TNumber? ==> EndsNumber(rest)) && !t.TArray? && !t.TObject? && depth <= MAX_DEPTH
    ensures ValueOf(TreeText(t) + rest, depth, finite) == Ok(TreeMeaning(t, finite), |TreeText(t)|)
  {
    hide ItemsOf, MembersOf, NumberOf, CharsOf, CharsText, WsRun;
    match t
    case TNull => LiteralReads(NULL_TEXT, rest);
    case TBool(b) => LiteralReads(if b then TRUE_TEXT else FALSE_TEXT, rest);
    case TNumber(n) => NumberTreeReads(n, rest, depth, finite);
    case TString(cs) => StringReads(cs, rest);
    case TEmptyArray(ws) => EmptyReads(LBRACKET, RBRACKET, ws, rest);
    case TEmptyObject(ws) => EmptyReads(LBRACE, RBRACE, ws, rest);
  }

  lemma LiteralReads(literal: bytes, rest: bytes)
    ensures literal <= literal + rest
  {
  }

  lemma NumberTreeReads(n: Numeral, rest: bytes, depth: nat, finite: bytes -> bool)
    requires IsTree(TNumber(n), finite) && EndsNumber(rest) && depth <= MAX_DEPTH
    ensures ValueOf(NumeralText(n) + rest, depth, finite) == Ok(NumeralMeaning(n), |NumeralText(n)|)
  {
    hide NumberOf, NumeralText, NumeralMeaning, ItemsOf, MembersOf, StringOf;
    NumberStarts(n);
    NumberReads(n, rest, finite);
  }

  lemma EmptyReads(open: byte, close: byte, ws: bytes, rest: bytes)
    requires IsWs(ws) && !IsWsByte(close)
    ensures var s := [open] + (ws + [close]) + rest;
            WsRun(s[1..]) == |ws| && StartsWith(s[1 + |ws|..], close)
  {
    var s := [open] + (ws + [close]) + rest;
    assert s[1..] == ws + ([close] + rest);
    WsSkipped(ws, [close] + rest);
  }

  lemma ArrayUnfold(s: bytes, depth: nat, finite: bytes -> bool)
    requires StartsWith(s, LBRACKET) && depth <= MAX_DEPTH
    ensures var w := 1 + WsRun(s[1..]);
            ValueOf(s, depth, finite) ==
            if StartsWith(s[w..], RBRACKET) then Ok(Arr([]), w + 1)
            else Wrapped(ItemsOf(s[w..], depth, finite), w, vs => Arr(vs))
  {
    hide ItemsOf, WsRun;
  }

  lemma ObjectUnfold(s: bytes, depth: nat, finite: bytes -> bool)
    requires StartsWith(s, LBRACE) && depth <= MAX_DEPTH
    ensures var w := 1 + WsRun(s[1..]);
            ValueOf(s, depth, finite) ==
            if StartsWith(s[w..], RBRACE) then Ok(Obj([]), w + 1)
            else Wrapped(MembersOf(s[w..], depth, finite), w, ms => Obj(ms))
  {
    hide MembersOf, WsRun;
  }

  lemma ArrayTreeReads(items: Items, rest: bytes, depth: nat, finite: bytes -> bool)
    requires AreItems(items, finite) && depth <= MAX_DEPTH
    ensures ValueOf([LBRACKET] + ItemsText(items) + rest, depth, finite) ==
            Wrapped(ItemsOf([] + (ItemsBody(items) + rest), depth, finite), 1 + |items.before|, vs => Arr(vs))
  {
    TreeStarts(items.value, finite);
    ItemsTextIs(items);
    assert ItemsBody(items) != [] && ItemsBody(items)[0] == TreeText(items.value)[0] by { hide TreeText; }
    hide ItemsOf, TreeText, WsRun, ValueOf, ItemsText, ItemsBody;
    var s := [LBRACKET] + ItemsText(items) + rest;
    Opened(LBRACKET, items.before, ItemsBody(items), rest);
    ArrayUnfold(s, depth, finite);
  }

  /** An opening bracket, white space, and a body that starts with something else. */
  lemma Opened(open: byte, before: bytes, body: bytes, rest: bytes)
    requires IsWs(before) && body != [] && !IsWsByte(body[0])
    ensures var s := [open] + (before + body) + rest;
            && s[0] == open && WsRun(s[1..]) == |before|
            && s[1 + |before|..] == [] + (body + rest) && s[1 + |before|..][0] == body[0]
  {
    hide WsRun;
    var s := [open] + (before + body) + rest;
    assert s[1..] == before + (body + rest);
    WsSkipped(before, body + rest);
    assert [] + (body + rest) == body + rest;
    assert s[1 + |before|..] == body + rest;
  }

  lemma ObjectTreeReads(ms: Members, rest: bytes, depth: nat, finite: bytes -> bool)
    requires AreMembers(ms, finite) && depth <= MAX_DEPTH
    ensures ValueOf([LBRACE] + MembersText(ms) + rest, depth, finite) ==
            Wrapped(MembersOf([] + (MembersBody(ms) + rest), depth, finite), 1 + |ms.before|, v => Obj(v))
  {
    MembersTextIs(ms);
    assert MembersBody(ms) != [] && MembersBody(ms)[0] == QUOTE by { hide TreeText, CharsText; }
    hide MembersOf, WsRun, ValueOf, MembersText, MembersBody;
    var s := [LBRACE] + MembersText(ms) + rest;
    Opened(LBRACE, ms.before, MembersBody(ms), rest);
    ObjectUnfold(s, depth, finite);
  }

  lemma EndEndsNumber(after: bytes, end: bytes, rest: bytes)
    requires IsWs(after) && end != [] && (end[0] == COMMA || end[0] == RBRACKET || end[0] == RBRACE)
    ensures EndsNumber(after + end + rest)
  {
    var s := after + end + rest;
    assert s[0] == if after == [] then end[0] else after[0];
  }

  lemma {:induction false} ItemsRead(ws: bytes, items: Items, rest: bytes, depth: nat, finite: bytes -> bool)
    requires AreItems(items, finite) && IsWs(ws)
    ensures ItemsOf(ws + (ItemsBody(items) + rest), depth, finite) ==
            if depth + ItemsDepth(items) > MAX_DEPTH then Fail
            else Ok(ItemsMeaning(items, finite), |ws| + |ItemsBody(items)|)
    decreases items
  {
    hide ItemsOf, ValueOf, TreeText, ItemsText, ItemsBody, ItemsMeaning, TreeMeaning;
    EndEndsNumber(items.after, ItemsEnd(items), rest);
    assert items.after + ItemsEnd(items) + rest == items.after + (ItemsEnd(items) + rest);
    TreeReads(items.value, items.after + (ItemsEnd(items) + rest), depth + 1, finite);
    if items.MoreItems? {
      ItemsRead(items.rest.before, items.rest, rest, depth, finite);
    }
    ItemsJoined(ws, items, rest, depth, finite);
  }

  /** The step of `ItemsRead`: value and remaining items are already known to be read. */
  lemma ItemsJoined(ws: bytes, items: Items, rest: bytes, depth: nat, finite: bytes -> bool)
    requires AreItems(items, finite) && IsWs(ws)
    requires ValueOf(TreeText(items.value) + (items.after + (ItemsEnd(items) + rest)), depth + 1, finite) ==
             if depth + 1 + TreeDepth(items.value) > MAX_DEPTH then Fail
             else Ok(TreeMeaning(items.value, finite), |TreeText(items.value)|)
    requires items.MoreItems? ==>
               ItemsOf(items.rest.before + (ItemsBody(items.rest) + rest), depth, finite) ==
               if depth + ItemsDepth(items.rest) > MAX_DEPTH then Fail
               else Ok(ItemsMeaning(items.rest, finite), |items.rest.before| + |ItemsBody(items.rest)|)
    ensures ItemsOf(ws + (ItemsBody(items) + rest), depth, finite) ==
            if depth + ItemsDepth(items) > MAX_DEPTH then Fail
            else Ok(ItemsMeaning(items, finite), |ws| + |ItemsBody(items)|)
  {
    hide ItemsOf, ValueOf, TreeText, WsRun, ItemsText, ItemsBody, ItemsEnd;
    TreeStarts(items.value, finite);
    ItemsSplit(ws, items, rest);
    ItemsBodySize(items);
    assert IsWs(items.after);
    assert items.LastItem? ==> ItemsMeaning(items, finite) == [TreeMeaning(items.value, finite)];
    hide IsWsByte, IsWs, AreItems, TreeMeaning;
    var end := ItemsEnd(items) + rest;
    var s := ws + (ItemsBody(items) + rest);
    ItemCombines(s, |ws|, |TreeText(items.value)|, items.after, end, depth, finite);
  }

  /** Reading white space, one value, and what ends it. */
  lemma ItemCombines(s: bytes, k: nat, size: nat, after: bytes, end: bytes, depth: nat, finite: bytes -> bool)
    requires WsRun(s) == k && k + size <= |s| && s[k + size..] == after + end
    requires IsWs(after) && end != [] && (end[0] == COMMA || end[0] == RBRACKET)
    requires var v := ValueOf(s[k..], depth + 1, finite); v.Ok? ==> v.used == size
    ensures var v := ValueOf(s[k..], depth + 1, finite);
            ItemsOf(s, depth, finite) ==
            if v.Fail? then Fail
            else if end[0] == COMMA then After([v.value], k + size + |after| + 1, ItemsOf(end[1..], depth, finite))
            else Ok([v.value], k + size + |after| + 1)
  {
    hide ItemsOf, ItemsTail, ValueOf, WsRun, IsWs, After, Max, StartsWith;
    ItemsUnfold0(s, depth, finite);
    var v := ValueOf(s[k..], depth + 1, finite);
    if v.Ok? { ItemsTailReads(s, k + size, after, end, v.value, depth, finite); }
  }

  lemma ItemsSplit(ws: bytes, items: Items, rest: bytes)
    ensures var text := TreeText(items.value);
            var end := ItemsEnd(items) + rest;
            var s := ws + (ItemsBody(items) + rest);
            && s[|ws|..] == text + (items.after + end) && |ws| + |text| <= |s|
            && s[|ws| + |text|..] == items.after + end
            && (IsWs(ws) && text != [] && !IsWsByte(text[0]) ==> WsRun(s) == |ws|)
            && items.after + ItemsEnd(items) + rest == items.after + end
            && end != [] && (items.LastItem? ==> end[0] == RBRACKET)
            && (items.MoreItems? ==> end[0] == COMMA && end[1..] == items.rest.before + (ItemsBody(items.rest) + rest))
  {
    hide TreeText, ItemsText;
    if items.MoreItems? { ItemsTextIs(items.rest); }
    ItemsBodyIs(items);
    hide ItemsBody;
    var text := TreeText(items.value);
    TwoParts(ws, text, items.after, ItemsEnd(items), rest);
    if IsWs(ws) && text != [] && !IsWsByte(text[0]) {
      WsSkipped(ws, text + (items.after + (ItemsEnd(items) + rest)));
    }
  }

  lemma TwoParts(ws: bytes, text: bytes, after: bytes, end: bytes, rest: bytes)
    ensures var s := ws + (text + (after + end) + rest);
            && s == ws + (text + (after + (end + rest)))
            && s[|ws|..] == text + (after + (end + rest))
            && s[|ws| + |text|..] == after + (end + rest)
            && after + end + rest == after + (end + rest)
  {
    var s := ws + (text + (after + end) + rest);
    assert s == ws + (text + (after + (end + rest)));
  }

  lemma ItemsBodyIs(items: Items)
    ensures ItemsBody(items) == TreeText(items.value) + (items.after + ItemsEnd(items))
  {
    hide TreeText;
  }

  lemma ItemsBodySize(items: Items)
    ensures |ItemsBody(items)| == |TreeText(items.value)| + |items.after| + 1
              + if items.MoreItems? then |items.rest.before| + |ItemsBody(items.rest)| else 0
  {
    hide TreeText;
    if items.MoreItems? { ItemsTextIs(items.rest); }
  }

  lemma ItemsUnfold0(s: bytes, depth: nat, finite: bytes -> bool)
    ensures var w := WsRun(s);
            var value := ValueOf(s[w..], depth + 1, finite);
            ItemsOf(s, depth, finite) ==
            if value.Fail? then Fail else ItemsTail(s, 0, w + value.used, value.value, depth, finite)
  {
    hide ValueOf, ItemsTail, WsRun;
  }

  lemma MembersUnfold0(s: bytes, depth: nat, finite: bytes -> bool)
    ensures var key := KeyOf(s);
            MembersOf(s, depth, finite) ==
            if key.Fail? then Fail
            else
              var value := ValueOf(s[key.used..], depth + 1, finite);
              if value.Fail? then Fail
              else MembersTail(s, 0, key.used + value.used, Member(key.value, value.value), depth, finite)
  {
    hide ValueOf, MembersTail, KeyOf;
  }

  lemma MembersUnfoldAt(s: bytes, k: nat, key: bytes, depth: nat, finite: bytes -> bool)
    requires KeyOf(s) == Ok(key, k) && k <= |s|
    ensures var v := ValueOf(s[k..], depth + 1, finite);
            MembersOf(s, depth, finite) ==
            if v.Fail? then Fail else MembersTail(s, 0, k + v.used, Member(key, v.value), depth, finite)
  {
    hide ValueOf, MembersOf, MembersTail, KeyOf;
    MembersUnfold0(s, depth, finite);
  }

  lemma {:induction false} MembersRead(ws: bytes, ms: Members, rest: bytes, depth: nat, finite: bytes -> bool)
    requires AreMembers(ms, finite) && IsWs(ws)
    ensures MembersOf(ws + (MembersBody(ms) + rest), depth, finite) ==
            if depth + MembersDepth(ms) > MAX_DEPTH then Fail
            else Ok(MembersMeaning(ms, finite), |ws| + |MembersBody(ms)|)
    decreases ms
  {
    hide MembersOf, ValueOf, KeyOf, TreeText, MembersText, MembersBody, MembersMeaning, TreeMeaning,
      CharsText, CharsMeaning;
    EndEndsNumber(ms.after, MembersEnd(ms), rest);
    assert ms.after + MembersEnd(ms) + rest == ms.after + (MembersEnd(ms) + rest);
    TreeReads(ms.value, ms.after + (MembersEnd(ms) + rest), depth + 1, finite);
    if ms.MoreMembers? {
      MembersRead(ms.rest.before, ms.rest, rest, depth, finite);
    }
    MemberKeyReads(ws, ms, rest, finite);
    MembersJoined(ws, ms, rest, depth, finite);
  }

  lemma MemberKeyReads(ws: bytes, ms: Members, rest: bytes, finite: bytes -> bool)
    requires AreMembers(ms, finite) && IsWs(ws)
    ensures KeyOf(ws + (MembersBody(ms) + rest)) == Ok(CharsMeaning(ms.key), |ws| + |KeyBody(ms)|)
  {
    TreeStarts(ms.value, finite);
    MembersSplit(ws, ms, rest);
    hide MembersBody, KeyBody, TreeText, KeyOf, CharsMeaning, MembersEnd;
    KeyReads(ws, ms, TreeText(ms.value) + (ms.after + (MembersEnd(ms) + rest)));
  }

  /** The step of `MembersRead`. */
  lemma MembersJoined(ws: bytes, ms: Members, rest: bytes, depth: nat, finite: bytes -> bool)
    requires AreMembers(ms, finite) && IsWs(ws)
    requires KeyOf(ws + (MembersBody(ms) + rest)) == Ok(CharsMeaning(ms.key), |ws| + |KeyBody(ms)|)
    requires ValueOf(TreeText(ms.value) + (ms.after + (MembersEnd(ms) + rest)), depth + 1, finite) ==
             if depth + 1 + TreeDepth(ms.value) > MAX_DEPTH then Fail
             else Ok(TreeMeaning(ms.value, finite), |TreeText(ms.value)|)
    requires ms.MoreMembers? ==>
               MembersOf(ms.rest.before + (MembersBody(ms.rest) + rest), depth, finite) ==
               if depth + MembersDepth(ms.rest) > MAX_DEPTH then Fail
               else Ok(MembersMeaning(ms.rest, finite), |ms.rest.before| + |MembersBody(ms.rest)|)
    ensures MembersOf(ws + (MembersBody(ms) + rest), depth, finite) ==
            if depth + MembersDepth(ms) > MAX_DEPTH then Fail
            else Ok(MembersMeaning(ms, finite), |ws| + |MembersBody(ms)|)
  {
    hide MembersOf, ValueOf, KeyOf, TreeText, MembersText, MembersBody, KeyBody, MembersEnd, CharsMeaning, CharsText;
    MembersSeams(ws, ms, rest);
    MembersBodySize(ms);
    assert IsWs(ms.after);
    assert ms.LastMember? ==> MembersMeaning(ms, finite) == [Member(CharsMeaning(ms.key), TreeMeaning(ms.value,
            finite))];
    hide IsWsByte, IsWs, AreMembers, TreeMeaning;
    var s := ws + (MembersBody(ms) + rest);
    MemberCombines(s, |ws| + |KeyBody(ms)|, CharsMeaning(ms.key), |TreeText(ms.value)|, ms.after, MembersEnd(ms) + rest,
                   depth, finite);
  }

  lemma MembersSeams(ws: bytes, ms: Members, rest: bytes)
    ensures var end := MembersEnd(ms) + rest;
            var s := ws + (MembersBody(ms) + rest);
            var k := |ws| + |KeyBody(ms)|;
            && k + |TreeText(ms.value)| <= |s|
            && s[k..] == TreeText(ms.value) + (ms.after + end)
            && s[k + |TreeText(ms.value)|..] == ms.after + end
            && end != [] && (ms.LastMember? ==> end[0] == RBRACE)
            && (ms.MoreMembers? ==> end[0] == COMMA && end[1..] == ms.rest.before + (MembersBody(ms.rest) + rest))
  {
    hide MembersBody, KeyBody, TreeText;
    MembersSplit(ws, ms, rest);
  }

  lemma MemberCombines(s: bytes, k: nat, key: bytes, size: nat, after: bytes, end: bytes, depth: nat,
        finite: bytes -> bool)
    requires KeyOf(s) == Ok(key, k) && k + size <= |s| && s[k + size..] == after + end
    requires IsWs(after) && end != [] && (end[0] == COMMA || end[0] == RBRACE)
    requires var v := ValueOf(s[k..], depth + 1, finite); v.Ok? ==> v.used == size
    ensures var v := ValueOf(s[k..], depth + 1, finite);
            MembersOf(s, depth, finite) ==
            if v.Fail? then Fail
            else if end[0] == COMMA then
              After([Member(key, v.value)], k + size + |after| + 1, MembersOf(end[1..], depth, finite))
            else Ok([Member(key, v.value)], k + size + |after| + 1)
  {
    hide *;
    MembersUnfoldAt(s, k, key, depth, finite);
    var v := ValueOf(s[k..], depth + 1, finite);
    if v.Ok? { MembersTailReads(s, k + size, after, end, Member(key, v.value), depth, finite); }
  }

  lemma MembersSplit(ws: bytes, ms: Members, rest: bytes)
    ensures var text := TreeText(ms.value);
            var end := MembersEnd(ms) + rest;
            var s := ws + (MembersBody(ms) + rest);
            var k := |ws| + |KeyBody(ms)|;
            && s == ws + (KeyBody(ms) + (text + (ms.after + end))) && s[k..] == text + (ms.after + end)
            && k + |text| <= |s| && s[k + |text|..] == ms.after + end
            && ms.after + MembersEnd(ms) + rest == ms.after + end
            && end != [] && (ms.LastMember? ==> end[0] == RBRACE)
            && (ms.MoreMembers? ==> end[0] == COMMA && end[1..] == ms.rest.before + (MembersBody(ms.rest) + rest))
  {
    hide TreeText, MembersText, KeyBody;
    if ms.MoreMembers? { MembersTextIs(ms.rest); }
    MembersBodyIs(ms);
    hide MembersBody;
    ThreeParts(ws, KeyBody(ms), TreeText(ms.value), ms.after, MembersEnd(ms), rest);
  }

  lemma ThreeParts(ws: bytes, key: bytes, text: bytes, after: bytes, end: bytes, rest: bytes)
    ensures var s := ws + (key + (text + (after + end)) + rest);
            && s == ws + (key + (text + (after + (end + rest))))
            && s[|ws| + |key|..] == text + (after + (end + rest))
            && s[|ws| + |key| + |text|..] == after + (end + rest)
            && after + end + rest == after + (end + rest)
  {
    var s := ws + (key + (text + (after + end)) + rest);
    assert s == ws + (key + (text + (after + (end + rest))));
  }

  lemma MembersBodyIs(ms: Members)
    ensures MembersBody(ms) == KeyBody(ms) + (TreeText(ms.value) + (ms.after + MembersEnd(ms)))
  {
    hide TreeText, KeyBody;
  }

  lemma MembersBodySize(ms: Members)
    ensures |MembersBody(ms)| == |KeyBody(ms)| + |TreeText(ms.value)| + |ms.after| + 1
              + if ms.MoreMembers? then |ms.rest.before| + |MembersBody(ms.rest)| else 0
  {
    hide TreeText, KeyBody;
    if ms.MoreMembers? { MembersTextIs(ms.rest); }
  }

  // ---- soundness: everything read is a derivation ---------------------------------------------------

  lemma WithWs(ws: bytes, items: Items, finite: bytes -> bool)
    requires IsWs(ws) && AreItems(items, finite)
    ensures var more := items.(before := ws + items.before);
            && AreItems(more, finite) && ItemsText(more) == ws + ItemsText(items)
            && ItemsMeaning(more, finite) == ItemsMeaning(items, finite) && ItemsDepth(more) == ItemsDepth(items)
  {
    hide TreeText, IsTree, TreeMeaning;
    var more := items.(before := ws + items.before);
    ItemsTextIs(items);
    ItemsTextIs(more);
    assert ItemsBody(more) == ItemsBody(items);
    assert ws + (items.before + ItemsBody(items)) == (ws + items.before) + ItemsBody(items);
  }

  lemma WithWsMembers(ws: bytes, ms: Members, finite: bytes -> bool)
    requires IsWs(ws) && AreMembers(ms, finite)
    ensures var more := ms.(before := ws + ms.before);
            && AreMembers(more, finite) && MembersText(more) == ws + MembersText(ms)
            && MembersMeaning(more, finite) == MembersMeaning(ms, finite) && MembersDepth(more) == MembersDepth(ms)
  {
    WithWsText(ws, ms);
    hide TreeText, KeyText, MembersText, CharsMeaning, AreChars, IsTree, TreeMeaning, TreeDepth;
  }

  lemma WithWsText(ws: bytes, ms: Members)
    ensures MembersText(ms.(before := ws + ms.before)) == ws + MembersText(ms)
  {
    hide TreeText, KeyText, MembersText;
    var more := ms.(before := ws + ms.before);
    MembersTextIs(ms);
    MembersTextIs(more);
    SameBody(ms, ws + ms.before);
    hide MembersBody;
    assert ws + (ms.before + MembersBody(ms)) == (ws + ms.before) + MembersBody(ms);
  }

  lemma SameBody(ms: Members, before: bytes)
    ensures MembersBody(ms.(before := before)) == MembersBody(ms)
  {
    hide TreeText, KeyText, MembersText;
  }

  /** `t` derives the first `n` bytes of `s` with meaning `v`, and fits below `depth`. */
  ghost predicate Derives(t: Tree, s: bytes, n: nat, v: Value, depth: nat, finite: bytes -> bool) {
    && IsTree(t, finite) && n <= |s| && TreeText(t) == s[..n] && TreeMeaning(t, finite) == v
    && depth + TreeDepth(t) <= MAX_DEPTH
  }

  ghost predicate DerivesItems(items: Items, s: bytes, n: nat, vs: seq<Value>, depth: nat, finite: bytes -> bool) {
    && AreItems(items, finite) && n <= |s| && ItemsText(items) == s[..n] && ItemsMeaning(items, finite) == vs
    && depth + ItemsDepth(items) <= MAX_DEPTH
  }

  ghost predicate DerivesMembers(ms: Members, s: bytes, n: nat, vs: seq<Member>, depth: nat, finite: bytes -> bool) {
    && AreMembers(ms, finite) && n <= |s| && MembersText(ms) == s[..n] && MembersMeaning(ms, finite) == vs
    && depth + MembersDepth(ms) <= MAX_DEPTH
  }

  /** Whatever is read has a derivation. */
  lemma {:induction false} ValueWas(s: bytes, depth: nat, finite: bytes -> bool) returns (t: Tree)
    requires ValueOf(s, depth, finite).Ok?
    ensures var r := ValueOf(s, depth, finite); Derives(t, s, r.used, r.value, depth, finite)
    decreases |s|, 1
  {
    match s[0]
    case 91 => t := ArrayWas(s, depth, finite);
    case 123 => t := ObjectWas(s, depth, finite);
    case 34 => t := StringTreeWas(s, depth, finite);
    case _ => t := ScalarWas(s, depth, finite);
  }

  lemma StringTreeWas(s: bytes, depth: nat, finite: bytes -> bool) returns (t: Tree)
    requires ValueOf(s, depth, finite).Ok? && s[0] == 34
    ensures var r := ValueOf(s, depth, finite); Derives(t, s, r.used, r.value, depth, finite)
  {
    hide StringOf, CharsText, CharsMeaning, AreChars;
    var cs := StringWas(s);
    t := TString(cs);
  }

  lemma ScalarWas(s: bytes, depth: nat, finite: bytes -> bool) returns (t: Tree)
    requires ValueOf(s, depth, finite).Ok? && s[0] != 34 && s[0] != 91 && s[0] != 123
    ensures var r := ValueOf(s, depth, finite); Derives(t, s, r.used, r.value, depth, finite)
  {
    hide NumberOf, NumeralText, NumeralMeaning;
    match s[0]
    case 110 => t := TNull;
    case 116 => t := TBool(true);
    case 102 => t := TBool(false);
    case _ => {
      var n := NumberWas(s, finite);
      t := TNumber(n);
    }
  }

  lemma {:induction false} ArrayWas(s: bytes, depth: nat, finite: bytes -> bool) returns (t: Tree)
    requires ValueOf(s, depth, finite).Ok? && s[0] == LBRACKET
    ensures var r := ValueOf(s, depth, finite); Derives(t, s, r.used, r.value, depth, finite)
    decreases |s|, 0
  {
    hide ValueOf, ItemsOf, Derives, DerivesItems, WsRun;
    var w := ArrayParts(s, depth, finite);
    if StartsWith(s[w..], RBRACKET) {
      t := TEmptyArray(s[1..w]);
      EmptyArrayDerives(s, w, depth, finite);
    } else {
      var items := ItemsWere(s[w..], depth, finite);
      t := TArray(items.(before := s[1..w] + items.before));
      ArrayDerives(s, w, ItemsOf(s[w..], depth, finite).used, items, ItemsOf(s[w..], depth, finite).value, depth,
                   finite);
    }
  }

  lemma ArrayParts(s: bytes, depth: nat, finite: bytes -> bool) returns (w: nat)
    requires ValueOf(s, depth, finite).Ok? && s[0] == LBRACKET
    ensures w == 1 + WsRun(s[1..]) && 1 <= w <= |s| && depth <= MAX_DEPTH
    ensures if StartsWith(s[w..], RBRACKET) then ValueOf(s, depth, finite) == Ok(Arr([]), w + 1)
            else
              var r := ItemsOf(s[w..], depth, finite);
              r.Ok? && ValueOf(s, depth, finite) == Ok(Arr(r.value), w + r.used)
  {
    hide ItemsOf, WsRun;
    ArrayUnfold(s, depth, finite);
    w := 1 + WsRun(s[1..]);
  }

  lemma ObjectParts(s: bytes, depth: nat, finite: bytes -> bool) returns (w: nat)
    requires ValueOf(s, depth, finite).Ok? && s[0] == LBRACE
    ensures w == 1 + WsRun(s[1..]) && 1 <= w <= |s| && depth <= MAX_DEPTH
    ensures if StartsWith(s[w..], RBRACE) then ValueOf(s, depth, finite) == Ok(Obj([]), w + 1)
            else
              var r := MembersOf(s[w..], depth, finite);
              r.Ok? && ValueOf(s, depth, finite) == Ok(Obj(r.value), w + r.used)
  {
    hide MembersOf, WsRun;
    ObjectUnfold(s, depth, finite);
    w := 1 + WsRun(s[1..]);
  }

  lemma EmptyArrayDerives(s: bytes, w: nat, depth: nat, finite: bytes -> bool)
    requires StartsWith(s, LBRACKET) && w == 1 + WsRun(s[1..]) && StartsWith(s[w..], RBRACKET) && depth <= MAX_DEPTH
    ensures Derives(TEmptyArray(s[1..w]), s, w + 1, Arr([]), depth, finite)
  {
    assert s[1..w] == s[1..][..w - 1];
    assert s[..w + 1] == [LBRACKET] + (s[1..w] + [RBRACKET]);
  }

  lemma ArrayDerives(s: bytes, w: nat, n: nat, items: Items, vs: seq<Value>, depth: nat, finite: bytes -> bool)
    requires StartsWith(s, LBRACKET) && w == 1 + WsRun(s[1..]) && depth <= MAX_DEPTH
    requires DerivesItems(items, s[w..], n, vs, depth, finite)
    ensures Derives(TArray(items.(before := s[1..w] + items.before)), s, w + n, Arr(vs), depth, finite)
  {
    hide ItemsText, AreItems, ItemsMeaning, WsRun;
    assert s[1..w] == s[1..][..w - 1];
    WithWs(s[1..w], items, finite);
    assert s[..w + n] == [LBRACKET] + (s[1..w] + s[w..][..n]);
  }

  lemma {:induction false} ObjectWas(s: bytes, depth: nat, finite: bytes -> bool) returns (t: Tree)
    requires ValueOf(s, depth, finite).Ok? && s[0] == LBRACE
    ensures var r := ValueOf(s, depth, finite); Derives(t, s, r.used, r.value, depth, finite)
    decreases |s|, 0
  {
    hide ValueOf, MembersOf, Derives, DerivesMembers, WsRun;
    var w := ObjectParts(s, depth, finite);
    if StartsWith(s[w..], RBRACE) {
      t := TEmptyObject(s[1..w]);
      EmptyObjectDerives(s, w, depth, finite);
    } else {
      var ms := MembersWere(s[w..], depth, finite);
      t := TObject(ms.(before := s[1..w] + ms.before));
      ObjectDerives(s, w, MembersOf(s[w..], depth, finite).used, ms, MembersOf(s[w..], depth, finite).value, depth,
                    finite);
    }
  }

  lemma EmptyObjectDerives(s: bytes, w: nat, depth: nat, finite: bytes -> bool)
    requires StartsWith(s, LBRACE) && w == 1 + WsRun(s[1..]) && StartsWith(s[w..], RBRACE) && depth <= MAX_DEPTH
    ensures Derives(TEmptyObject(s[1..w]), s, w + 1, Obj([]), depth, finite)
  {
    assert s[1..w] == s[1..][..w - 1];
    assert s[..w + 1] == [LBRACE] + (s[1..w] + [RBRACE]);
  }

  lemma ObjectDerives(s: bytes, w: nat, n: nat, ms: Members, vs: seq<Member>, depth: nat, finite: bytes -> bool)
    requires StartsWith(s, LBRACE) && w == 1 + WsRun(s[1..]) && depth <= MAX_DEPTH
    requires DerivesMembers(ms, s[w..], n, vs, depth, finite)
    ensures Derives(TObject(ms.(before := s[1..w] + ms.before)), s, w + n, Obj(vs), depth, finite)
  {
    hide MembersText, AreMembers, MembersMeaning, WsRun;
    assert s[1..w] == s[1..][..w - 1];
    WithWsMembers(s[1..w], ms, finite);
    assert s[..w + n] == [LBRACE] + (s[1..w] + s[w..][..n]);
  }

  /** How a successful item list splits: white space, value, white space, and what ends it. */
  lemma ItemParts(s: bytes, depth: nat, finite: bytes -> bool) returns (w: nat, n: nat, e: nat)
    requires ItemsOf(s, depth, finite).Ok?
    ensures w + n <= e < |s| && IsWs(s[..w]) && IsWs(s[w + n..e])
    ensures var v := ValueOf(s[w..], depth + 1, finite);
            var r := ItemsOf(s, depth, finite);
            && v.Ok? && v.used == n
            && if s[e] == COMMA then
                 var more := ItemsOf(s[e + 1..], depth, finite);
                 more.Ok? && r == Ok([v.value] + more.value, e + 1 + more.used)
               else s[e] == RBRACKET && r == Ok([v.value], e + 1)
  {
    hide ItemsOf, ValueOf, WsRun, IsWs, Max;
    ItemsUnfold0(s, depth, finite);
    w := WsRun(s);
    n := ValueOf(s[w..], depth + 1, finite).used;
    e := w + n + WsRun(s[w + n..]);
    assert s[w + n..e] == s[w + n..][..e - w - n];
  }

  lemma {:induction false} ItemsWere(s: bytes, depth: nat, finite: bytes -> bool) returns (items: Items)
    requires ItemsOf(s, depth, finite).Ok?
    ensures var r := ItemsOf(s, depth, finite); DerivesItems(items, s, r.used, r.value, depth, finite)
    decreases |s|, 2
  {
    hide ItemsOf, ValueOf;
    var w, n, e := ItemParts(s, depth, finite);
    var v := ValueWas(s[w..], depth + 1, finite);
    if s[e] == COMMA {
      var rest := ItemsWere(s[e + 1..], depth, finite);
      items := MoreItems(s[..w], v, s[w + n..e], rest);
      MoreItemsDerive(s, w, n, e, ItemsOf(s[e + 1..], depth, finite).used, items, depth, finite);
    } else {
      items := LastItem(s[..w], v, s[w + n..e]);
      LastItemDerives(s, w, n, e, items, depth, finite);
    }
  }

  lemma LastItemDerives(s: bytes, w: nat, n: nat, e: nat, items: Items, depth: nat, finite: bytes -> bool)
    requires w + n <= e < |s| && s[e] == RBRACKET && items.LastItem?
    requires items.before == s[..w] && items.after == s[w + n..e] && IsWs(items.before) && IsWs(items.after)
    requires IsTree(items.value, finite)
    requires Derives(items.value, s[w..], n, TreeMeaning(items.value, finite), depth + 1, finite)
    ensures DerivesItems(items, s, e + 1, [TreeMeaning(items.value, finite)], depth, finite)
  {
    hide TreeText, TreeMeaning, IsTree;
    Regroup(items.before, TreeText(items.value), items.after, [RBRACKET], []);
    assert s[..e + 1] == s[..w] + s[w..][..n] + s[w + n..e] + [s[e]];
  }

  lemma MoreItemsDerive(s: bytes, w: nat, n: nat, e: nat, m: nat, items: Items, depth: nat, finite: bytes -> bool)
    requires w + n <= e < |s| && s[e] == COMMA && items.MoreItems?
    requires items.before == s[..w] && items.after == s[w + n..e] && IsWs(items.before) && IsWs(items.after)
    requires IsTree(items.value, finite)
    requires Derives(items.value, s[w..], n, TreeMeaning(items.value, finite), depth + 1, finite)
    requires AreItems(items.rest, finite)
    requires DerivesItems(items.rest, s[e + 1..], m, ItemsMeaning(items.rest, finite), depth, finite)
    ensures DerivesItems(items, s, e + 1 + m, [TreeMeaning(items.value, finite)] + ItemsMeaning(items.rest, finite),
                         depth, finite)
  {
    hide TreeText, TreeMeaning, IsTree;
    Regroup(items.before, TreeText(items.value), items.after, [COMMA] + ItemsText(items.rest), []);
    assert s[..e + 1 + m] == s[..w] + s[w..][..n] + s[w + n..e] + ([s[e]] + s[e + 1..][..m]);
  }

  lemma MemberParts(s: bytes, depth: nat, finite: bytes -> bool) returns (k: nat, n: nat, e: nat)
    requires MembersOf(s, depth, finite).Ok?
    ensures k + n <= e < |s| && KeyOf(s).Ok? && KeyOf(s).used == k && IsWs(s[k + n..e])
    ensures var v := ValueOf(s[k..], depth + 1, finite);
            var r := MembersOf(s, depth, finite);
            && v.Ok? && v.used == n
            && if s[e] == COMMA then
                 var more := MembersOf(s[e + 1..], depth, finite);
                 more.Ok? && r == Ok([Member(KeyOf(s).value, v.value)] + more.value, e + 1 + more.used)
               else s[e] == RBRACE && r == Ok([Member(KeyOf(s).value, v.value)], e + 1)
  {
    hide MembersOf, ValueOf, KeyOf, WsRun, IsWs, Max;
    MembersUnfold0(s, depth, finite);
    k := KeyOf(s).used;
    n := ValueOf(s[k..], depth + 1, finite).used;
    e := k + n + WsRun(s[k + n..]);
    assert s[k + n..e] == s[k + n..][..e - k - n];
  }

  lemma KeyWas(s: bytes) returns (before: bytes, key: seq<Char>, mid: bytes, beforeValue: bytes)
    requires KeyOf(s).Ok?
    ensures IsWs(before) && AreChars(key) && IsWs(mid) && IsWs(beforeValue)
    ensures CharsMeaning(key) == KeyOf(s).value
    ensures before + KeyText(key, mid, beforeValue) == s[..KeyOf(s).used]
  {
    hide StringOf, CharsText, CharsMeaning, AreChars, KeyTail;
    var w := WsRun(s);
    key := StringWas(s[w..]);
    var a := w + StringOf(s[w..]).used;
    mid, beforeValue := KeyTailWas(s, a, StringOf(s[w..]).value);
    before := s[..w];
    assert s[..a] == s[..w] + s[w..][..a - w];
    Regroup(before, [QUOTE] + CharsText(key), mid, [COLON], beforeValue);
  }

  lemma Regroup(a: bytes, b: bytes, c: bytes, d: bytes, e: bytes)
    ensures a + (b + (c + d + e)) == (a + b) + c + d + e
    ensures a + (b + (c + (d + e))) == (a + b) + c + d + e
    ensures a + (b + (c + d)) == a + b + c + d
  {
  }

  lemma KeyTailWas(s: bytes, a: nat, key: bytes) returns (mid: bytes, beforeValue: bytes)
    requires a <= |s| && KeyTail(s, 0, a, key).Ok?
    ensures IsWs(mid) && IsWs(beforeValue) && KeyTail(s, 0, a, key).value == key
    ensures s[..a] + mid + [COLON] + beforeValue == s[..KeyTail(s, 0, a, key).used]
  {
    var e := a + WsRun(s[a..]);
    var b := e + 1 + WsRun(s[e + 1..]);
    mid, beforeValue := s[a..][..e - a], s[e + 1..][..b - e - 1];
    assert s[e..][0] == s[e];
    hide WsRun, IsWs;
    KeyPieces(s, a, e, b);
  }

  lemma KeyPieces(s: bytes, a: nat, e: nat, b: nat)
    requires a <= e < b <= |s|
    ensures s[..b] == s[..a] + s[a..][..e - a] + [s[e]] + s[e + 1..][..b - e - 1]
  {
  }

  lemma {:induction false} MembersWere(s: bytes, depth: nat, finite: bytes -> bool) returns (ms: Members)
    requires MembersOf(s, depth, finite).Ok?
    ensures var r := MembersOf(s, depth, finite); DerivesMembers(ms, s, r.used, r.value, depth, finite)
    decreases |s|, 2
  {
    hide MembersOf, ValueOf, KeyOf;
    var k, n, e := MemberParts(s, depth, finite);
    var before, key, mid, beforeValue := KeyWas(s);
    var v := ValueWas(s[k..], depth + 1, finite);
    if s[e] == COMMA {
      var rest := MembersWere(s[e + 1..], depth, finite);
      ms := MoreMembers(before, key, mid, beforeValue, v, s[k + n..e], rest);
      MoreMembersDerive(s, k, n, e, MembersOf(s[e + 1..], depth, finite).used, ms, depth, finite);
    } else {
      ms := LastMember(before, key, mid, beforeValue, v, s[k + n..e]);
      LastMemberDerives(s, k, n, e, ms, depth, finite);
    }
  }

  lemma LastMemberDerives(s: bytes, k: nat, n: nat, e: nat, ms: Members, depth: nat, finite: bytes -> bool)
    requires k + n <= e < |s| && s[e] == RBRACE && ms.LastMember? && ms.after == s[k + n..e]
    requires IsWs(ms.before) && AreChars(ms.key) && IsWs(ms.mid) && IsWs(ms.beforeValue) && IsWs(ms.after)
    requires ms.before + KeyText(ms.key, ms.mid, ms.beforeValue) == s[..k]
    requires IsTree(ms.value, finite) && Derives(ms.value, s[k..], n, TreeMeaning(ms.value, finite), depth + 1, finite)
    ensures DerivesMembers(ms, s, e + 1, [Member(CharsMeaning(ms.key), TreeMeaning(ms.value, finite))], depth, finite)
  {
    hide TreeText, TreeMeaning, IsTree, KeyText, CharsMeaning, AreChars;
    Regroup(ms.before, KeyText(ms.key, ms.mid, ms.beforeValue), TreeText(ms.value), ms.after, [RBRACE]);
    assert s[..e + 1] == s[..k] + s[k..][..n] + s[k + n..e] + [s[e]];
  }

  lemma MoreMembersDerive(s: bytes, k: nat, n: nat, e: nat, m: nat, ms: Members, depth: nat, finite: bytes -> bool)
    requires k + n <= e < |s| && s[e] == COMMA && ms.MoreMembers? && ms.after == s[k + n..e]
    requires IsWs(ms.before) && AreChars(ms.key) && IsWs(ms.mid) && IsWs(ms.beforeValue) && IsWs(ms.after)
    requires ms.before + KeyText(ms.key, ms.mid, ms.beforeValue) == s[..k]
    requires IsTree(ms.value, finite) && Derives(ms.value, s[k..], n, TreeMeaning(ms.value, finite), depth + 1, finite)
    requires AreMembers(ms.rest, finite)
    requires DerivesMembers(ms.rest, s[e + 1..], m, MembersMeaning(ms.rest, finite), depth, finite)
    ensures DerivesMembers(ms, s, e + 1 + m,
                           [Member(CharsMeaning(ms.key), TreeMeaning(ms.value, finite))] + MembersMeaning(ms.rest,
                                   finite),
                           depth, finite)
  {
    hide TreeText, TreeMeaning, IsTree, KeyText, CharsMeaning, AreChars;
    Regroup(ms.before, KeyText(ms.key, ms.mid, ms.beforeValue), TreeText(ms.value), ms.after,
            [COMMA] + MembersText(ms.rest));
    Pieces(s, k, n, e, m);
  }

  lemma Pieces(s: bytes, k: nat, n: nat, e: nat, m: nat)
    requires k + n <= e < |s| && e + 1 + m <= |s|
    ensures s[..e + 1 + m] == s[..k] + s[k..][..n] + s[k + n..e] + ([s[e]] + s[e + 1..][..m])
  {
  }

  // ---- documents ------------------------------------------------------------------------------------

  /** `src` is white space, a derivation of `v` nested at most 256 deep, and white space. */
  ghost predicate IsDocument(src: bytes, before: bytes, t: Tree, after: bytes, v: Value, finite: bytes -> bool) {
    && IsWs(before) && IsWs(after) && IsTree(t, finite) && TreeDepth(t) <= 256
    && src == before + TreeText(t) + after && TreeMeaning(t, finite) == v
  }

  /** Outcome of parsing white space, a derivation, and white space, at any depth of nesting. */
  lemma DocumentReads(before: bytes, t: Tree, after: bytes, finite: bytes -> bool)
    requires IsWs(before) && IsWs(after) && IsTree(t, finite)
    ensures DocumentOf(before + TreeText(t) + after, finite) ==
            if TreeDepth(t) <= MAX_DEPTH then Some(TreeMeaning(t, finite)) else None
  {
    TreeStarts(t, finite);
    assert EndsNumber(after);
    TreeReads(t, after, 0, finite);
    hide TreeText, TreeMeaning, IsTree, ValueOf, WsRun;
    var text := TreeText(t);
    var src := before + text + after;
    assert src == before + (text + after);
    WsSkipped(before, text + after);
    assert src[|before| + |text|..] == after;
    WsRunIs(after, []);
    assert after + [] == after;
  }

  /** The parser accepts exactly the documents of the grammar, with their meaning. */
  lemma DocumentExact(src: bytes, v: Value, finite: bytes -> bool)
    ensures DocumentOf(src, finite) == Some(v)
            <==> exists before, t, after :: IsDocument(src, before, t, after, v, finite)
  {
    hide TreeText, TreeMeaning, IsTree, ValueOf, DocumentOf;
    if DocumentOf(src, finite) == Some(v) {
      var before, t, after := DocumentWas(src, finite);
      assert IsDocument(src, before, t, after, v, finite);
    }
    forall before, t, after | IsDocument(src, before, t, after, v, finite)
      ensures DocumentOf(src, finite) == Some(v)
    {
      DocumentReads(before, t, after, finite);
    }
  }

  lemma DocumentWas(src: bytes, finite: bytes -> bool) returns (before: bytes, t: Tree, after: bytes)
    requires DocumentOf(src, finite).Some?
    ensures IsDocument(src, before, t, after, DocumentOf(src, finite).value, finite)
  {
    hide TreeText, TreeMeaning, IsTree, ValueOf;
    var w := WsRun(src);
    t := ValueWas(src[w..], 0, finite);
    var n := ValueOf(src[w..], 0, finite).used;
    before, after := src[..w], src[w + n..];
    assert src == src[..w] + src[w..][..n] + src[w + n..];
    assert after[..WsRun(after)] == after;
  }

  // ---- serialized values are documents ------------------------------------------------------------------

  function SpellChars(s: bytes): (cs: seq<Char>)
    ensures AreChars(cs) && CharsText(cs) == Escaped(s) && CharsMeaning(cs) == s
  {
    if s == [] then []
    else
      var more := SpellChars(s[1..]);
      var cs := [Spelled(s[0])] + more;
      SpelledMeans(s[0]);
      assert cs[1..] == more;
      cs
  }

  /** A byte is written as its short escape, the slash apart, other control bytes as `\u00` and two small digits, and
    * the rest raw. */
  lemma SpelledExact(b: byte)
    ensures forall letter: byte :: IsShort(letter, b) && b != SLASH ==> CharText(Spelled(b)) == [BACKSLASH, letter]
    ensures (forall letter: byte :: !IsShort(letter, b)) && b < 32 ==>
              var digits := Ascii("0123456789abcdef");
              CharText(Spelled(b)) == Ascii("\\u00") + [digits[b / 16], digits[b % 16]]
    ensures b >= 32 && (forall letter: byte :: !IsShort(letter, b)) ==> CharText(Spelled(b)) == [b]
    ensures CharText(Spelled(SLASH)) == [SLASH]
  {
    var prefix, digits := "\\u00", "0123456789abcdef";
    assert Ascii(prefix) == [BACKSLASH, 117, 48, 48];
    assert forall i :: 0 <= i < 16 ==> digits[i] as int == HexLower(i);
    assert IsShort(34, 34) && IsShort(92, 92) && IsShort(98, 8) && IsShort(102, 12) && IsShort(110, 10);
    assert IsShort(114, 13) && IsShort(116, 9);
    if b < 32 {
      assert Ascii(digits)[b / 16] == HexLower(b / 16) && Ascii(digits)[b % 16] == HexLower(b % 16);
    }
  }

  lemma SpelledMeans(b: byte)
    ensures IsChar(Spelled(b)) && CharMeaning(Spelled(b)) == [b]
  {
    if b < 32 { assert HexDigit(HexLower(b / 16)) == b / 16 && HexDigit(HexLower(b % 16)) == b % 16; }
  }

  function IntNumeral(n: int64): Numeral {
    Numeral(n < 0, Decimal(if n < 0 then 0 - n else n), None, None)
  }

  lemma IntNumeralIs(n: int64)
    ensures var m := IntNumeral(n);
            IsNumeral(m) && NumeralText(m) == SignedDecimal(n) && NumeralMeaning(m) == Int(n)
  {
    hide Decimal, DecimalValue, AllDigits;
    var m := IntNumeral(n);
    assert WholeText(m) + [] + [] == WholeText(m);
    assert n >= 0 ==> [] + m.whole == m.whole;
  }

  function DumpTree(v: Value): Tree
    requires DoubleFree(v)
  {
    match v
    case Null => TNull
    case Bool(b) => TBool(b)
    case Int(n) => TNumber(IntNumeral(n))
    case Str(s) => TString(SpellChars(s))
    case Arr(items) => if items == [] then TEmptyArray([]) else TArray(DumpItemsTree(items))
    case Obj(members) => if members == [] then TEmptyObject([]) else TObject(DumpMembersTree(members))
  }

  function DumpItemsTree(items: seq<Value>): Items
    requires items != [] && forall i :: 0 <= i < |items| ==> DoubleFree(items[i])
  {
    if |items| == 1 then LastItem([], DumpTree(items[0]), [])
    else MoreItems([], DumpTree(items[0]), [], DumpItemsTree(items[1..]))
  }

  function DumpMembersTree(ms: seq<Member>): Members
    requires ms != [] && forall i :: 0 <= i < |ms| ==> DoubleFree(ms[i].value)
  {
    var m := ms[0];
    if |ms| == 1 then LastMember([], SpellChars(m.key), [], [], DumpTree(m.value), [])
    else MoreMembers([], SpellChars(m.key), [], [], DumpTree(m.value), [], DumpMembersTree(ms[1..]))
  }

  /** `t` spells `v` the way it is serialized. */
  ghost predicate Spells(t: Tree, v: Value, finite: bytes -> bool)
    requires DoubleFree(v)
  {
    IsTree(t, finite) && TreeText(t) == Dump(v) && TreeMeaning(t, finite) == v && TreeDepth(t) == Height(v)
  }

  lemma {:induction false} DumpDerives(v: Value, finite: bytes -> bool)
    requires DoubleFree(v)
    ensures Spells(DumpTree(v), v, finite)
    decreases v
  {
    match v
    case Arr(items) => {
      if items != [] { DumpItemsDerive(items, finite); }
      ArrDerives(items, finite);
    }
    case Obj(members) => {
      if members != [] { DumpMembersDerive(members, finite); }
      ObjDerives(members, finite);
    }
    case _ => ScalarDerives(v, finite);
  }

  lemma ScalarDerives(v: Value, finite: bytes -> bool)
    requires DoubleFree(v) && !v.Arr? && !v.Obj?
    ensures Spells(DumpTree(v), v, finite)
  {
    if v.Int? { IntNumeralIs(v.n); }
    hide NumeralText, NumeralMeaning, SignedDecimal, IntNumeral, CharsText, CharsMeaning, Escaped;
  }

  ghost predicate SpellsItems(t: Items, items: seq<Value>, finite: bytes -> bool)
    requires forall i :: 0 <= i < |items| ==> DoubleFree(items[i])
  {
    && AreItems(t, finite) && ItemsText(t) == DumpItems(items)
    && ItemsMeaning(t, finite) == items && ItemsDepth(t) == HeightOfItems(items)
  }

  ghost predicate SpellsMembers(t: Members, ms: seq<Member>, finite: bytes -> bool)
    requires forall i :: 0 <= i < |ms| ==> DoubleFree(ms[i].value)
  {
    && AreMembers(t, finite) && MembersText(t) == DumpMembers(ms)
    && MembersMeaning(t, finite) == ms && MembersDepth(t) == HeightOfMembers(ms)
  }

  lemma ArrDerives(items: seq<Value>, finite: bytes -> bool)
    requires DoubleFree(Arr(items)) && (items != [] ==> SpellsItems(DumpItemsTree(items), items, finite))
    ensures Spells(DumpTree(Arr(items)), Arr(items), finite)
  {
    hide AreItems, ItemsText, ItemsMeaning;
    if items == [] { assert DumpItems([]) == [RBRACKET]; }
  }

  lemma ObjDerives(ms: seq<Member>, finite: bytes -> bool)
    requires DoubleFree(Obj(ms)) && (ms != [] ==> SpellsMembers(DumpMembersTree(ms), ms, finite))
    ensures Spells(DumpTree(Obj(ms)), Obj(ms), finite)
  {
    if ms == [] {
      assert DumpMembers([]) == [RBRACE];
    } else {
      ObjOfMembers(DumpMembersTree(ms), ms, finite);
    }
    hide AreMembers, MembersText, MembersMeaning, MembersDepth, DumpMembers, HeightOfMembers;
  }

  lemma ObjOfMembers(t: Members, ms: seq<Member>, finite: bytes -> bool)
    requires ms != [] && DoubleFree(Obj(ms)) && SpellsMembers(t, ms, finite)
    ensures Spells(TObject(t), Obj(ms), finite)
  {
    hide AreMembers, MembersText, MembersMeaning, MembersDepth, DumpMembers, HeightOfMembers;
  }

  lemma {:induction false} DumpItemsDerive(items: seq<Value>, finite: bytes -> bool)
    requires items != [] && forall i :: 0 <= i < |items| ==> DoubleFree(items[i])
    ensures SpellsItems(DumpItemsTree(items), items, finite)
    decreases items
  {
    DumpDerives(items[0], finite);
    hide Spells, SpellsItems, DumpTree, DoubleFree;
    if |items| == 1 {
      LastItemSpelled(DumpTree(items[0]), items, finite);
    } else {
      DumpItemsDerive(items[1..], finite);
      MoreItemsSpelled(DumpTree(items[0]), DumpItemsTree(items[1..]), items, finite);
    }
  }

  lemma EmptyMiddle(a: bytes, b: bytes, c: bytes)
    ensures a + [] + b == a + b
    ensures [] + (a + ([] + b)) == a + b
    ensures a + b + c == a + (b + c)
  {
    assert [] + b == b;
  }

  lemma LastItemSpelled(t: Tree, items: seq<Value>, finite: bytes -> bool)
    requires |items| == 1 && DoubleFree(items[0]) && Spells(t, items[0], finite)
    ensures SpellsItems(LastItem([], t, []), items, finite)
  {
    hide DoubleFree, Dump, IsTree, TreeText, TreeMeaning, TreeDepth, Height;
    var text := Dump(items[0]);
    EmptyMiddle(text, [RBRACKET], []);
    assert DumpItems(items[1..]) == [RBRACKET] && HeightOfItems(items[1..]) == 0;
    assert ItemsText(LastItem([], t, [])) == text + [RBRACKET] == DumpItems(items);
    assert items == [items[0]] + [];
  }

  lemma MoreItemsSpelled(t: Tree, rest: Items, items: seq<Value>, finite: bytes -> bool)
    requires |items| > 1 && forall i :: 0 <= i < |items| ==> DoubleFree(items[i])
    requires Spells(t, items[0], finite) && SpellsItems(rest, items[1..], finite)
    ensures SpellsItems(MoreItems([], t, [], rest), items, finite)
  {
    hide DoubleFree, Dump, DumpItems, IsTree, AreItems, TreeText, ItemsText, TreeMeaning, ItemsMeaning, TreeDepth,
      ItemsDepth, Height, Max;
    MoreItemsUnfold(t, rest, finite);
    MoreItemsDumped(items);
    assert items == [items[0]] + items[1..];
  }

  lemma MoreItemsUnfold(t: Tree, rest: Items, finite: bytes -> bool)
    requires IsTree(t, finite) && AreItems(rest, finite)
    ensures var m := MoreItems([], t, [], rest);
            && AreItems(m, finite)
            && ItemsText(m) == TreeText(t) + ([COMMA] + ItemsText(rest))
            && ItemsMeaning(m, finite) == [TreeMeaning(t, finite)] + ItemsMeaning(rest, finite)
            && ItemsDepth(m) == Max(1 + TreeDepth(t), ItemsDepth(rest))
  {
    hide IsTree, TreeText, TreeMeaning, TreeDepth;
    EmptyMiddle(TreeText(t), [COMMA] + ItemsText(rest), []);
  }

  lemma MoreItemsDumped(items: seq<Value>)
    requires |items| > 1 && forall i :: 0 <= i < |items| ==> DoubleFree(items[i])
    ensures DumpItems(items) == Dump(items[0]) + ([COMMA] + DumpItems(items[1..]))
  {
    hide DoubleFree, Dump;
    EmptyMiddle(Dump(items[0]), [COMMA], DumpItems(items[1..]));
  }

  lemma {:induction false} DumpMembersDerive(ms: seq<Member>, finite: bytes -> bool)
    requires ms != [] && forall i :: 0 <= i < |ms| ==> DoubleFree(ms[i].value)
    ensures SpellsMembers(DumpMembersTree(ms), ms, finite)
    decreases ms
  {
    DumpDerives(ms[0].value, finite);
    hide Spells, SpellsMembers, DumpTree, DoubleFree, SpellChars;
    if |ms| == 1 {
      LastMemberSpelled(DumpTree(ms[0].value), ms, finite);
    } else {
      DumpMembersDerive(ms[1..], finite);
      MoreMembersSpelled(DumpTree(ms[0].value), DumpMembersTree(ms[1..]), ms, finite);
    }
  }

  lemma KeySpelled(key: bytes)
    ensures KeyText(SpellChars(key), [], []) == StringText(key) + [COLON]
  {
    assert [] + [COLON] + [] == [COLON];
  }

  lemma LastMemberSpelled(t: Tree, ms: seq<Member>, finite: bytes -> bool)
    requires |ms| == 1 && DoubleFree(ms[0].value) && Spells(t, ms[0].value, finite)
    ensures SpellsMembers(LastMember([], SpellChars(ms[0].key), [], [], t, []), ms, finite)
  {
    LastMemberUnfold(SpellChars(ms[0].key), t, finite);
    KeySpelled(ms[0].key);
    hide DoubleFree, Dump, IsTree, AreMembers, TreeText, MembersText, TreeMeaning, MembersMeaning, TreeDepth,
      MembersDepth, Height, KeyText, StringText, SpellChars, CharsMeaning;
    assert DumpMembers(ms[1..]) == [RBRACE] && HeightOfMembers(ms[1..]) == 0;
    EmptyMiddle(MemberText(ms[0]), [RBRACE], []);
    EmptyMiddle(StringText(ms[0].key) + [COLON], Dump(ms[0].value), [RBRACE]);
    assert ms == [ms[0]] + [];
  }

  lemma MoreMembersSpelled(t: Tree, rest: Members, ms: seq<Member>, finite: bytes -> bool)
    requires |ms| > 1 && forall i :: 0 <= i < |ms| ==> DoubleFree(ms[i].value)
    requires Spells(t, ms[0].value, finite) && SpellsMembers(rest, ms[1..], finite)
    ensures SpellsMembers(MoreMembers([], SpellChars(ms[0].key), [], [], t, [], rest), ms, finite)
  {
    hide DoubleFree, Dump, DumpMembers, IsTree, AreMembers, TreeText, MembersText, TreeMeaning, MembersMeaning,
      TreeDepth, MembersDepth, Height, KeyText, StringText, SpellChars, CharsMeaning, HeightOfMembers, AreChars, Max;
    MoreMembersUnfold(SpellChars(ms[0].key), t, rest, finite);
    MoreMembersDumped(ms);
    KeySpelled(ms[0].key);
    HeightOfMore(ms);
    assert ms == [ms[0]] + ms[1..];
  }

  lemma HeightOfMore(ms: seq<Member>)
    requires |ms| > 1
    ensures HeightOfMembers(ms) == Max(1 + Height(ms[0].value), HeightOfMembers(ms[1..]))
  {
  }

  lemma LastMemberUnfold(key: seq<Char>, t: Tree, finite: bytes -> bool)
    requires AreChars(key) && IsTree(t, finite)
    ensures var m := LastMember([], key, [], [], t, []);
            && AreMembers(m, finite)
            && MembersText(m) == KeyText(key, [], []) + (TreeText(t) + [RBRACE])
            && MembersMeaning(m, finite) == [Member(CharsMeaning(key), TreeMeaning(t, finite))]
            && MembersDepth(m) == 1 + TreeDepth(t)
  {
    hide AreChars, IsTree, TreeText, KeyText, TreeMeaning, TreeDepth, CharsMeaning;
    assert [] + [RBRACE] == [RBRACE];
    EmptyMiddle([], KeyText(key, [], []) + (TreeText(t) + [RBRACE]), []);
  }

  lemma MoreMembersUnfold(key: seq<Char>, t: Tree, rest: Members, finite: bytes -> bool)
    requires AreChars(key) && IsTree(t, finite) && AreMembers(rest, finite)
    ensures var m := MoreMembers([], key, [], [], t, [], rest);
            && AreMembers(m, finite)
            && MembersText(m) == KeyText(key, [], []) + (TreeText(t) + ([COMMA] + MembersText(rest)))
            && MembersMeaning(m, finite) == [Member(CharsMeaning(key), TreeMeaning(t, finite))] + MembersMeaning(rest,
                    finite)
            && MembersDepth(m) == Max(1 + TreeDepth(t), MembersDepth(rest))
  {
    hide AreChars, IsTree, TreeText, KeyText, TreeMeaning, TreeDepth, CharsMeaning;
    var end := [COMMA] + MembersText(rest);
    assert [] + end == end;
    EmptyMiddle([], KeyText(key, [], []) + (TreeText(t) + end), []);
  }

  lemma MoreMembersDumped(ms: seq<Member>)
    requires |ms| > 1 && forall i :: 0 <= i < |ms| ==> DoubleFree(ms[i].value)
    ensures DumpMembers(ms) == StringText(ms[0].key) + [COLON] + (Dump(ms[0].value) + ([COMMA] + DumpMembers(ms[1..])))
  {
    hide DoubleFree, Dump, StringText;
    var key, end := StringText(ms[0].key) + [COLON], [COMMA] + DumpMembers(ms[1..]);
    EmptyMiddle(key + Dump(ms[0].value), [COMMA], DumpMembers(ms[1..]));
    EmptyMiddle(key, Dump(ms[0].value), end);
  }

  /** A double-free value is read back exactly when it is nested at most 256 deep. */
  lemma JsonRoundTrip(v: Value, finite: bytes -> bool)
    requires DoubleFree(v)
    ensures DocumentOf(Dump(v), finite) == if Height(v) <= 256 then Some(v) else None
  {
    hide DoubleFree, Dump, DumpTree, TreeText, IsTree, TreeMeaning, DocumentOf;
    DumpDerives(v, finite);
    DocumentReads([], DumpTree(v), [], finite);
    assert [] + Dump(v) + [] == Dump(v);
  }
}
