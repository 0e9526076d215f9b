/** Query strings and urlencoded form bodies. */
module Query {
  import opened Bytes

  type Pairs = seq<(bytes, bytes)>

  // ---- decoding -------------------------------------------------------------------

  predicate StartsEscape(s: bytes) {
    |s| > 2 && s[0] == PERCENT && HexDigit(s[1]) >= 0 && HexDigit(s[2]) >= 0
  }

  function UrlDecoded(s: bytes): bytes {
    if s == [] then []
    else if StartsEscape(s) then [HexDigit(s[1]) * 16 + HexDigit(s[2])] + UrlDecoded(s[3..])
    else [if s[0] == PLUS then SP else s[0]] + UrlDecoded(s[1..])
  }

  lemma Appended(out: bytes, b: byte, rest: bytes)
    ensures out + ([b] + rest) == out + [b] + rest
  {
  }

  method UrlDecode(s: bytes) returns (out: bytes)
    ensures out == UrlDecoded(s)
  {
    out := [];
    assert s[0..] == s;
    var i := 0;
    while i < |s|
      invariant 0 <= i <= |s|
      invariant UrlDecoded(s) == out + UrlDecoded(s[i..])
    {
      var c := s[i];
      ghost var rest := s[i..];
      assert rest[1..] == s[i + 1..];
      if c == PERCENT && i + 2 < |s| {
        var hi, lo := HexDigit(s[i + 1]), HexDigit(s[i + 2]);
        if hi >= 0 && lo >= 0 {
          assert rest[3..] == s[i + 3..];
          assert StartsEscape(rest);
          Appended(out, hi * 16 + lo, UrlDecoded(s[i + 3..]));
          out := out + [hi * 16 + lo];
          i := i + 3;
          continue;
        }
      }
      var d := if c == PLUS then SP else c;
      assert !StartsEscape(rest);
      Appended(out, d, UrlDecoded(s[i + 1..]));
      out := out + [d];
      i := i + 1;
    }
  }

  /** Zero or one pair: empty segments are skipped. */
  function PairOf(segment: bytes): Pairs {
    if segment == [] then []
    else
      var eq := FindByte(segment, EQUALS, 0);
      if eq == -1 then [(UrlDecoded(segment), [])]
      else [(UrlDecoded(segment[..eq]), UrlDecoded(segment[eq + 1..]))]
  }

  function QueryOf(raw: bytes): Pairs {
    var amp := FindByte(raw, AMPERSAND, 0);
    if amp == -1 then PairOf(raw) else PairOf(raw[..amp]) + QueryOf(raw[amp + 1..])
  }

  lemma QueryStep(raw: bytes, pos: nat)
    requires pos <= |raw|
    ensures var amp := FindByte(raw, AMPERSAND, pos);
            QueryOf(raw[pos..]) ==
            if amp == -1 then PairOf(raw[pos..]) else PairOf(raw[pos..amp]) + QueryOf(raw[amp + 1..])
  {
    hide PairOf;
    FindByteShift(raw, AMPERSAND, pos);
    var amp := FindByte(raw, AMPERSAND, pos);
    if amp != -1 {
      assert raw[pos..][..amp - pos] == raw[pos..amp];
      assert raw[pos..][amp - pos + 1..] == raw[amp + 1..];
    }
  }

  /** The pair of one segment, if it holds one. */
  method ReadSegment(segment: bytes) returns (pair: Pairs)
    ensures pair == PairOf(segment)
  {
    hide UrlDecoded;
    if segment == [] { return []; }
    var eq := FindByte(segment, EQUALS, 0);
    if eq == -1 {
      var key := UrlDecode(segment);
      return [(key, [])];
    }
    var key := UrlDecode(segment[..eq]);
    var value := UrlDecode(segment[eq + 1..]);
    return [(key, value)];
  }

  method ParseQuery(raw: bytes) returns (out: Pairs)
    ensures out == QueryOf(raw)
  {
    hide UrlDecoded, QueryOf, PairOf, FindByte;
    out := [];
    assert raw[0..] == raw;
    var pos := 0;
    while pos <= |raw|
      invariant 0 <= pos <= |raw|
      invariant QueryOf(raw) == out + QueryOf(raw[pos..])
      decreases |raw| - pos
    {
      QueryStep(raw, pos);
      var amp := FindByte(raw, AMPERSAND, pos);
      var pair := ReadSegment(if amp == -1 then raw[pos..] else raw[pos..amp]);
      if amp == -1 { return out + pair; }
      PairsJoin(out, pair, QueryOf(raw[amp + 1..]));
      out := out + pair;
      pos := amp + 1;
    }
  }

  lemma PairsJoin(a: Pairs, b: Pairs, c: Pairs)
    ensures a + (b + c) == a + b + c
  {
  }

  // ---- every spelling of a form decodes to the form ----------------------------------

  /** One way to write one byte. */
  datatype Spelling = Plain(b: byte) | Space | Escape(hi: byte, lo: byte) {
    function Text(): bytes {
      match this
      case Plain(b) => [b]
      case Space => [PLUS]
      case Escape(hi, lo) => [PERCENT, hi, lo]
    }

    /** Usable where the bytes of `special` have a meaning of their own. */
    predicate Ok(special: set<byte>) {
      match this
      case Plain(b) => b != PERCENT && b != PLUS && b !in special
      case Space => true
      case Escape(hi, lo) => HexDigit(hi) >= 0 && HexDigit(lo) >= 0
    }

    function Meaning(): byte
      requires Ok({})
    {
      match this
      case Plain(b) => b
      case Space => SP
      case Escape(hi, lo) => HexDigit(hi) * 16 + HexDigit(lo)
    }
  }

  predicate AllOk(word: seq<Spelling>, special: set<byte>) {
    forall i :: 0 <= i < |word| ==> word[i].Ok(special) && word[i].Ok({})
  }

  function WordText(word: seq<Spelling>): bytes {
    if word == [] then [] else word[0].Text() + WordText(word[1..])
  }

  function WordMeaning(word: seq<Spelling>): bytes
    requires AllOk(word, {})
  {
    if word == [] then [] else [word[0].Meaning()] + WordMeaning(word[1..])
  }

  /** `key=value`, a key alone, or nothing between two ampersands. */
  datatype Entry = Entry(key: seq<Spelling>, value: seq<Spelling>) | Bare(key: seq<Spelling>) | Blank {
    predicate Ok() {
      match this
      case Entry(key, value) =>
        AllOk(key, {AMPERSAND, EQUALS}) && AllOk(value, {AMPERSAND}) && AllOk(key, {}) && AllOk(value, {})
      case Bare(key) => key != [] && AllOk(key, {AMPERSAND, EQUALS}) && AllOk(key, {})
      case Blank => true
    }

    function Text(): bytes {
      match this
      case Entry(key, value) => WordText(key) + [EQUALS] + WordText(value)
      case Bare(key) => WordText(key)
      case Blank => []
    }

    function Meaning(): Pairs
      requires Ok()
    {
      match this
      case Entry(key, value) => [(WordMeaning(key), WordMeaning(value))]
      case Bare(key) => [(WordMeaning(key), [])]
      case Blank => []
    }
  }

  predicate FormOk(form: seq<Entry>) {
    forall i :: 0 <= i < |form| ==> form[i].Ok()
  }

  /** Entries with an ampersand between them. */
  function FormText(form: seq<Entry>): bytes {
    if form == [] then []
    else if |form| == 1 then form[0].Text()
    else form[0].Text() + [AMPERSAND] + FormText(form[1..])
  }

  function FormMeaning(form: seq<Entry>): Pairs
    requires FormOk(form)
  {
    if form == [] then []
    else form[0].Meaning() + FormMeaning(form[1..])
  }

  lemma {:induction false} WordDecodes(word: seq<Spelling>)
    requires AllOk(word, {})
    ensures UrlDecoded(WordText(word)) == WordMeaning(word)
  {
    if word != [] {
      var rest := WordText(word[1..]);
      var s := word[0].Text() + rest;
      WordDecodes(word[1..]);
      match word[0]
      case Escape(hi, lo) => {
        assert s[3..] == rest && StartsEscape(s);
      }
      case _ => {
        assert s[1..] == rest && !StartsEscape(s);
      }
    }
  }

  /** No two hexadecimal digits stand behind a percent sign. */
  predicate HasNoEscape(s: bytes) {
    forall i :: 0 <= i < |s| ==> !StartsEscape(s[i..])
  }

  /** Text without escapes, percent signs included, stands for itself, but for plus signs. */
  lemma {:induction false} RawStays(s: bytes)
    requires HasNoEscape(s)
    ensures |UrlDecoded(s)| == |s|
    ensures forall i :: 0 <= i < |s| ==> UrlDecoded(s)[i] == if s[i] == PLUS then SP else s[i]
  {
    hide StartsEscape;
    if s != [] {
      assert s[0..] == s && !StartsEscape(s[0..]);
      forall i | 0 <= i < |s[1..]| ensures !StartsEscape(s[1..][i..]) {
        assert s[1..][i..] == s[i + 1..];
      }
      RawStays(s[1..]);
    }
  }

  lemma {:induction false} WordAvoids(word: seq<Spelling>, special: set<byte>, c: byte)
    requires AllOk(word, special) && c in special && HexDigit(c) < 0 && c != PERCENT && c != PLUS
    ensures c !in WordText(word)
  {
    if word != [] {
      WordAvoids(word[1..], special, c);
    }
  }

  lemma EntryReads(e: Entry)
    requires e.Ok()
    ensures PairOf(e.Text()) == e.Meaning()
    ensures AMPERSAND !in e.Text()
  {
    match e
    case Entry(_, _) => PairReads(e.key, e.value);
    case Bare(key) => KeyReads(key);
    case Blank => EmptySegment();
  }

  lemma PairReads(key: seq<Spelling>, value: seq<Spelling>)
    requires Entry(key, value).Ok()
    ensures var s := WordText(key) + [EQUALS] + WordText(value);
            PairOf(s) == [(WordMeaning(key), WordMeaning(value))] && AMPERSAND !in s
  {
    hide UrlDecoded, WordText, WordMeaning, AllOk;
    var k, v := WordText(key), WordText(value);
    WordAvoids(key, {AMPERSAND, EQUALS}, EQUALS);
    WordAvoids(key, {AMPERSAND, EQUALS}, AMPERSAND);
    WordAvoids(value, {AMPERSAND}, AMPERSAND);
    FindByteFirst(k, EQUALS, v);
    var s := k + [EQUALS] + v;
    assert s[..|k|] == k && s[|k| + 1..] == v;
    WordDecodes(key);
    WordDecodes(value);
  }

  lemma KeyReads(key: seq<Spelling>)
    requires Bare(key).Ok()
    ensures PairOf(WordText(key)) == [(WordMeaning(key), [])] && AMPERSAND !in WordText(key)
  {
    assert WordText(key) != [];
    hide UrlDecoded, WordText, WordMeaning, AllOk;
    WordAvoids(key, {AMPERSAND, EQUALS}, EQUALS);
    WordAvoids(key, {AMPERSAND, EQUALS}, AMPERSAND);
    FindByteFirst(WordText(key), EQUALS, []);
    WordDecodes(key);
  }

  /** Whatever spelling a form is written in, parsing gives its pairs in order. */
  lemma {:induction false} FormReads(form: seq<Entry>)
    requires FormOk(form)
    ensures QueryOf(FormText(form)) == FormMeaning(form)
  {
    hide PairOf, WordMeaning, WordText, AllOk;
    if form == [] {
      assert PairOf([]) == [] by { EmptySegment(); }
    } else {
      var head := form[0].Text();
      EntryReads(form[0]);
      FormReads(form[1..]);
      if |form| == 1 {
        FindByteFirst(head, AMPERSAND, []);
      } else {
        var rest := FormText(form[1..]);
        FindByteFirst(head, AMPERSAND, rest);
        var s := head + [AMPERSAND] + rest;
        assert s[..|head|] == head && s[|head| + 1..] == rest;
      }
    }
  }

  lemma EmptySegment()
    ensures PairOf([]) == []
  {
  }

  // ---- the reference encoder -----------------------------------------------------------

  function HexChar(d: int): byte
    requires 0 <= d < 16
  {
    if d < 10 then 48 + d else 55 + d
  }

  function Spell(b: byte): (s: Spelling)
    ensures s.Ok({AMPERSAND, EQUALS}) && s.Ok({AMPERSAND}) && s.Ok({}) && s.Meaning() == b
  {
    if IsDigit(b) || 65 <= b <= 90 || 97 <= b <= 122 then Plain(b)
    else if b == SP then Space
    else Escape(HexChar(b / 16), HexChar(b % 16))
  }

  function SpellWord(s: bytes): (word: seq<Spelling>)
    ensures AllOk(word, {AMPERSAND, EQUALS}) && AllOk(word, {AMPERSAND}) && AllOk(word, {}) && WordMeaning(word) == s
  {
    if s == [] then [] else
      var rest := SpellWord(s[1..]);
      var word := [Spell(s[0])] + rest;
      assert word[1..] == rest;
      word
  }

  function SpellForm(pairs: Pairs): (form: seq<Entry>)
    ensures FormOk(form) && FormMeaning(form) == pairs
  {
    if pairs == [] then [] else
      var rest := SpellForm(pairs[1..]);
      var form := [Entry(SpellWord(pairs[0].0), SpellWord(pairs[0].1))] + rest;
      assert form[1..] == rest;
      form
  }

  /** Encoding any list of byte-string pairs and parsing it gives the list back. */
  lemma QueryRoundTrip(pairs: Pairs)
    ensures QueryOf(FormText(SpellForm(pairs))) == pairs
  {
    FormReads(SpellForm(pairs));
  }
}
