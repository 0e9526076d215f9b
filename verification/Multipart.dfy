/** multipart/form-data bodies (RFC 7578). */
module Multipart {
  import opened Bytes

  const CRLFCRLF: bytes := [13, 10, 13, 10]
  const DASHES: bytes := [DASH, DASH]

  const CONTENT_DISPOSITION: bytes := Ascii("Content-Disposition")
  const CONTENT_TYPE: bytes := Ascii("Content-Type")
  const OCTET_STREAM: bytes := Ascii("application/octet-stream")
  const NAME: bytes := Ascii("name")
  const FILENAME: bytes := Ascii("filename")
  const FORM_DATA: bytes := Ascii("form-data")

  /** A plain field or an uploaded file. */
  datatype Part =
    | Field(name: bytes, content: bytes)
    | File(name: bytes, filename: bytes, mime: bytes, content: bytes)

  // ---- pieces of a part header -------------------------------------------------------

  function AfterSlash(name: bytes): bytes {
    if name == [] then []
    else if SLASH in name[1..] || 92 in name[1..] then AfterSlash(name[1..])
    else if name[0] == SLASH || name[0] == 92 then name[1..]
    else name
  }

  predicate IsControl(c: byte) {
    c < 32 || c == 127
  }

  /** A bare, safe file name, or "" when the name is not to be trusted. */
  function Sanitized(name: bytes): bytes {
    var base := AfterSlash(name);
    if base == [] || base == [46] || base == [46, 46] then []
    else if exists i :: 0 <= i < |base| && IsControl(base[i]) then []
    else base
  }

  lemma {:induction false} AfterSlashIsLast(name: bytes)
    ensures var base := AfterSlash(name);
            && SLASH !in base && 92 !in base && |base| <= |name| && base == name[|name| - |base|..]
            && (|base| < |name| ==> name[|name| - |base| - 1] == SLASH || name[|name| - |base| - 1] == 92)
    decreases |name|
  {
    if name != [] {
      assert name == [name[0]] + name[1..];
      AfterSlashIsLast(name[1..]);
    }
  }

  /** What is left has no directory part and no control byte, is neither dot nor dot-dot, and is left as it is;
    * a name that is like that from the start is left as it is too. */
  lemma SanitizedIsSafe(name: bytes)
    ensures var r := Sanitized(name);
            && SLASH !in r && 92 !in r && r != [46] && r != [46, 46] && (forall i :: 0 <= i < |r| ==> !IsControl(r[i]))
            && Sanitized(r) == r
    ensures (&& SLASH !in name && 92 !in name && name != [46] && name != [46, 46]
             && (forall i :: 0 <= i < |name| ==> !IsControl(name[i]))) ==> Sanitized(name) == name
  {
    AfterSlashIsLast(name);
    AfterSlashIsLast(Sanitized(name));
  }

  lemma {:induction false} AfterSlashReads(dir: bytes, separator: byte, base: bytes)
    requires (separator == SLASH || separator == 92) && SLASH !in base && 92 !in base
    ensures AfterSlash(dir + [separator] + base) == base && AfterSlash(base) == base
    decreases |dir|
  {
    var name := dir + [separator] + base;
    AfterSlashIsLast(base);
    assert AfterSlash(base) == base by { if base != [] { assert forall i :: 0 <= i < |base| ==> base[i] in base; } }
    if dir == [] {
      assert name[0] == separator && name[1..] == base;
    } else {
      assert name[1..] == dir[1..] + [separator] + base;
      assert separator in name[1..];
      AfterSlashReads(dir[1..], separator, base);
    }
  }

  /** Of a path the last part counts, unless it is empty, a dot or two, or holds a control byte. */
  lemma SanitizedExact(dir: bytes, separator: byte, base: bytes)
    requires (separator == SLASH || separator == 92) && SLASH !in base && 92 !in base
    ensures var rejected := base == Ascii(".") || base == Ascii("..") || exists c :: c in base && IsControl(c);
            && Sanitized(dir + [separator] + base) == (if rejected then [] else base)
            && Sanitized(base) == (if rejected then [] else base)
  {
    AfterSlashReads(dir, separator, base);
    assert Ascii(".") == [46] && Ascii("..") == [46, 46];
    hide AfterSlash;
    assert (exists c :: c in base && IsControl(c)) <==> exists i :: 0 <= i < |base| && IsControl(base[i]);
  }

  /** `param` is `key="...`. */
  predicate IsParam(param: bytes, key: bytes) {
    |param| >= |key| + 2 && param[..|key|] == key && param[|key|] == EQUALS && param[|key| + 1] == QUOTE
  }

  function Quoted(param: bytes, key: bytes): bytes
    requires IsParam(param, key)
  {
    var end := FindByte(param, QUOTE, |key| + 2);
    if end == -1 then [] else param[|key| + 2..end]
  }

  /** The quoted value of parameter `key`, matched only between semicolons. */
  function ParamOf(disposition: bytes, key: bytes): bytes {
    var semi := FindByte(disposition, SEMICOLON, 0);
    var param := Trim(if semi == -1 then disposition else disposition[..semi]);
    if IsParam(param, key) then Quoted(param, key)
    else if semi == -1 then []
    else ParamOf(disposition[semi + 1..], key)
  }

  lemma ParamStep(d: bytes, key: bytes, pos: nat)
    requires pos <= |d|
    ensures var semi := FindByte(d, SEMICOLON, pos);
            var param := Trim(if semi == -1 then d[pos..] else d[pos..semi]);
            ParamOf(d[pos..], key) == if IsParam(param, key) then Quoted(param, key)
                                      else if semi == -1 then [] else ParamOf(d[semi + 1..], key)
  {
    hide Trim, Quoted, IsParam, ParamOf, FindByte;
    FindByteShift(d, SEMICOLON, pos);
    ParamUnfold(d[pos..], key);
    var semi := FindByte(d, SEMICOLON, pos);
    if semi != -1 {
      assert d[pos..][..semi - pos] == d[pos..semi];
      assert d[pos..][semi - pos + 1..] == d[semi + 1..];
    }
  }

  lemma ParamUnfold(d: bytes, key: bytes)
    ensures var semi := FindByte(d, SEMICOLON, 0);
            var param := Trim(if semi == -1 then d else d[..semi]);
            ParamOf(d, key) == if IsParam(param, key) then Quoted(param, key)
                               else if semi == -1 then [] else ParamOf(d[semi + 1..], key)
  {
    hide Trim, Quoted, IsParam;
  }

  method DispositionParam(disposition: bytes, key: bytes) returns (value: bytes)
    ensures value == ParamOf(disposition, key)
  {
    hide ParamOf, Trim;
    var pos := 0;
    assert disposition[0..] == disposition;
    while pos <= |disposition|
      invariant 0 <= pos <= |disposition|
      invariant ParamOf(disposition, key) == ParamOf(disposition[pos..], key)
      decreases |disposition| - pos
    {
      ParamStep(disposition, key, pos);
      var semi := FindByte(disposition, SEMICOLON, pos);
      var param := Trim(if semi == -1 then disposition[pos..] else disposition[pos..semi]);
      if IsParam(param, key) {
        var end := FindByte(param, QUOTE, |key| + 2);
        return if end == -1 then [] else param[|key| + 2..end];
      }
      if semi == -1 { break; }
      pos := semi + 1;
    }
    return [];
  }

  datatype PartHead = PartHead(disposition: bytes, mime: bytes)

  /** Effect of one header line; a later line of the same name wins. */
  function HeadLine(head: PartHead, line: bytes): PartHead {
    var colon := FindByte(line, COLON, 0);
    if colon == -1 then head
    else
      var name, value := Trim(line[..colon]), Trim(line[colon + 1..]);
      if IEquals(name, CONTENT_DISPOSITION) then head.(disposition := value)
      else if IEquals(name, CONTENT_TYPE) then head.(mime := value)
      else head
  }

  function HeadLines(head: PartHead, text: bytes): PartHead
    decreases |text|
  {
    var eol := Find(text, CRLF, 0);
    if eol == -1 then HeadLine(head, text) else HeadLines(HeadLine(head, text[..eol]), text[eol + 2..])
  }

  lemma HeadLinesStep(head: PartHead, text: bytes, pos: nat)
    requires pos <= |text|
    ensures var eol := Find(text, CRLF, pos);
            HeadLines(head, text[pos..]) ==
            if eol == -1 then HeadLine(head, text[pos..])
            else HeadLines(HeadLine(head, text[pos..eol]), text[eol + 2..])
  {
    hide HeadLine, Find;
    FindShift(text, CRLF, pos);
    var eol := Find(text, CRLF, pos);
    if eol != -1 {
      assert text[pos..][..eol - pos] == text[pos..eol];
      assert text[pos..][eol - pos + 2..] == text[eol + 2..];
    }
  }

  method ReadPartHead(text: bytes) returns (head: PartHead)
    ensures head == HeadLines(PartHead([], []), text)
  {
    hide HeadLines, Trim;
    head := PartHead([], []);
    var hpos := 0;
    assert text[0..] == text;
    while hpos <= |text|
      invariant 0 <= hpos <= |text|
      invariant HeadLines(PartHead([], []), text) == HeadLines(head, text[hpos..])
      decreases |text| - hpos
    {
      HeadLinesStep(head, text, hpos);
      var eol := Find(text, CRLF, hpos);
      var line := if eol == -1 then text[hpos..] else text[hpos..eol];
      var colon := FindByte(line, COLON, 0);
      if colon != -1 {
        var name, value := Trim(line[..colon]), Trim(line[colon + 1..]);
        if IEquals(name, CONTENT_DISPOSITION) {
          head := head.(disposition := value);
        } else if IEquals(name, CONTENT_TYPE) {
          head := head.(mime := value);
        }
      }
      if eol == -1 { return; }
      hpos := eol + 2;
    }
  }

  // ---- parts ----------------------------------------------------------------------------

  function StripLineEnd(part: bytes): bytes {
    if |part| >= 2 && part[|part| - 2..] == CRLF then part[..|part| - 2]
    else if part != [] && part[|part| - 1] == LF then part[..|part| - 1]
    else part
  }

  /** Zero or one part: a part without a name is dropped. */
  function PartOf(part: bytes): seq<Part> {
    var split := Find(part, CRLFCRLF, 0);
    var head := HeadLines(PartHead([], []), if split == -1 then part else part[..split]);
    var content := if split == -1 then [] else part[split + 4..];
    var name := ParamOf(head.disposition, NAME);
    var filename := Sanitized(ParamOf(head.disposition, FILENAME));
    if name == [] then []
    else if filename != [] then [File(name, filename, if head.mime == [] then OCTET_STREAM else head.mime, content)]
    else [Field(name, content)]
  }

  function SkipLineEnd(s: bytes): bytes {
    if |s| >= 2 && s[..2] == CRLF then s[2..]
    else if s != [] && s[0] == LF then s[1..]
    else s
  }

  /** The parts of a body that continues with `s` right after a delimiter. */
  function PartsAfter(s: bytes, delimiter: bytes): seq<Part>
    requires delimiter != []
    decreases |s|
  {
    if |s| >= 2 && s[..2] == DASHES then []
    else
      var t := SkipLineEnd(s);
      var next := Find(t, delimiter, 0);
      if next == -1 then []
      else PartOf(StripLineEnd(t[..next])) + PartsAfter(t[next + |delimiter|..], delimiter)
  }

  function PartsOf(body: bytes, boundary: bytes): seq<Part> {
    if boundary == [] then []
    else
      var delimiter := DASHES + boundary;
      var first := Find(body, delimiter, 0);
      if first == -1 then [] else PartsAfter(body[first + |delimiter|..], delimiter)
  }

  function FieldsIn(parts: seq<Part>): seq<Part> {
    if parts == [] then []
    else FieldsIn(parts[..|parts| - 1]) + (if parts[|parts| - 1].Field? then [parts[|parts| - 1]] else [])
  }

  function FilesIn(parts: seq<Part>): seq<Part> {
    if parts == [] then []
    else FilesIn(parts[..|parts| - 1]) + (if parts[|parts| - 1].File? then [parts[|parts| - 1]] else [])
  }

  method ReadPart(part: bytes) returns (r: seq<Part>)
    ensures r == PartOf(part)
  {
    hide HeadLines, ParamOf, Sanitized;
    var split := Find(part, CRLFCRLF, 0);
    var headers := if split == -1 then part else part[..split];
    var content := if split == -1 then [] else part[split + 4..];
    var head := ReadPartHead(headers);
    var name := DispositionParam(head.disposition, NAME);
    if name == [] { return []; }
    var filename := DispositionParam(head.disposition, FILENAME);
    filename := Sanitized(filename);
    if filename != [] {
      return [File(name, filename, if head.mime == [] then OCTET_STREAM else head.mime, content)];
    }
    return [Field(name, content)];
  }

  lemma PartsStep(body: bytes, delimiter: bytes, pos: nat, start: nat)
    requires delimiter != [] && pos <= start <= |body|
    requires !(|body[pos..]| >= 2 && body[pos..][..2] == DASHES) && body[start..] == SkipLineEnd(body[pos..])
    ensures var next := Find(body, delimiter, start);
            PartsAfter(body[pos..], delimiter) ==
            if next == -1 then []
            else PartOf(StripLineEnd(body[start..next])) + PartsAfter(body[next + |delimiter|..], delimiter)
  {
    hide PartOf, StripLineEnd, SkipLineEnd, Find;
    FindShift(body, delimiter, start);
    var next := Find(body, delimiter, start);
    if next != -1 {
      assert body[start..][..next - start] == body[start..next];
      assert body[start..][next - start + |delimiter|..] == body[next + |delimiter|..];
    }
  }

  lemma KindsSnoc(parts: seq<Part>, r: seq<Part>)
    requires |r| <= 1
    ensures FieldsIn(parts + r) == FieldsIn(parts) + FieldsIn(r) && FilesIn(parts + r) == FilesIn(parts) + FilesIn(r)
    ensures r != [] && r[0].Field? ==> FieldsIn(r) == r && FilesIn(r) == []
    ensures r != [] && r[0].File? ==> FilesIn(r) == r && FieldsIn(r) == []
  {
    if r == [] {
      assert parts + r == parts;
    } else {
      assert (parts + r)[..|parts + r| - 1] == parts;
      assert r[..0] == [];
    }
  }

  /** Cuts out the part that starts at `from`, right after a delimiter. */
  method NextPart(body: bytes, delimiter: bytes, from: nat) returns (last: bool, part: bytes, pos: nat)
    requires delimiter != [] && from <= |body|
    ensures last ==> PartsAfter(body[from..], delimiter) == []
    ensures !last ==> from < pos <= |body|
                      && PartsAfter(body[from..], delimiter) == PartOf(part) + PartsAfter(body[pos..], delimiter)
  {
    hide PartOf, StripLineEnd, SkipLineEnd, PartsAfter, Find;
    pos, part := from, [];
    if pos + 2 <= |body| && body[pos..pos + 2] == DASHES {
      LastDelimiter(body, pos, delimiter);
      return true, part, pos;
    }
    if pos + 2 <= |body| && body[pos..pos + 2] == CRLF {
      pos := pos + 2;
    } else if pos + 1 <= |body| && body[pos] == LF {
      pos := pos + 1;
    }
    SkipFrom(body, from, pos);
    PartsStep(body, delimiter, from, pos);
    var next := Find(body, delimiter, pos);
    if next == -1 { return true, part, pos; }
    part := body[pos..next];
    pos := next + |delimiter|;
    StripCases(part);
    if |part| >= 2 && part[|part| - 2..] == CRLF {
      part := part[..|part| - 2];
    } else if part != [] && part[|part| - 1] == LF {
      part := part[..|part| - 1];
    }
    last := false;
  }

  method ParseMultipart(body: bytes, boundary: bytes) returns (fields: seq<Part>, files: seq<Part>)
    ensures fields == FieldsIn(PartsOf(body, boundary))
    ensures files == FilesIn(PartsOf(body, boundary))
  {
    hide PartOf, PartsAfter, FieldsIn, FilesIn;
    fields, files := [], [];
    ghost var parts: seq<Part> := [];
    NoParts();
    if boundary == [] { return; }
    var delimiter := DASHES + boundary;
    var first := Find(body, delimiter, 0);
    if first == -1 { return; }
    var pos := first + |delimiter|;
    ghost var all := PartsAfter(body[pos..], delimiter);
    while pos <= |body|
      invariant 0 <= pos <= |body|
      invariant all == parts + PartsAfter(body[pos..], delimiter)
      invariant fields == FieldsIn(parts) && files == FilesIn(parts)
      decreases |body| - pos
    {
      var last, part, next := NextPart(body, delimiter, pos);
      if last { break; }
      pos := next;
      var r := ReadPart(part);
      AtMostOne(part);
      KindsSnoc(parts, r);
      parts := parts + r;
      if r == [] { continue; }
      if r[0].File? {
        files := files + r;
      } else {
        fields := fields + r;
      }
    }
    assert parts + [] == parts;
  }

  lemma NoParts()
    ensures FieldsIn([]) == [] && FilesIn([]) == []
  {
  }

  lemma AtMostOne(part: bytes)
    ensures |PartOf(part)| <= 1
  {
  }

  lemma StripCases(part: bytes)
    ensures StripLineEnd(part) ==
            if |part| >= 2 && part[|part| - 2..] == CRLF then part[..|part| - 2]
            else if part != [] && part[|part| - 1] == LF then part[..|part| - 1] else part
  {
  }

  lemma LastDelimiter(body: bytes, pos: nat, delimiter: bytes)
    requires delimiter != [] && pos + 2 <= |body| && body[pos..pos + 2] == DASHES
    ensures PartsAfter(body[pos..], delimiter) == []
  {
    assert body[pos..][..2] == body[pos..pos + 2];
  }

  lemma SkipFrom(body: bytes, from: nat, pos: nat)
    requires from <= |body|
    requires !(from + 2 <= |body| && body[from..from + 2] == DASHES)
    requires pos == if from + 2 <= |body| && body[from..from + 2] == CRLF then from + 2
                    else if from + 1 <= |body| && body[from] == LF then from + 1 else from
    ensures body[pos..] == SkipLineEnd(body[from..])
    ensures !(|body[from..]| >= 2 && body[from..][..2] == DASHES)
  {
    var s := body[from..];
    if from + 2 <= |body| { assert s[..2] == body[from..from + 2] && s[2..] == body[from + 2..]; }
    if from + 1 <= |body| { assert s[1..] == body[from + 1..] && s[0] == body[from]; }
  }

  // ---- the reference encoder -----------------------------------------------------------

  /** Free of the bytes that would end a quoted parameter or a line early. */
  predicate IsPlain(s: bytes) {
    QUOTE !in s && SEMICOLON !in s && CR !in s && LF !in s
  }

  predicate IsWord(s: bytes) {
    s != [] && IsTrimmed(s)
  }

  predicate IsSendable(p: Part) {
    && p.name != [] && IsPlain(p.name)
    && (p.File? ==>
          && p.filename != [] && IsPlain(p.filename) && Sanitized(p.filename) == p.filename
          && IsWord(p.mime) && CR !in p.mime && LF !in p.mime)
  }

  function NameParam(key: bytes, value: bytes): bytes {
    key + [EQUALS, QUOTE] + value + [QUOTE]
  }

  function Disposition(p: Part): bytes {
    var named := FORM_DATA + [SEMICOLON] + ([SP] + NameParam(NAME, p.name));
    if p.Field? then named else named + [SEMICOLON] + ([SP] + NameParam(FILENAME, p.filename))
  }

  function HeaderLine(name: bytes, value: bytes): bytes {
    name + [COLON] + ([SP] + value)
  }

  function PartHeaders(p: Part): bytes {
    var first := HeaderLine(CONTENT_DISPOSITION, Disposition(p));
    if p.Field? then first else first + CRLF + HeaderLine(CONTENT_TYPE, p.mime)
  }

  function PartText(p: Part): bytes {
    PartHeaders(p) + CRLFCRLF + p.content
  }

  /** What follows the first delimiter; any bytes may follow the closing one. */
  function EncodeAfter(parts: seq<Part>, delimiter: bytes, epilogue: bytes): bytes {
    if parts == [] then DASHES + epilogue
    else CRLF + PartText(parts[0]) + CRLF + delimiter + EncodeAfter(parts[1..], delimiter, epilogue)
  }

  function Encode(parts: seq<Part>, boundary: bytes, epilogue: bytes): bytes {
    DASHES + boundary + EncodeAfter(parts, DASHES + boundary, epilogue)
  }

  predicate AreSendable(parts: seq<Part>, delimiter: bytes) {
    forall i :: 0 <= i < |parts| ==> IsSendable(parts[i]) && Find(PartText(parts[i]), delimiter, 0) == -1
  }

  // ---- round trip -------------------------------------------------------------------------

  lemma TrimKeeps(s: bytes)
    requires IsWord(s)
    ensures Trim(s) == s && Trim([SP] + s) == s
  {
    assert ([SP] + s)[1..] == s;
    assert TrimLeft([SP] + s) == TrimLeft(s) == s;
  }

  lemma NameParamReads(key: bytes, value: bytes)
    requires IsPlain(value) && IsWord(key) && QUOTE !in key && SEMICOLON !in key
    ensures var p := NameParam(key, value);
            IsWord(p) && IsParam(p, key) && Quoted(p, key) == value && SEMICOLON !in p
  {
    var p := NameParam(key, value);
    assert p[..|key|] == key;
    assert p[|key| + 2..] == value + [QUOTE];
    FindByteFirst(value, QUOTE, []);
    assert value + [QUOTE] + [] == value + [QUOTE];
    FindByteShift(p, QUOTE, |key| + 2);
    assert p[|key| + 2..|key| + 2 + |value|] == value;
  }

  /** A segment that is not the wanted parameter is stepped over. */
  lemma ParamSkips(segment: bytes, rest: bytes, key: bytes)
    requires SEMICOLON !in segment && !IsParam(Trim(segment), key)
    ensures ParamOf(segment + [SEMICOLON] + rest, key) == ParamOf(rest, key)
    ensures ParamOf(segment, key) == []
  {
    hide Trim, IsParam;
    var d := segment + [SEMICOLON] + rest;
    FindByteFirst(segment, SEMICOLON, rest);
    assert d[..|segment|] == segment && d[|segment| + 1..] == rest;
    ParamUnfold(d, key);
    ParamUnfold(segment, key);
  }

  lemma ParamHits(value: bytes, rest: bytes, key: bytes)
    requires IsPlain(value) && IsWord(key) && QUOTE !in key && SEMICOLON !in key
    ensures ParamOf([SP] + NameParam(key, value), key) == value
    ensures ParamOf([SP] + NameParam(key, value) + [SEMICOLON] + rest, key) == value
  {
    var segment := [SP] + NameParam(key, value);
    NameParamReads(key, value);
    TrimKeeps(NameParam(key, value));
    hide NameParam, Trim, IsParam, Quoted, ParamOf;
    FindByteFirst(segment, SEMICOLON, rest);
    var d := segment + [SEMICOLON] + rest;
    assert d[..|segment|] == segment;
    ParamUnfold(d, key);
    ParamUnfold(segment, key);
  }

  lemma KeysAre()
    ensures IsWord(NAME) && QUOTE !in NAME && SEMICOLON !in NAME && |NAME| == 4 && NAME[0] == 110
    ensures IsWord(FILENAME) && QUOTE !in FILENAME && SEMICOLON !in FILENAME && |FILENAME| == 8 && FILENAME[0] == 102
    ensures IsWord(FORM_DATA) && SEMICOLON !in FORM_DATA && |FORM_DATA| == 9 && FORM_DATA[0] == 102
  {
    assert forall i :: 0 <= i < |"name"| ==> "name"[i] != ';' && "name"[i] != '"';
    assert forall i :: 0 <= i < |"filename"| ==> "filename"[i] != ';' && "filename"[i] != '"';
    assert forall i :: 0 <= i < |"form-data"| ==> "form-data"[i] != ';';
  }

  /** A parameter segment as it stands in a disposition. */
  lemma SegmentIs(key: bytes, value: bytes)
    requires IsPlain(value) && IsWord(key) && QUOTE !in key && SEMICOLON !in key
    ensures var segment := [SP] + NameParam(key, value);
            SEMICOLON !in segment && Trim(segment) == NameParam(key, value) && NameParam(key, value)[0] == key[0]
  {
    NameParamReads(key, value);
    TrimKeeps(NameParam(key, value));
  }

  lemma KeysDiffer(p: bytes, key: bytes)
    requires p != [] && key != [] && p[0] != key[0]
    ensures !IsParam(p, key)
  {
    if |p| >= |key| { assert p[..|key|][0] == p[0]; }
  }

  lemma FormDataSkipped(rest: bytes, key: bytes)
    requires key == NAME || key == FILENAME
    ensures ParamOf(FORM_DATA + [SEMICOLON] + rest, key) == ParamOf(rest, key)
  {
    KeysAre();
    TrimKeeps(FORM_DATA);
    assert !IsParam(FORM_DATA, key) by { if key == NAME { KeysDiffer(FORM_DATA, NAME); } else { FormDataIsNoName(); } }
    hide ParamOf, IsParam, Trim;
    ParamSkips(FORM_DATA, rest, key);
  }

  lemma FormDataIsNoName()
    ensures !IsParam(FORM_DATA, FILENAME)
  {
    KeysAre();
  }

  lemma FieldParams(p: Part)
    requires IsSendable(p) && p.Field?
    ensures ParamOf(Disposition(p), NAME) == p.name && ParamOf(Disposition(p), FILENAME) == []
  {
    KeysAre();
    SegmentIs(NAME, p.name);
    var named := [SP] + NameParam(NAME, p.name);
    KeysDiffer(NameParam(NAME, p.name), FILENAME);
    hide ParamOf, IsParam, Trim, NameParam, IsWord;
    assert Disposition(p) == FORM_DATA + [SEMICOLON] + named;
    FormDataSkipped(named, NAME);
    FormDataSkipped(named, FILENAME);
    ParamHits(p.name, [], NAME);
    ParamSkips(named, [], FILENAME);
  }

  lemma FileParams(p: Part)
    requires IsSendable(p) && p.File?
    ensures ParamOf(Disposition(p), NAME) == p.name && ParamOf(Disposition(p), FILENAME) == p.filename
  {
    KeysAre();
    SegmentIs(NAME, p.name);
    var named, filed := [SP] + NameParam(NAME, p.name), [SP] + NameParam(FILENAME, p.filename);
    KeysDiffer(NameParam(NAME, p.name), FILENAME);
    hide ParamOf, IsParam, Trim, IsWord, Sanitized;
    var rest := named + [SEMICOLON] + filed;
    assert Disposition(p) == FORM_DATA + [SEMICOLON] + rest;
    hide NameParam, Disposition;
    FormDataSkipped(rest, NAME);
    FormDataSkipped(rest, FILENAME);
    ParamHits(p.name, filed, NAME);
    ParamSkips(named, filed, FILENAME);
    ParamHits(p.filename, [], FILENAME);
  }

  /** A segment neither breaks the line nor ends in a blank. */
  lemma SegmentIsLine(key: bytes, value: bytes)
    requires IsPlain(value) && CR !in key && LF !in key
    ensures var p := NameParam(key, value); CR !in p && LF !in p && p != [] && p[|p| - 1] == QUOTE
  {
  }

  lemma DispositionIsLine(p: Part)
    requires IsSendable(p)
    ensures IsWord(Disposition(p)) && CR !in Disposition(p) && LF !in Disposition(p)
  {
    KeysAre();
    FormDataPlain();
    SegmentIsLine(NAME, p.name);
    if p.File? { SegmentIsLine(FILENAME, p.filename); }
    hide Sanitized, NameParam, IsPlain;
    assert Disposition(p)[0] == FORM_DATA[0] && Disposition(p)[|Disposition(p)| - 1] == QUOTE;
  }

  lemma DispositionReads(p: Part)
    requires IsSendable(p)
    ensures ParamOf(Disposition(p), NAME) == p.name
    ensures Sanitized(ParamOf(Disposition(p), FILENAME)) == if p.File? then p.filename else []
    ensures IsWord(Disposition(p)) && CR !in Disposition(p) && LF !in Disposition(p)
  {
    DispositionIsLine(p);
    SanitizedNothing();
    hide Disposition, ParamOf, Sanitized;
    if p.Field? { FieldParams(p); } else { FileParams(p); }
  }

  lemma SanitizedNothing()
    ensures Sanitized([]) == []
  {
  }

  lemma FormDataPlain()
    ensures CR !in FORM_DATA && LF !in FORM_DATA && CR !in NAME && LF !in NAME && CR !in FILENAME && LF !in FILENAME
  {
    assert forall i :: 0 <= i < |"name"| ==> "name"[i] != '\r' && "name"[i] != '\n';
    assert forall i :: 0 <= i < |"filename"| ==> "filename"[i] != '\r' && "filename"[i] != '\n';
    assert forall i :: 0 <= i < |"form-data"| ==> "form-data"[i] != '\r' && "form-data"[i] != '\n';
  }

  lemma HeaderNames()
    ensures IsWord(CONTENT_DISPOSITION) && COLON !in CONTENT_DISPOSITION && |CONTENT_DISPOSITION| == 19
    ensures IsWord(CONTENT_TYPE) && COLON !in CONTENT_TYPE && |CONTENT_TYPE| == 12
    ensures CR !in CONTENT_DISPOSITION && LF !in CONTENT_DISPOSITION && CR !in CONTENT_TYPE && LF !in CONTENT_TYPE
  {
    var d, t := "Content-Disposition", "Content-Type";
    assert forall i :: 0 <= i < |d| ==> d[i] != ':' && d[i] != '\r' && d[i] != '\n';
    assert forall i :: 0 <= i < |t| ==> t[i] != ':' && t[i] != '\r' && t[i] != '\n';
  }

  lemma HeaderLineReads(head: PartHead, name: bytes, value: bytes)
    requires IsWord(name) && COLON !in name && IsWord(value)
    requires name == CONTENT_DISPOSITION || name == CONTENT_TYPE
    ensures HeadLine(head, HeaderLine(name, value)) ==
            if name == CONTENT_DISPOSITION then head.(disposition := value) else head.(mime := value)
  {
    HeaderNames();
    var line := name + [COLON] + ([SP] + value);
    FindByteFirst(name, COLON, [SP] + value);
    assert line[..|name|] == name && line[|name| + 1..] == [SP] + value;
    TrimKeeps(name);
    TrimKeeps(value);
  }

  lemma NoCrlfWithoutCr(s: bytes, rest: bytes)
    requires CR !in s
    ensures Find(s + CRLF + rest, CRLF, 0) == |s| && Find(s, CRLF, 0) == -1
  {
    FindCrlf(s, rest);
    forall i: nat | i < |s| ensures !MatchesAt(s, CRLF, i) {
      MatchesTwo(s, 13, 10, i);
    }
  }

  lemma HeadLinesRead(head: PartHead, first: bytes, second: bytes)
    requires CR !in first && CR !in second
    ensures HeadLines(head, first) == HeadLine(head, first)
    ensures HeadLines(head, first + CRLF + second) == HeadLine(HeadLine(head, first), second)
  {
    hide HeadLine, Find;
    NoCrlfWithoutCr(first, second);
    NoCrlfWithoutCr(second, []);
    var s := first + CRLF + second;
    assert s[..|first|] == first && s[|first| + 2..] == second;
  }

  lemma LineHasNoCr(name: bytes, value: bytes)
    requires CR !in name && CR !in value
    ensures CR !in HeaderLine(name, value)
  {
  }

  lemma HeadersRead(p: Part)
    requires IsSendable(p)
    ensures HeadLines(PartHead([], []), PartHeaders(p)) == PartHead(Disposition(p), if p.File? then p.mime else [])
  {
    DispositionReads(p);
    HeaderNames();
    if p.File? { FileMime(p); }
    LineHasNoCr(CONTENT_DISPOSITION, Disposition(p));
    hide HeadLines, HeadLine, HeaderLine, Disposition, Trim, IsSendable;
    HeaderLineReads(PartHead([], []), CONTENT_DISPOSITION, Disposition(p));
    if p.File? {
      LineHasNoCr(CONTENT_TYPE, p.mime);
      HeadLinesRead(PartHead([], []), HeaderLine(CONTENT_DISPOSITION, Disposition(p)),
                    HeaderLine(CONTENT_TYPE, p.mime));
      HeaderLineReads(PartHead(Disposition(p), []), CONTENT_TYPE, p.mime);
    } else {
      HeadLinesRead(PartHead([], []), HeaderLine(CONTENT_DISPOSITION, Disposition(p)), []);
    }
  }

  lemma FileMime(p: Part)
    requires IsSendable(p) && p.File?
    ensures IsWord(p.mime) && CR !in p.mime && LF !in p.mime
  {
  }

  lemma BlankLineFound(h: bytes, content: bytes)
    requires forall i :: 0 <= i < |h| && h[i] == CR ==> i + 2 < |h| && h[i + 2] != CR
    ensures Find(h + CRLFCRLF + content, CRLFCRLF, 0) == |h|
  {
    var s := h + CRLFCRLF + content;
    forall i: nat | i < |h| ensures !MatchesAt(s, CRLFCRLF, i) {
      MatchesFour(s, 13, 10, 13, 10, i);
      assert s[i] == h[i];
      if h[i] == CR { assert s[i + 2] == h[i + 2]; }
    }
    MatchesFour(s, 13, 10, 13, 10, |h|);
  }

  lemma TwoLinesHaveNoBlank(first: bytes, second: bytes)
    requires CR !in first && CR !in second && second != []
    ensures var h := first + CRLF + second;
            forall i :: 0 <= i < |h| && h[i] == CR ==> i + 2 < |h| && h[i + 2] != CR
  {
    var h := first + CRLF + second;
    assert forall i :: 0 <= i < |first| ==> h[i] == first[i];
    assert forall i :: 0 <= i < |second| ==> h[|first| + 2 + i] == second[i];
    assert forall i :: |first| + 2 <= i < |h| ==> h[i] == second[i - |first| - 2];
  }

  /** The blank line that `PartText` writes is the first one. */
  lemma HeadersEnd(p: Part)
    requires IsSendable(p)
    ensures Find(PartText(p), CRLFCRLF, 0) == |PartHeaders(p)|
  {
    DispositionReads(p);
    HeaderNames();
    if p.File? { FileMime(p); }
    LineHasNoCr(CONTENT_DISPOSITION, Disposition(p));
    hide Disposition, Trim, Find, IsSendable;
    var first := HeaderLine(CONTENT_DISPOSITION, Disposition(p));
    if p.File? {
      LineHasNoCr(CONTENT_TYPE, p.mime);
      var second := HeaderLine(CONTENT_TYPE, p.mime);
      assert second != [];
      hide HeaderLine;
      TwoLinesHaveNoBlank(first, second);
    }
    BlankLineFound(PartHeaders(p), p.content);
  }

  lemma PartReads(p: Part)
    requires IsSendable(p)
    ensures PartOf(PartText(p)) == [p]
  {
    HeadersEnd(p);
    HeadersRead(p);
    DispositionReads(p);
    var s := PartText(p);
    var h := PartHeaders(p);
    assert s[..|h|] == h && s[|h| + 4..] == p.content;
    hide HeadLines, ParamOf, Sanitized, PartHeaders, Disposition, PartText;
  }

  /** A delimiter without CR and LF cannot start inside the CRLF that precedes it. */
  lemma DelimiterFound(text: bytes, delimiter: bytes, rest: bytes)
    requires delimiter != [] && CR !in delimiter && LF !in delimiter && Find(text, delimiter, 0) == -1
    ensures Find(text + CRLF + delimiter + rest, delimiter, 0) == |text| + 2
  {
    var s := text + CRLF + delimiter + rest;
    var n := |delimiter|;
    forall i: nat | i < |text| + 2 ensures !MatchesAt(s, delimiter, i) {
      if i + n <= |text| {
        assert s[..|text|] == text[..|text|];
        MatchesAgree(s, text, |text|, delimiter, i);
      } else if i <= |text| && i + n <= |s| {
        assert s[i..i + n][|text| - i] == s[|text|] == CR;
      } else if i + n <= |s| {
        assert s[i..i + n][0] == s[i] == LF;
      }
    }
    assert s[|text| + 2..|text| + 2 + n] == delimiter;
    assert MatchesAt(s, delimiter, |text| + 2);
  }

  /** One encoded part, read back up to the next delimiter. */
  lemma PartCut(text: bytes, delimiter: bytes, rest: bytes)
    requires delimiter != [] && CR !in delimiter && LF !in delimiter && Find(text, delimiter, 0) == -1
    ensures PartsAfter(CRLF + (text + CRLF + delimiter + rest), delimiter) == PartOf(text) + PartsAfter(rest, delimiter)
  {
    hide PartOf;
    var t := text + CRLF + delimiter + rest;
    var s := CRLF + t;
    DelimiterFound(text, delimiter, rest);
    hide Find, StripLineEnd;
    assert s[..2] == CRLF && s[2..] == t && CRLF[0] != DASHES[0];
    assert SkipLineEnd(s) == t;
    assert t[..|text| + 2] == text + CRLF;
    LineEndStripped(text);
    assert t[|text| + 2 + |delimiter|..] == rest;
  }

  lemma LineEndStripped(text: bytes)
    ensures StripLineEnd(text + CRLF) == text
  {
    assert (text + CRLF)[|text|..] == CRLF && (text + CRLF)[..|text|] == text;
  }

  lemma ClosingRead(delimiter: bytes, epilogue: bytes)
    requires delimiter != []
    ensures PartsAfter(EncodeAfter([], delimiter, epilogue), delimiter) == []
  {
    hide PartOf, Find;
    assert (DASHES + epilogue)[..2] == DASHES;
  }

  lemma EncodeFirst(parts: seq<Part>, delimiter: bytes, epilogue: bytes)
    requires parts != []
    ensures EncodeAfter(parts, delimiter, epilogue)
            == CRLF + (PartText(parts[0]) + CRLF + delimiter + EncodeAfter(parts[1..], delimiter, epilogue))
  {
    hide PartText;
  }

  lemma {:induction false} PartsRead(parts: seq<Part>, delimiter: bytes, epilogue: bytes)
    requires delimiter != [] && CR !in delimiter && LF !in delimiter
    requires AreSendable(parts, delimiter)
    ensures PartsAfter(EncodeAfter(parts, delimiter, epilogue), delimiter) == parts
    decreases |parts|
  {
    hide PartOf, PartText, IsSendable, Find, PartsAfter, EncodeAfter;
    if parts == [] {
      ClosingRead(delimiter, epilogue);
    } else {
      EncodeFirst(parts, delimiter, epilogue);
      PartCut(PartText(parts[0]), delimiter, EncodeAfter(parts[1..], delimiter, epilogue));
      PartReads(parts[0]);
      PartsRead(parts[1..], delimiter, epilogue);
      assert parts == [parts[0]] + parts[1..];
    }
  }

  /**
   * Any list of fields and files, written with a boundary whose delimiter occurs
   * in no part, is read back in order, content ending in CRLF included.
   */
  lemma MultipartRoundTrip(parts: seq<Part>, boundary: bytes, epilogue: bytes)
    requires boundary != [] && CR !in boundary && LF !in boundary
    requires AreSendable(parts, DASHES + boundary)
    ensures PartsOf(Encode(parts, boundary, epilogue), boundary) == parts
  {
    hide PartsAfter, EncodeAfter;
    var delimiter := DASHES + boundary;
    var rest := EncodeAfter(parts, delimiter, epilogue);
    var body := Encode(parts, boundary, epilogue);
    assert body == delimiter + rest;
    assert body[0..|delimiter|] == delimiter;
    assert MatchesAt(body, delimiter, 0);
    assert body[|delimiter|..] == rest;
    PartsRead(parts, delimiter, epilogue);
  }
}
