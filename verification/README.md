# Vermell, verified

A Dafny model of the hard parts of Vermell, an epoll HTTP/1.1 server: how requests are framed and parsed,
how connections live and share the event loop with a thread pool, how JSON is read and written, and how
responses are sent. `dafny verify dfyconfig.toml` checks everything.

## How to read it

Each operation appears twice. A *method* carries the source's name and its loops (`Head.ScanHead`,
`Chunked.ScanChunked`, `JsonParser.JsonParser.ParseValue`, `RequestIO.RequestIO.HandleReadable`); its
`ensures` ties the result or the new state to a *specification function* with a noun for a name (`Head.ScanOf`,
`Chunked.Dechunk`, `JsonParser.ValueOf`, `LoopState.AfterReadable`). The lemmas are about the specification
functions, and relate them to definitions that know nothing of the code: grammars, encoders, ledgers and
invariants over every interleaving.

| file | content |
|---|---|
| Bytes | byte strings, searching, trimming, decimal and hexadecimal numbers |
| Head, Chunked, Message, KeepAlive | framing inspection and parsing of a request (RFC 9112 sections 3, 5, 6.3 and 7.1); what it says about staying open |
| Framing | which verdict every buffer gets, said on its lines, its fields and the bytes behind the head |
| RequestText | requests as clients write them, and that each is read back as it was meant |
| Query, Multipart, MultipartText | form decoding; multipart bodies (RFC 7578 section 4), and what any body means piece by piece |
| Response, ResponseText | header set and serialized response head; the head as a client reads it |
| Unicode, Json, JsonParser, JsonProofs | JSON values, serializer, grammar, cursor parser (RFC 8259), UTF-8 (RFC 3629) |
| Connection | one connection: receive loop, framing loop with its cache, greedy cutting of the stream |
| LoopState, RequestIO | all connections: what each operation does to the state, and the class that does it |
| Inline, Delivery | runs without a pool; what the sockets handed over beside what was served |
| PoolMode, PoolDispatch, PoolHistory, Wakeup | runs with a pool; that the dispatch loop takes their steps; which requests the workers get; the eventfd protocol between workers and loop |
| ThreadPool, Send | the bounded pool as a monitor; the vectored send loop |

Bytes are `int` in 0..255 and `size_t` is `nat`; the places where 2^64 matters are modelled explicitly (the
chunk-size guard, the saturating request length, `Content-Length`, the pool's default capacity). `npos` as a
search result is -1.

The world outside is a parameter: a list of `recv` or `accept4` results, one `sendmsg` outcome per call, a
deadline flag instead of a clock, the answer of the handler (`keep`) and of the pool (`poolAccepts`), and the
numerals the library's double reader takes (`finite`). Whatever these are, the theorems hold. Assumed of the
kernel: `accept4` never returns a descriptor that is still open, an event names an open registered descriptor, at
most once per batch, and with one-shot registration only an armed one. Concurrency is modelled as a transition
system with one transition per critical section or atomic operation, sequentially consistent. `isspace` and
`tolower` are those of the C locale.

## What the proofs found

- `Message::line_endings_ok` (include/vermell/http/message.hpp:699-709) says in a comment that a head without
  header lines is fine. There the CR of the request line is the first byte of the terminator and not part of the
  head, so `GET / HTTP/1.1` with CR LF CR LF is refused, and only a further CR of its own gets such a request
  through (`Message.HeaderlessRequests`). `Message.HeaderlessVerdict` gives the exact condition for every line, and
  `Head.EndingsExact` says of every head which line endings are accepted. The model follows the code.
- `version_at_least_11` (include/vermell/http/message.hpp:671-689) is documented to tell whether a request line
  declares HTTP/1.1 or newer, and reads the version behind the first `HTTP/` of the line.
  `RequestText.StartVersionExact` says when it is right about a start line: exactly when the target does not hold
  `HTTP/` itself, or the version is older anyway. `RequestText.BareLfIsRead` gives an HTTP/1.1 request with bare LFs
  that is read because its target hides the version.
- A step in pool mode loses track of a descriptor in exactly two situations (`PoolMode.StepOwned`): when a re-armed
  connection already holds a further complete request (sources/request/io.cpp:430-436 arms the descriptor
  and then hands the request off), and when an event reports readiness and hang-up together and the read hands off a
  request with bytes left over (sources/request/io.cpp:100-106). `PoolMode.TwiceInFlight` and
  `PoolMode.ClosedTwice` give runs, the first for every request that asks to stay, the second for every request that
  is answered with a close. Everywhere else ownership is kept.
- A read that exceeds the size limit, or that ends in an error of the socket, throws away every complete request it
  took before serving any of them (sources/request/io.cpp:189-192 and 205-206): two pipelined requests that fit the
  limit one by one are both lost when they arrive at once (`Inline.PipelinedAndDropped`). `Inline.RefusedReadDrops`
  states when a refused read loses requests: exactly when the buffer then begins with a complete one.
- A peer that has closed is let go of only when bytes are left that are not a complete request, when a handler ends
  the connection, or, in pool mode, when the queue is full (sources/request/io.cpp:209-212 and 218-235). `Inline.ClosedPeerStays` states when a connection outlives
  the close: exactly when every byte received has been served and kept alive, an idle connection included.
  `PoolMode.ClosedPeerStays` states it for pool mode, where an idle descriptor is even armed again.
- The JSON parser is stricter than RFC 8259 in three ways, all stated in the grammar of `Json`: a surrogate escape
  must be half of a pair, nesting is at most 256, and a numeral that is no 64-bit integer must be one that the
  library's double reader takes (`finite`; a literal such as 1e999 is out of its range). It is laxer in one: bytes
  from 0x80 up are taken in strings without being checked as UTF-8.

## Model

| member | source | states |
|---|---|---|
| Head.BoundsOf | include/vermell/http/message.hpp:465-473 | The reported end is a blank line, nothing earlier is one, and -1 means there is none |
| Head.BoundsAgree | include/vermell/http/message.hpp:465-473 | Bytes behind the terminator cannot move it |
| Head.LinesRead | include/vermell/http/message.hpp:380-384 | Ended lines and an open rest come apart into exactly those lines, from wherever they start |
| Head.ScanHead | include/vermell/http/message.hpp:477-556 | The scanning loop computes the framing scan of the head |
| Head.ScanFieldsExact | include/vermell/http/message.hpp:503-553 | The scan of a field list stops exactly when there are more than 100 fields or the framing fields contradict each other; otherwise it reports their one meaning |
| Head.ScanExact | include/vermell/http/message.hpp:477-556 | Scan and header-building loop see the same fields: the scan accepts a well-formed head iff its lines are short, its fields few and coherent |
| Framing.ScanAfterExact | include/vermell/http/message.hpp:477-556 | For every list of lines, well-formed or not: the scan goes through iff all are short, at most 100 filled, none folded and the framing fields coherent; it reports too many iff the lines before the 101st filled one are in order and that one is short |
| Framing.FramingNamesExact | include/vermell/http/message.hpp:516-550 | Content-Length, Transfer-Encoding and chunked are known in any case, and by no other spelling |
| Head.BuildHeaders | include/vermell/http/message.hpp:378-408 | The header-building loop yields the list of trimmed fields, or fails iff some line is folded or malformed |
| RequestText.FieldExact | include/vermell/http/message.hpp:385-406 | A line is taken as a field iff it is not folded and the text before its first colon and all behind it are, without outer blanks, the name, which is a token, and the value |
| RequestText.FieldReads | include/vermell/http/message.hpp:397-406 | A name, blanks, a colon and anything else is that name with the rest, trimmed, as value, whatever colons it holds |
| RequestText.FieldRefused | include/vermell/http/message.hpp:390-403 | A line is refused iff it starts with SP or HTAB, has no colon, or the trimmed text before its first colon is no token |
| RequestText.TokenByteExact | include/vermell/http/message.hpp:639-649 | Token bytes are letters, digits and the fifteen marks of RFC 9110 section 5.6.2 |
| Head.LineEndingsOk | include/vermell/http/message.hpp:697-725 | The line-ending check decides the accepted endings |
| Head.EndingsExact | include/vermell/http/message.hpp:691-725 | An HTTP/1.1 head is accepted iff every LF, the terminator's included, follows a CR and there are header lines or the head ends in a CR of its own |
| Head.HeaderlessEndings | include/vermell/http/message.hpp:699-710 | A head without header lines is accepted iff it declares no HTTP/1.1 or ends in a CR of its own |
| RequestText.VersionExact | include/vermell/http/message.hpp:671-689 | The endings are checked iff the line ends in the version of its first `HTTP/`, and that is at least 1.1 |
| RequestText.StartVersionExact | include/vermell/http/message.hpp:668-689 | A start line passes for HTTP/1.1 or newer iff its version is, and its target does not hold `HTTP/` |
| RequestText.BareLfIsRead | include/vermell/http/message.hpp:671-725 | An HTTP/1.1 request with bare LFs throughout that is complete and parses |
| Message.HeaderlessVerdict | include/vermell/http/message.hpp:288-321 | A line and an empty line are complete at once, or refused iff the line declares HTTP/1.1 and does not end in a CR of its own |
| Message.HeaderlessRequests | include/vermell/http/message.hpp:699-710 | `GET / HTTP/1.1` without header lines is refused; with one more CR it is complete |
| Chunked.ReadSize | include/vermell/http/message.hpp:575-599 | The digit loop with its overflow test yields the declared size of a chunk line |
| Chunked.GuardExact | include/vermell/http/message.hpp:577-591 | The guard refuses exactly the hexadecimal numerals whose value is 2^64 or more |
| Chunked.ScanChunked | include/vermell/http/message.hpp:566-635 | The index-juggling decoder computes the suffix-recursive decoding |
| Chunked.DecodesCoding | include/vermell/http/message.hpp:566-635 | Any chunked coding (hex in any case, leading zeros, extensions, trailers) followed by any bytes decodes to its payload and ends at its end |
| Chunked.CodingExact | include/vermell/http/message.hpp:566-635 | The decoder answers Complete iff the body starts with a chunked coding of that payload and length |
| Chunked.MalformedExact | include/vermell/http/message.hpp:566-635 | The decoder refuses a body iff whole chunks are followed by a line that declares no size, or by a chunk whose data no CRLF follows |
| Chunked.AnyBodyIsCoded | include/vermell/http/message.hpp:566-635 | Every body has a coding: one chunk with its size in hexadecimal, and a last one |
| Chunked.CompleteStays | include/vermell/http/message.hpp:566-635 | Later bytes never change a Complete decoding, nor does cutting the body off at its end |
| Chunked.MalformedStays | include/vermell/http/message.hpp:566-635 | Later bytes never repair a malformed body |
| Message.Inspect | include/vermell/http/message.hpp:269-321 | The inspection code computes the inspection that all framing theorems are about |
| Bytes.SizeOf | include/vermell/http/message.hpp:525-541 | A Content-Length is taken iff it is a decimal numeral below 2^64, leading zeros allowed, and is that number |
| Message.CompleteSurvives | include/vermell/http/message.hpp:269-321 | More bytes never change a Complete verdict or its length |
| Message.CompleteAlone | include/vermell/http/message.hpp:269-321 | The declared bytes alone are Complete with the same length |
| Message.NothingShorter | include/vermell/http/message.hpp:269-321 | No proper prefix of a complete request is Complete |
| Message.VerdictsFinal | include/vermell/http/message.hpp:289-321 | Once the head is there every refusal is final, a declared length never changes, and it is reached exactly when that many bytes are there |
| Message.CompleteWithin | include/vermell/http/message.hpp:302-321 | A complete request is not empty and lies within the buffer, head included |
| Framing.VerdictExact | include/vermell/http/message.hpp:289-321 | Of every buffer with a whole head: too many fields, another coding than chunked, or a bad request, each iff its condition on the lines, the fields, the line endings and the chunks holds |
| Framing.RefusedHeads | include/vermell/http/message.hpp:289-300 | Each of the four reasons to turn a head away, in the order of the code, and its verdict |
| Framing.FramedByLength | include/vermell/http/message.hpp:315-321 | With a head taken and lengths that all denote n, the request ends n bytes behind its head, saturated at 2^64 - 1, and is complete iff that many bytes are there |
| Framing.FramedByChunks | include/vermell/http/message.hpp:302-313 | With the chunked coding it is complete iff a coding stands behind the head, ends where that ends, is refused iff whole chunks are followed by an offence, and otherwise waits |
| Framing.FramedByNothing | include/vermell/http/message.hpp:315-321 | With neither it ends with its head |
| Framing.TakenExactly | include/vermell/http/message.hpp:289-300 | A head of well-formed fields is taken iff its lines are short, its fields at most 100 and coherent, no other coding is named, and an HTTP/1.1 head ends its lines in CRLF |
| Framing.PartialExact | include/vermell/http/message.hpp:272-287 | An arriving head is refused as soon as, and only if, a line exceeds 65536 bytes or, with none such among the first 101, a further line has ended |
| Message.Parse | include/vermell/http/message.hpp:327-443 | The parser computes the request that the agreement theorems are about |
| RequestText.RequestReads | include/vermell/http/message.hpp:269-443 | Every written request (any start line, fields in any spelling, CRLF or for older versions LF, a body by length, chunked or none), whatever follows it, is complete at its own end and parses to its method, target, version, fields in order and body |
| RequestText.HeadReads | include/vermell/http/message.hpp:339-423 | A head written from any start line and any fields is read back, in order, iff its Host fields are in order |
| RequestText.StartExact | include/vermell/http/message.hpp:341-365 | A request line is taken iff it is token, target and version with single spaces between them, with or without a CR, and yields those three |
| RequestText.TargetReads | include/vermell/http/message.hpp:367-375 | Path and query are what stands before the first question mark, less one slash at its end, and what stands behind it |
| Message.ParseExact | include/vermell/http/message.hpp:327-443 | A buffer parses iff inspection calls it Complete and its head is well-formed |
| Message.ParseIgnoresRest | include/vermell/http/message.hpp:327-443 | Parsing a buffer and parsing its first request alone give the same result |
| Message.BodyIsFramed | include/vermell/http/message.hpp:425-439 | Of every parsed request: at most 100 fields, all lengths one number equal to the body's size, never with a transfer coding; the body is the declared slice or the de-chunked data |
| KeepAlive.Header | include/vermell/http/message.hpp:220-225 | The lookup loop yields the first field of that name up to ASCII case, or nothing when there is none |
| KeepAlive.HeaderExact | include/vermell/http/message.hpp:220-225 | The value looked up is that of the first field of the name, and empty iff there is none or it is |
| KeepAlive.KeepAliveExact | sources/request/io.cpp:36-43 | A request asks to stay iff its first Connection field says keep-alive or, from HTTP/1.1 on, does not say close |
| KeepAlive.GetHostStays | sources/request/io.cpp:36-43 | `GET / HTTP/1.1` with a Host line is complete, parses, and asks for its connection to stay |
| Message.CountHosts | include/vermell/http/message.hpp:415-423 | The loop counts Host fields up to ASCII case and stops at the second |
| RequestText.HostRuleExact | include/vermell/http/message.hpp:415-423 | Exactly one Host field in any case or, in HTTP/1.0, none |
| Query.UrlDecode | include/vermell/http/message.hpp:111-138 | The decoding loop computes the decoding of a word |
| Query.ParseQuery | include/vermell/http/message.hpp:165-186 | The segment loop computes the list of pairs |
| Query.FormReads | include/vermell/http/message.hpp:111-186 | Every spelling of a form (raw byte, plus, percent in either case; keys without a value, empty segments) is read as the pairs it means |
| Query.RawStays | include/vermell/http/message.hpp:111-138 | Text in which no percent sign is followed by two hexadecimal digits stands for itself, plus signs apart |
| Query.QueryRoundTrip | include/vermell/http/message.hpp:111-186 | Every list of pairs of byte strings, empty ones included, is read back from its encoding |
| Multipart.DispositionParam | include/vermell/http/message.hpp:783-808 | The parameter loop yields the quoted value of the first matching parameter between semicolons |
| MultipartText.ParamExact | include/vermell/http/message.hpp:783-808 | Of all segments between semicolons the first that opens the parameter decides, wherever it stands; without one there is no value |
| MultipartText.ParamIsRead | include/vermell/http/message.hpp:783-808 | Such a segment gives the value between its quotes, whatever blanks and text surround it |
| Multipart.SanitizedIsSafe | include/vermell/http/message.hpp:766-776 | A surviving file name has no directory part and no control byte, is not dot or dot-dot, and is a fixed point |
| Multipart.SanitizedExact | include/vermell/http/message.hpp:766-776 | Of a path with either kind of slash the last part survives unchanged, unless it is empty, a dot or two, or holds a control byte |
| Multipart.ParseMultipart | include/vermell/http/message.hpp:812-886 | The part loop terminates on every input and yields the fields and the files of the body, in order |
| MultipartText.HeadersExact | include/vermell/http/message.hpp:852-868 | Of Content-Disposition and Content-Type, in any case, the last line counts, wherever it stands; other lines do not |
| MultipartText.HeaderNamesExact | include/vermell/http/message.hpp:860-863 | Both header names are known in any case |
| MultipartText.PartExact | include/vermell/http/message.hpp:846-883 | A part is dropped without a name, a file when its file name survives, with the default media type when none is given, and a field otherwise; its content is all behind the first blank line |
| MultipartText.BodyExact | include/vermell/http/message.hpp:815-844 | Any body cut at its delimiters: the preamble is ignored, each further piece holds one part without the line ends at its edges, up to the delimiter followed by two dashes; an unended last part is not read |
| MultipartText.BodyWas | include/vermell/http/message.hpp:819-838 | Every body is such pieces and a tail |
| Multipart.MultipartRoundTrip | include/vermell/http/message.hpp:812-886 | Any list of fields and files, written with a boundary whose delimiter occurs in no part, is read back in order, contents ending in CRLF included |
| Response.Response.Set | include/vermell/http/response.hpp:28-41 | Setting replaces in place or appends the sanitized header and keeps names unique and clean |
| Response.SetReads | include/vermell/http/response.hpp:28-41 | After a set, that name (in any case) reads the new value and every other name its old one |
| Response.SetKeepsOrder | include/vermell/http/response.hpp:28-41 | A set leaves every header in its place with its spelling, and puts a new name last |
| Response.Response.Head | include/vermell/http/response.hpp:58-95 | The serializer writes status line, headers, missing defaults and the blank line |
| Response.HeadDelimitsItself | include/vermell/http/response.hpp:58-95 | Whatever the body, the first head terminator of head plus body ends exactly where the head ends |
| ResponseText.HeadReadBack | include/vermell/http/response.hpp:58-95 | The head is read back: every name has the value it was set to and otherwise its default, of which the Content-Length is the size of the body; behind the head stands the body |
| ResponseText.StatusReads | include/vermell/http/response.hpp:62-66 | The status line is version, code and phrase with one space between them |
| Response.SetsKeep | include/vermell/http/response.hpp:28-95 | After any sequence of sets names are unique up to case and the head still delimits itself |
| Unicode.Utf8Decodes | include/vermell/util/json.hpp:431-447 | A reference UTF-8 decoder reads back every encoded scalar |
| Unicode.Utf8Unique | include/vermell/util/json.hpp:431-447 | Nothing else decodes to that scalar: the encoding is the shortest form |
| Unicode.SurrogatesInverse | include/vermell/util/json.hpp:403-410 | Joining surrogates and splitting scalars into UTF-16 are inverse, both ways |
| JsonParser.CodePointOf | include/vermell/util/json.hpp:399-415 | An accepted escape is a scalar value, never a surrogate |
| Json.DumpTo | include/vermell/util/json.hpp:182-238 | The recursive writer appends the serialization and nothing else |
| Json.EscapeString | include/vermell/util/json.hpp:156-180 | The escaping loop appends the quoted text |
| JsonProofs.SpelledExact | include/vermell/util/json.hpp:156-180 | A byte is written as its short escape, the slash apart, other control bytes as `\u00` with two small hexadecimal digits, and the rest raw |
| JsonParser.JsonParser.ParseValue | include/vermell/util/json.hpp:292-314 | From any cursor: the value the rest of the input starts with, at this depth, and the cursor just behind it, or nothing; terminates on every input |
| JsonParser.JsonParser.ParseItems | include/vermell/util/json.hpp:316-333 | The array loop reads the items up to the closing bracket |
| JsonParser.JsonParser.ParseMembers | include/vermell/util/json.hpp:335-358 | The object loop reads the members up to the closing brace |
| JsonParser.JsonParser.ParseString | include/vermell/util/json.hpp:360-397 | The string loop reads a string with its escapes decoded |
| JsonProofs.ShortEscapesExact | include/vermell/util/json.hpp:369-388 | The parser knows the eight short escapes of RFC 8259 section 7, each with the byte it stands for, and refuses every other letter but `u` |
| JsonProofs.TokensExact | include/vermell/util/json.hpp:275-314 | White space, the three literal names and the structural characters, spelled out |
| JsonProofs.Hex4IsNumeral | include/vermell/util/json.hpp:417-429 | Four hexadecimal digits are read as the numeral they are |
| JsonParser.JsonParser.ParseCodepoint | include/vermell/util/json.hpp:399-415 | The escape reader joins surrogate pairs and refuses halves |
| JsonParser.JsonParser.ParseNumber | include/vermell/util/json.hpp:450-488 | The number reader takes the longest numeral, exact when it is an integer within 64 bits |
| JsonParser.JsonParser.Run | include/vermell/util/json.hpp:248-258 | The whole text must be one value between white space |
| JsonProofs.TreeReads | include/vermell/util/json.hpp:292-488 | The text of every derivation, whatever follows it, is read as its meaning, or refused iff it is nested too deep |
| JsonProofs.ValueWas | include/vermell/util/json.hpp:292-488 | Whatever is read derives in the grammar with the value read as its meaning |
| JsonProofs.DocumentExact | include/vermell/util/json.hpp:248-488 | A text is accepted with a value iff it is white space, a derivation of that value nested at most 256 deep, and white space |
| JsonProofs.DumpDerives | include/vermell/util/json.hpp:140-238 | What the serializer writes derives in the grammar, with the value as meaning and its height as depth |
| JsonProofs.JsonRoundTrip | include/vermell/util/json.hpp:140-488 | A double-free value is read back from its serialization iff its height is at most 256 |
| Connection.ReceiveAll | sources/request/io.cpp:184-207 | The receive loop: bytes kept in order up to the size limit, and why it ended |
| Connection.ReceiveExact | sources/request/io.cpp:184-207 | On the outcomes alone: the loop takes every byte up to the first outcome that is an end, an error, a would-block, a read that is not full, or one beyond the limit, in order, and each gives its own result |
| Connection.GotIsDrained | sources/request/io.cpp:184-207 | A read that is not refused takes exactly what its socket hands over, whatever the limit and the buffer |
| Connection.TakeTurn | sources/request/io.cpp:218-279 | One turn of the framing loop: wait, refuse with its status, or cut one request off |
| Connection.StatusExact | sources/request/io.cpp:218-279 | 431, 501, 413, 400 or 408 is answered iff a fresh inspection, the limit, the close and the deadline say so; otherwise the turn waits or cuts |
| Connection.CacheSurvives | sources/request/io.cpp:221-244 | Bytes that arrive later leave the cached framing equal to a fresh inspection |
| Connection.ServeLoopExact | sources/request/io.cpp:218-304 | The loop with its cache does what greedy cutting and one fresh inspection of the rest do, up to the first request whose handler ends the connection |
| Connection.CutConserves | sources/request/io.cpp:218-279 | Requests cut off and bytes left concatenate to the stream, and what is left holds no complete request |
| Connection.CutExtends | sources/request/io.cpp:218-279 | Cutting as bytes arrive and cutting the whole stream give the same requests |
| Connection.CutsStandAlone | sources/request/io.cpp:271-279 | Each request handed on is by itself a complete request of its own length |
| Connection.CutsPipeline | sources/request/io.cpp:218-290 | Pipelined requests followed by incomplete bytes come apart into exactly those requests |
| Connection.ReadKeepsFaithful | sources/request/io.cpp:209-304 | A call whose receive loop ends normally keeps an open session's served requests equal to the cut of all bytes received; a session it ends has served a prefix of that cut, all of it unless the handler ended it |
| Connection.ClosedPeerStays | sources/request/io.cpp:197-235 | A session survives its peer's close iff all its bytes are complete requests and every one was kept alive |
| Connection.SegmentationIndependent | sources/request/io.cpp:184-301 | Sessions that received the same bytes served the same requests and hold the same state |
| RequestIO.RequestIO.PendingSlot | include/vermell/request/io.h:84-92 | The slot vector grows as needed and engages the slot, every other slot unchanged |
| RequestIO.RequestIO.DropPending | include/vermell/request/io.h:93-96 | Only that slot is reset |
| RequestIO.RequestIO.AcceptPending | sources/request/io.cpp:119-165 | The accept loop's effect: limit, failed registration, fresh slot |
| RequestIO.RequestIO.HandleReadable | sources/request/io.cpp:168-304 | The whole effect of a readable descriptor on slots, counters, tasks and descriptors, in both modes |
| RequestIO.RequestIO.ServeAll | sources/request/io.cpp:218-304 | The inline loop serves what the specification loop serves and ends in the same way |
| RequestIO.RequestIO.DispatchFirst | sources/request/io.cpp:218-297 | With a pool: one turn, slot set aside for leftover bytes or dropped, then the hand-off |
| RequestIO.RequestIO.DispatchTask | sources/request/io.cpp:338-357 | The request is queued, or the connection answered with 503, closed and forgotten |
| RequestIO.RequestIO.Reject | sources/request/io.cpp:360-366 | The status is sent, the descriptor closed once, the slot dropped, both counters moved |
| RequestIO.RequestIO.HangUp | sources/request/io.cpp:102-107 | The same without a response |
| RequestIO.RequestIO.SweepStale | sources/request/io.cpp:307-335 | Exactly the expired slots that do not wait for a worker are answered with 408, closed and dropped |
| RequestIO.RequestIO.RearmConnection | sources/request/io.cpp:421-437 | Slot reset, descriptor armed, leftover bytes handled at once |
| RequestIO.RequestIO.DrainCompletions | sources/request/io.cpp:397-418 | All completions are taken at once and each ends or re-arms its connection, in order |
| RequestIO.RequestIO.Dispatch | sources/request/io.cpp:77-116 | Events in order, then the sweep |
| RequestIO.RequestIO.Shutdown | sources/request/io.cpp:464-487 | Completions and engaged slots are closed and the table is empty |
| LoopState.AcceptExact | sources/request/io.cpp:138-164 | A new descriptor stays open iff it could be registered and the limit leaves room; then it has a fresh slot and is armed |
| LoopState.SweepExact | sources/request/io.cpp:314-334 | The sweep ends, with 408, exactly the slots whose deadline is over and that await no worker |
| LoopState.RefusedReadExact | sources/request/io.cpp:187-206 | A read beyond the limit answers 413 and a broken one 400, and both end the connection |
| LoopState.TurnExact | sources/request/io.cpp:246-297 | With a pool: a refusal answers its status, a request the pool does not take 503; a taken one is queued, with its leftover bytes set aside; a waiting one is armed again |
| LoopState.ServeExact | sources/request/io.cpp:281-304 | Without a pool every request served is counted, a refusal answers its status, a handler's close sends none, and what stays open keeps its slot |
| LoopState.HangUpExact | sources/request/io.cpp:99-112 | A hang-up ends the connection whatever its last read did |
| LoopState.CompletionExact | sources/request/io.cpp:409-436 | A worker's close ends the connection; otherwise it waits, armed, with a fresh slot when no bytes are left |
| Inline.EventAccounted | sources/request/io.cpp:77-304 | One event keeps the books and touches no other connection's descriptor |
| Inline.InlineRuns | sources/request/io.cpp:77-335 | In every run without a pool: one slot per open descriptor, the count equals the open ones and the limit, nothing closed that is not open, every connection served exactly the cut of its stream; shutdown closes each rest once |
| Inline.LetIn | sources/request/io.cpp:138-164 | In every run a new connection is let in iff it could be registered and fewer than the limit are open |
| Delivery.DeliveredIsServed | sources/request/io.cpp:119-304 | In every run without a pool each open connection has received exactly the chunks its socket handed over since it was accepted, from a log of the events alone, and was served the cut of these bytes |
| Inline.EndedWereServed | sources/request/io.cpp:99-335 | In every run each connection that has ended was served the first requests of all bytes it took, in order: all of them unless a handler ended it or its last read was refused, and after a refused read all of them iff the bytes left hold no complete request |
| Inline.RefusedReadDrops | sources/request/io.cpp:184-207 | A read refused for its size or an error has dropped requests iff the buffer now begins with a complete one |
| Inline.PipelinedAndDropped | sources/request/io.cpp:187-192 | For every request and every limit that admits one but not two of it: two at once end the connection with neither served |
| Inline.SuchALimit | sources/request/io.cpp:187-192 | `GET / HTTP/1.1` with a Host line and a limit from 27 to 53 is such a case |
| Inline.ClosedPeerStays | sources/request/io.cpp:197-235 | A read that finds the peer closed keeps the descriptor open iff every byte has been served and kept alive |
| Inline.SegmentationIsInvisible | sources/request/io.cpp:184-301 | Connections of any two runs that received the same bytes are in the same state with the same requests served |
| PoolMode.StepOwned | sources/request/io.cpp:77-165 | A step of loop or worker keeps every open descriptor waiting in its slot or in flight exactly once, iff it is not one of the two unsafe ones |
| PoolMode.HandleOwned | sources/request/io.cpp:99-112 | An event keeps ownership iff it is not a hang-up whose read hands off a request and leaves bytes |
| PoolMode.CompletionOwned | sources/request/io.cpp:409-437 | A completion keeps ownership iff re-arming does not hand off a further request |
| PoolMode.PoolRuns | sources/request/io.cpp:77-487 | In every safe run of loop and workers the books balance, the connection limit holds, each open descriptor has one owner, and a shutdown after the workers have ended leaves nothing open |
| PoolDispatch.DispatchIsARun | sources/request/io.cpp:77-116 | One wake-up of the dispatch loop is a run of the ownership model: events in order, one step for every completion and every accepted connection, then the sweep |
| PoolDispatch.DrainIsARun | sources/request/io.cpp:397-418 | Draining is one completion step after the other, in the order in which they were listed |
| PoolMode.EmptyingRunsAreSafe | sources/request/io.cpp:291-296 | Runs whose hand-offs always empty the buffer are safe |
| PoolMode.ShutdownClosesAll | sources/request/io.cpp:464-487 | With no task left, shutdown closes every descriptor exactly once |
| PoolMode.ClosedPeerStays | sources/request/io.cpp:197-296 | A read that finds the peer closed arms an idle descriptor again; with bytes the connection survives iff they hold a complete request that the pool takes |
| PoolMode.TwiceInFlight | sources/request/io.cpp:421-437 | For every request that asks to stay: a peer that sends it twice at once, and once more after the first answer, has its descriptor queued twice |
| PoolMode.SuchARequest | sources/request/io.cpp:36-43 | There is such a request |
| PoolMode.ClosedTwice | sources/request/io.cpp:99-108 | For every request, when it is answered with a close: a peer that sends it twice at once and hangs up has its descriptor closed twice and the count falls below zero |
| PoolHistory.HandedIsPrefix | sources/request/io.cpp:168-304 | In every safe run the requests handed to the pool are, for the last connection on each descriptor, open or ended, the first ones of the cut of all bytes it took |
| PoolHistory.HandedInOrder | sources/request/io.cpp:168-304 | For every open connection they are all of that cut, except what a slot set aside still holds |
| PoolHistory.HandedAll | sources/request/io.cpp:291-296 | When every hand-off empties the buffer the workers get exactly that cut of every open connection |
| PoolHistory.TasksStandAlone | sources/request/io.cpp:271-296 | In every run, safe or not, each request queued or running is a complete one of its own length |
| Wakeup.NoLostWakeup | sources/request/io.cpp:397-461 | In every interleaving a completion listed while the loop waits has a counter set or a worker that owes its count or its write; each is taken once, in order |
| Wakeup.EverythingIsTaken | sources/request/io.cpp:397-461 | Once pushes stop the run ends within a bound known beforehand, and then every completion has been taken |
| Wakeup.InvKept | sources/request/io.cpp:397-461 | Each of the three worker steps and three loop steps keeps count, eventfd and list in agreement |
| Wakeup.Mailbox.CountUp | sources/request/io.cpp:456-460 | Only the worker that raises the count from zero owes a write |
| ThreadPool.QueueCapacity | sources/threading/thread_pool.cpp:10-17 | The configured capacity, or else the larger of 1024 and 256 for each worker; never zero, even where the product wraps |
| ThreadPool.Pool.constructor | sources/threading/thread_pool.cpp:22-27 | At least one worker, an empty queue and the configured or default capacity |
| ThreadPool.Pool.TakeTask | sources/threading/thread_pool.cpp:47-59 | A worker's critical section: wait, exit, or take the oldest task |
| ThreadPool.Pool.AddTask | sources/threading/thread_pool.cpp:76-96 | A blocking caller's critical section: wait, throw, or queue at the end |
| ThreadPool.Pool.TryAddTask | sources/threading/thread_pool.cpp:99-112 | Refused when stopped or full, queued at the end otherwise |
| ThreadPool.PoolSafety | sources/threading/thread_pool.cpp:34-129 | In every interleaving: taken plus queued is accepted, within the bound; no task runs twice; when the workers have been joined every accepted task has run; sleepers are covered by wake-ups on their way |
| ThreadPool.TryAddAnswered | sources/threading/thread_pool.cpp:99-112 | In every interleaving a call that does not wait is accepted iff there is no stop and fewer accepted tasks wait than the capacity; then exactly its task is added |
| ThreadPool.AddAnswered | sources/threading/thread_pool.cpp:76-96 | A call that may wait throws iff the pool is stopped, waits iff it is full and not stopped, and is accepted otherwise |
| ThreadPool.WorkerServed | sources/threading/thread_pool.cpp:47-59 | A ready worker takes the oldest accepted task that waits, leaves iff there is none after a stop, and sleeps otherwise |
| ThreadPool.StoppedIffKilled | sources/threading/thread_pool.cpp:115-129 | The pool is stopped iff somebody has called kill |
| ThreadPool.WorkersCoveredKept | sources/threading/thread_pool.cpp:47-129 | No step leaves a task to a sleeping worker without a ready worker or a notification owed, nor a sleeper behind a stop |
| ThreadPool.ClientsCoveredKept | sources/threading/thread_pool.cpp:76-129 | No step leaves a caller blocked beside a free place without another on its way |
| ThreadPool.StopIsFinal | sources/threading/thread_pool.cpp:88-129 | After a stop nothing more is accepted |
| ThreadPool.RunIsShort | sources/threading/thread_pool.cpp:34-129 | The pool's own steps use up a rank known beforehand |
| ThreadPool.ComesToRest | sources/threading/thread_pool.cpp:34-129 | Once no more calls arrive the pool comes to rest within that rank, with every accepted task run and no caller left blocked or joining |
| ThreadPool.NeverStuck | sources/threading/thread_pool.cpp:34-129 | When no thread of the pool can move, every accepted task has run, no caller is blocked or joining, and after a stop all workers have exited |
| Send.SendResponse | sources/sockets.cpp:219-271 | The bytes put on the wire are those the outcome list delivers of head followed by body; none is sent twice or skipped at the seam |
| Send.Advance | sources/sockets.cpp:247-253 | Moving past the sent bytes leaves exactly the rest of both buffers |
| Send.Gather | sources/sockets.cpp:230-238 | The gather list is what is left of both buffers, empty ones skipped |
| Send.DeliveredExactly | sources/sockets.cpp:229-270 | However the socket splits the transfer, what arrives is one prefix, as long as the socket has room for |

## Left out

- Early verdicts on a head that is still arriving (include/vermell/http/message.hpp:272-287) and the size limit in the receive loop: modelled, but not claimed to agree with the verdict on the whole request, because they depend on how much arrived at once.
- Message.ParseExact: for buffers shorter than 2^64 - 1 bytes, because the saturated length of the code equals npos.
- Message.ParseIgnoresRest: the same bound.
- RequestText.RequestReads: the same bound, and field lines without a CR of their own.
- Framing.FramedByNothing: buffers of at most 2^64 - 1 bytes, which is all a `size_t` can count.
- MultipartText.PartExact: header lines without a CR of their own.
- ResponseText.HeadReadBack: header names that are tokens, because the source lets any name without control bytes through and no reader takes back a name with a colon or a blank.
- Multipart.MultipartRoundTrip: names and file names without quotes, semicolons and line breaks, and media types without line breaks and outer blanks, because the source has no escape for them.
- Connection.SegmentationIndependent: open sessions; when a session is refused depends on how its bytes arrived.
- PoolHistory.TasksStandAlone: for a size limit below 2^64, which a `size_t` cannot exceed.
- JSON doubles: printing and reading them is library behaviour; the parser keeps their text and asks `finite`.
- `Message::parse_content_type`, `percent_decode`, field getters: easy string work.
- The reason table of `Response` (include/vermell/http/response.hpp:103-147): the phrase is a parameter without control bytes.
- `ExecuteRoute`, routes, guards, middleware and static files: one opaque answer per request. In pool mode it keeps a connection only if the request asks for it (`KeepAlive.AsksToStay`); without a pool the theorems hold for every answer.
- Clocks: a deadline flag per call and a set of expired descriptors per sweep; `start` and `last_activity` are not kept.
- `send_best_effort` and the error bodies: one unchecked send before a close. Only the status of a refusal is kept.
- Several loops in parallel: each has its own state, and the model is of one.
- `ApplyConfig`: the limits are fixed during a run.
- Weaker memory orders than sequential consistency, overflow of the 64-bit notification count and a failing eventfd write.
- Futures and exceptions of pool tasks, and tasks that call the pool that runs them.
- Construction and registration of epoll sets, the listener and the accept error messages.
