# A verified model of a small HTTP/1.1 request decoder and response writer

This project models, in Dafny, the HTTP layer of a small Rust WebSocket
server. The layer has two parts:

- **The library (`src/lib.rs`).**
  - `HttpRequest::new` reads a request from a TCP stream: the request
    line, then header lines up to the first line without `": "`, then
    `content-length` octets of body.
  - `HttpMethod::from` and the Display impls of `HttpMethod`, `HttpError`
    and `HttpStatus`.
  - The `HttpResponse` builder: `new`, `add_header`, `add_body`, and
    Display, which writes the status line, one `name: value` line per map
    entry, a blank line and the body.
- **The server binary (`src/main.rs`).** Its private `HttpRequest::new`
  does the same reading. It keeps the method as the raw first token and
  lower-cases header values as well as names.

Modules follow that structure:

| module | file | what it holds |
|---|---|---|
| `Wrappers` | wrappers.dfy | `Option` and `Result` |
| `Text` | text.dfy | the string operations the source calls: `to_lowercase`, `trim_end`, `split(' ')`, `contains(": ")`, `split(": ")`, `usize::to_string` and `parse::<usize>` |
| `Utf8` | utf8.dfy | well-formed UTF-8, the check behind `read_line` and `String::from_utf8` |
| `HttpTypes` | http_types.dfy | `HttpMethod`, `HttpError` and `HttpStatus` with their parsers and renderings |
| `Wire` | wire.dfy | what both decoders share: `read_line`, the header loop, the map insertion, the body read, and the request-line layout |
| `HeaderMap` | header_map.dfy | a header map written as a header section, and how the header loop reads it back |
| `Request` | request.dfy | the library's `HttpRequest::new` |
| `Response` | response.dfy | the `HttpResponse` class |
| `ServerRequest` | server_request.dfy | the server binary's `HttpRequest::new` |

**The stream.** It is a `string` whose characters each stand for one
octet. A cursor into it plays the part of the `BufReader`:

- `read_line` is `Wire.LineEnd`: the line runs up to and including the
  first `'\n'`, or to the end of the stream.
- `read_exact` is a slice that fails when too few octets remain.

**Failures.** Every `unwrap` and `panic!` of the decoders becomes a
`Wire.DecodeFailure`:

- `Rejected(InvalidMethod | InvalidTarget | InvalidVersion)`: an unknown
  method, or a missing request-line token;
- `InvalidUtf8`: a line or the body is not well-formed UTF-8;
- `InvalidLength`: `content-length` is not a `usize` numeral;
- `UnexpectedEof`: the stream ends before the body does.

**The header loop.** `Wire.ScanHeaders` is generic in the per-line
decision, a function `string -> LineKind`:

- the library passes `Wire.Classify`;
- the server binary passes `ServerRequest.ClassifyLowered`, which also
  lower-cases the value.

Both imperative decoders share the loop method `Wire.HeaderLoop` and the
body read `Wire.TakeBody`. Each is proved equal to its specification
function.

**Behaviours of the code worth knowing:**

- The request line is not required to have exactly three tokens. Tokens
  after the third are ignored (`Wire.ExtraTokens`).
- A header value is the text between the first and the *second* `": "`.
  Anything after a second `": "` is dropped
  (`Wire.ValueEndsAtSecondSeparator`). This is not a split on the first
  occurrence.
- Any non-empty line without `": "` ends the headers and is consumed. That
  includes a blank line and a malformed header line alike.
- A request line with a single token fails in one of two ways. If a line
  break follows the token, the token still carries that break, no method
  name matches it, and the decode fails as `InvalidMethod`. If the token
  ends the stream and names a method, the missing target fails the decode
  as `InvalidTarget` (`Request.LoneTokenAtEnd`,
  `Request.LoneTokenBeforeBreak`).
- The `line.is_empty()` test in the loop can never succeed, since
  `read_line` has just returned a non-zero count. The model has no such
  branch.

## Model

| member | source | states |
|---|---|---|
| HttpTypes.MethodName | src/lib.rs:93-106 | Display writes a method name of at least three characters |
| HttpTypes.MethodFromToken | src/lib.rs:77-91 | `from` returns a method only for a token that spells that method's name in some letter case; the panic arm is None |
| HttpTypes.LowerMethodName | src/lib.rs:79-87 | the lower-cased rendering of each method is exactly the string its match arm in `from` compares against |
| HttpTypes.MethodNameLetters | src/lib.rs:93-106 | every method rendering consists of upper-case ASCII letters only |
| HttpTypes.MethodRoundTrip | src/lib.rs:77-106 | parsing the rendering of any method gives that method back |
| HttpTypes.MethodCaseInsensitive | src/lib.rs:78-90 | a token parses to m if and only if it spells m's name in some letter case |
| HttpTypes.MethodRejected | src/lib.rs:79-88 | a token is rejected (the panic arm) if and only if it spells none of the eight names in any letter case |
| HttpTypes.ErrorMessage | src/lib.rs:119-129 | every error message starts with "Invalid HTTP " and names what is invalid after it |
| HttpTypes.ErrorMessageInjective | src/lib.rs:119-129 | distinct error kinds have distinct messages |
| HttpTypes.StatusText | src/lib.rs:175-184 | every status text starts with three digits and a space |
| HttpTypes.StatusTextCode | src/lib.rs:175-184 | the three digits are the decimal status code of the variant (101, 200, 400, 404) |
| HttpTypes.StatusTextInjective | src/lib.rs:175-184 | distinct statuses render distinct texts |
| Text.Lower | src/lib.rs:36 | `to_lowercase` keeps the length, maps each character by itself, and leaves no capital letter |
| Text.TrimEnd | src/lib.rs:25 | `trim_end` returns the longest prefix that does not end in whitespace; everything cut off is whitespace |
| Text.TrimEndSuffix | src/lib.rs:35 | trimming a value followed by whitespace only, such as a line break, gives the value back |
| Text.Split | src/lib.rs:22 | `split(' ')` yields at least one piece, no piece contains the separator, and joining the pieces with the separator rebuilds the input |
| Text.SplitJoin | src/lib.rs:22 | splitting a join of separator-free pieces gives the pieces back |
| Text.FindSep | src/lib.rs:30 | the position of the first `": "`, or None exactly when the line does not contain `": "` |
| Text.FirstField | src/lib.rs:33-35 | the first piece of `split(": ")`: a prefix without `": "` that stops at the first `": "` or at the end |
| Text.Decimal | src/lib.rs:153 | `to_string` of a length: a non-empty digit string without leading zeros |
| Text.DecimalValue | src/lib.rs:153 | the digits of `Decimal(n)` denote n |
| Text.ParseUsize | src/lib.rs:44 | `parse::<usize>` succeeds exactly on an optional '+' and a non-empty run of digits whose value fits in 64 bits, leading zeros allowed, and returns that value |
| Text.ParseDecimal | src/lib.rs:44 | parsing the decimal rendering of any n up to the usize maximum gives n back |
| Text.ParseUsizeIgnoresCase | src/main.rs:62 | lower-casing a content-length value never changes what it parses to |
| Wire.LineEnd | src/lib.rs:21 | `read_line` ends after the first line break or at the end of the stream, is empty only at the end, and holds no other line break |
| Wire.ParseHeaderLine | src/lib.rs:30-35 | a line yields an entry if and only if it contains `": "`; the name is lower-case and free of `": "`; the value is trimmed and free of `": "` |
| Wire.HeaderLineMeaning | src/lib.rs:30-36 | a line `name: rest` with no `": "` in the name yields the lower-cased name and the first field of rest, trimmed, whether the line ends in CRLF, in a bare LF or at the end of the stream |
| Wire.ValueEndsAtSecondSeparator | src/lib.rs:33-36 | in `name: value: tail` the entry is the lower-cased name and the trimmed value; the tail after the second `": "` is dropped |
| Wire.HeaderLineRoundTrip | src/lib.rs:33-36 | a line written as `name: value\r\n` from clean fields is one complete line that parses back to the lower-cased name and the value |
| Wire.HeaderLineClassified | src/lib.rs:29-36 | such a line, written from well-formed UTF-8, is read by the loop as that entry |
| Wire.BlankLineEnds | src/lib.rs:30-31 | the blank line `\r\n` ends the headers |
| Wire.Classify | src/lib.rs:29-36 | a line that is not well-formed UTF-8 is malformed (`read_line` fails); a well-formed line without `": "` ends the headers; any other line is an entry with a lower-case name and a trimmed value |
| Wire.ScanHeaders | src/lib.rs:29-38 | the header loop stops inside the stream, keeps the entries collected so far as the prefix of its result, and can fail only on malformed UTF-8 |
| Wire.ScanRun | src/lib.rs:29-38 | a run of header lines is consumed one by one, collecting their entries in order |
| Wire.RunOfLines | src/lib.rs:29-38 | header lines standing one after another form a run of exactly their entries |
| Wire.HeaderSection | src/lib.rs:29-38 | header lines and then a terminating line (or the end of the stream) are read as exactly their entries; the loop stops right after the terminating line |
| Wire.WrittenSection | src/lib.rs:29-38 | the same, for a section written after any prefix and followed by anything |
| Wire.HeaderLoop | src/lib.rs:28-38 | the imperative loop returns the header loop's outcome, and its map is the insertion of the entries read |
| Wire.InsertAll | src/lib.rs:36 | inserting entries into a map gives the old keys plus the entries' names, and keeps the old value of every name no entry carries |
| Wire.InsertAllSnoc | src/lib.rs:36 | one more entry read is one more map update |
| Wire.LastWins | src/lib.rs:36 | the value stored for a name is the value of the last entry with that name |
| Wire.NamesIndex | src/lib.rs:36 | a name is a key of the result exactly when some entry carries it |
| Wire.CaseInsensitiveNames | src/lib.rs:36 | two header lines whose names differ only in case leave one lower-cased key holding the later value; every other key is unchanged |
| Wire.SameNameTwice | src/lib.rs:36 | two entries for one name leave the later value and nothing else changed |
| Wire.ClassifyNamesLower | src/lib.rs:36 | the library's line decision stores lower-case names only |
| Wire.ScanNamesLower | src/lib.rs:29-38 | a loop whose decision lower-cases names collects lower-case names only |
| Wire.MessageNamesLower | src/lib.rs:28-48 | every key of the map built that way is lower-case |
| Wire.ReadBody | src/lib.rs:40-48 | without content-length the body is empty and nothing is consumed; otherwise a non-numeral fails, a short stream fails, a body that is not UTF-8 fails, and a success reads exactly N octets and advances the cursor by N |
| Wire.TakeBody | src/lib.rs:40-48 | the imperative body read returns what ReadBody specifies |
| Wire.BodyAtEnd | src/lib.rs:41-47 | a well-formed body of exactly content-length octets at the end of the stream is read whole and the cursor ends at the end |
| Wire.ReadMessage | src/lib.rs:28-48 | after the request line, a success consumes only octets of the stream, and failures are never request-line rejections |
| Wire.TakeMessage | src/lib.rs:28-48 | the imperative header loop and body read return what ReadMessage specifies |
| Wire.WrittenMessage | src/lib.rs:28-48 | after a written header section the body is read right after the blank line, with the map of the section's entries |
| Wire.RequestLineTokens | src/lib.rs:21-25 | `VERB TARGET VERSION\r\n` is read as the first line, splits into the three tokens (the last with its line break), and trimming gives the version back |
| Wire.ExtraTokens | src/lib.rs:22-25 | whatever follows a third space, the first three pieces are the method, the target and the version |
| HeaderMap.LinesCoverMap | src/lib.rs:160-162 | one header line is written per map entry, and every entry's `name: value` line is among them |
| HeaderMap.LinesReadBack | src/lib.rs:160-162 | each written line of a readable map is read by the header loop as the entry it was written from |
| HeaderMap.EntriesRebuild | src/lib.rs:160-162 | inserting the map's entries in any iteration order rebuilds the map |
| HeaderMap.MessageReadBack | src/lib.rs:157-164 | for any line decision that reads written lines back, a written header section and a body that goes with the map (content-length states the body's length, or there is neither) are read back as the same map and body, and the whole text is consumed |
| HeaderMap.SectionReadBack | src/lib.rs:157-164 | the same for the library's own line decision |
| Request.Parse | src/lib.rs:18-58 | a decode that succeeds has a well-formed request line, consumes at least that line and no more than the stream, and has a version without trailing whitespace |
| Request.Decode | src/lib.rs:18-58 | the imperative decoder returns exactly Parse of the stream |
| Request.RequestLineRejections | src/lib.rs:21-25 | a decode is rejected as InvalidMethod, InvalidTarget or InvalidVersion exactly when the method token is unknown, the line has one token, or it has two tokens with a known method; no other rejection exists |
| Request.EmptyStreamRejected | src/lib.rs:21-23 | an empty stream is rejected as InvalidMethod |
| Request.NamesLowered | src/lib.rs:36 | every header name of a decoded request is lower-case |
| Request.LoneTokenAtEnd | src/lib.rs:21-24 | a stream that is only a method's name fails as InvalidTarget: the name is a known method and the target is missing |
| Request.LoneTokenBeforeBreak | src/lib.rs:21-23 | a stream that is only a method's name and CRLF fails as InvalidMethod, since the line break stays in the token |
| Request.TokenWithBreak | src/lib.rs:79-88 | a token that ends in a line break names no method, since every method name ends in a letter |
| Request.DecodeLayout | src/lib.rs:18-58 | for a well-formed request line followed by lines the loop reads as hs: the request holds the method, the target, the trimmed version, the map of hs, and the body read after the headers |
| Request.UnknownVerbRejected | src/lib.rs:21-23 | a written request line whose first token names no method is rejected as InvalidMethod, whatever follows it |
| Request.RequestLineRead | src/lib.rs:21-25 | a request line written from a method, a target and a version is the first line, is well-formed, names that method, and splits into those tokens |
| Request.RequestReadBack | src/lib.rs:18-58 | a request line, a readable header map written as a header section and a body that goes with the map (content-length states its length, or there is neither) decode to exactly that method, target, version, map and body, consuming the whole text |
| Response.StatusLine | src/lib.rs:159 | the status line is one complete line that starts with "HTTP/1.1 " and then the three digits of the status code |
| Response.Rendering | src/lib.rs:157-164 | the text Display writes for a given iteration order starts with the status line and ends with the blank line's line break and the body |
| Response.HttpResponse.constructor | src/lib.rs:139-145 | a new response has the given status, no headers and an empty body, so its body goes with its map |
| Response.HttpResponse.AddHeader | src/lib.rs:147-149 | the lower-cased key now maps to the value, overwriting any earlier value; other keys, the status and the body are unchanged; lower-case keys stay lower-case; content-length agreement survives unless the key is content-length |
| Response.HttpResponse.AddBody | src/lib.rs:151-154 | the body is replaced and content-length holds the decimal length of the new body; no other header, and not the status, changes; the body then goes with the map (a Rust string's length always fits in a usize) |
| Response.HttpResponse.Render | src/lib.rs:158-164 | Display visits every key exactly once, in some order, and writes the status line, one line per entry in that order, a blank line and the body |
| Response.ResponseReadBack | src/lib.rs:157-164 | what Display writes, for a map of readable fields (lower-case names, no `": "`, line break or trailing whitespace, well-formed UTF-8) and a body that goes with the map (content-length states its length, or there is neither), is read back by the library's own header loop and body read as the same map and body, up to the end of the text |
| ServerRequest.ClassifyLowered | src/main.rs:47-54 | the server's line decision is an entry exactly when the library's is, with a lower-case name and a lower-case value; otherwise it is the library's decision |
| ServerRequest.Parse | src/main.rs:36-75 | a decode that succeeds has a well-formed request line, consumes at least that line and no more than the stream, and has a version without trailing whitespace |
| ServerRequest.ServerLayout | src/main.rs:38-66 | for any first token, known method or not, a decode succeeds exactly when the first line is well-formed with at least three pieces and the library's header loop and body read succeed after it; the request then holds piece 0 verbatim as the method, piece 1 as the target, piece 2 trimmed as the version, the library's map with lower-cased values, its body and its cursor |
| ServerRequest.AfterRequestLine | src/main.rs:38-66 | once the request line has three pieces and the header loop and body read succeed after it, the request holds the three pieces (the third trimmed), the map with lower-cased values and the body |
| ServerRequest.WrittenLineRead | src/main.rs:38-43 | a request line written from any three tokens is the first line read, is well-formed and splits into those tokens, the version trimming back to itself |
| ServerRequest.ServerReadBack | src/main.rs:36-75 | for any verb token, known or not, a request line, a readable header map written as a header section and a body that goes with the map decode to that verb, target, version and body, with the map's values lower-cased, consuming the whole text |
| ServerRequest.UnknownVerbKept | src/main.rs:41 | for a verb that names no method, the library rejects the written request as InvalidMethod while the server decodes it with that verb as its method |
| ServerRequest.Decode | src/main.rs:36-75 | the imperative decoder returns exactly Parse of the stream |
| ServerRequest.ScanLowered | src/main.rs:47-56 | lower-casing values leaves the loop's stopping point and failures as they are, and lower-cases exactly the values collected |
| ServerRequest.InsertAllLowered | src/main.rs:54 | inserting lower-cased entries gives the map with lower-cased values |
| ServerRequest.BodyLowered | src/main.rs:58-66 | the body read is the same whether or not values were lower-cased |
| ServerRequest.SameLength | src/main.rs:58-66 | two maps with the same content-length presence and the same parsed size give the same body read |
| ServerRequest.MessageLowered | src/main.rs:47-66 | after the request line, the server reads the same body and stops at the same cursor as the library, with lower-cased values |
| ServerRequest.LibraryAgreement | src/main.rs:36-75 | when the library decodes a stream, the server decodes it to the raw first token, the same target, version, body and cursor, and the map with lower-cased values; when the library fails for any reason except the method, the server fails the same way |
| ServerRequest.MethodVerbatim | src/main.rs:41 | the method is never rejected and is the raw first token of the request line |
| ServerRequest.HeadersLowered | src/main.rs:54 | every header name and every header value of a decoded request is lower-case |

## Left out

- Sockets (`TcpStream`, `TcpListener`) are not modelled: the stream is an in-memory octet string with a cursor. `HttpRequest::respond`, `main`, `handle_connection` and the `stream` field of the request are left out for the same reason.
- BufReader read-ahead is not modelled: how many octets the buffered reader pulls from the socket beyond what the decoder consumes is a property of the transport. The model states only the octets the decoder consumes.
- `println!` debug output is left out.
- Text.Lower: handles ASCII capitals only. Rust's `to_lowercase` also lower-cases non-ASCII letters, and that is not modelled. Method names, `content-length` and numerals are ASCII, so the model is exact for them.
- Text.TrimEnd: trims ASCII whitespace only (space, tab, line feed, vertical tab, form feed, carriage return). Unicode whitespace that `trim_end` also removes is not modelled.
- `usize` is taken as 64 bits wide (`Text.UsizeMax`). On a 32-bit target the source rejects a content-length above 2^32 - 1 as InvalidLength, which the model does not capture.
- The allocation `vec![0; size]` is not modelled: a content-length too large to allocate aborts the process, and the model instead reports the stream as too short.
- Panics are modelled as `Wire.DecodeFailure` values. The model does not capture that the process aborts.
- HashMap iteration order is unspecified: `Response.HttpResponse.Render` picks the next key by choice and returns the order it took as a ghost value. Every statement about the output holds for every order.
- The WebSocket handshake validation and the `Sec-WebSocket-Accept` computation are not modelled: they are not part of these source files.
