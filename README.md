# A verified model of a tiny HTTP/1.1 static-file server

This project models, in Dafny, the core of a small HTTP/1.1 server written in
Rust. The server has two source files, and the model has one module for each:

- `src/http.rs` is the codec (module `Http`). It parses a request into its
  method, target, host and byte range. It parses the value of the `Range`
  header. It builds status lines and typed content with a media type taken
  from the file extension. It writes a response as a head and an optional body.
- `src/main.rs` holds the request handling the running server actually uses
  (module `Server`). It deletes `..` from the received text until none is
  left. It serves the file named by the second word of a `GET` request, and
  answers everything else with `400 BAD REQUEST`. Its two `format!` strings
  build the `200 OK` and `404 NOT FOUND` answers. This file does not call the
  codec, so the two are modelled and proved independently.

Supporting modules state the Rust library behaviour the code relies on:

- `Strs`: `find`, `contains`, `split_once`, `lines`, ASCII `to_lowercase`,
  `split_whitespace` and `replace(pat, "")`, over sequences.
- `Numbers`: `usize` display and parsing, with a 64-bit `usize`.
- `Utf8`: the UTF-8 bytes of a string, whose count is what `len()` reports.
- `Framing`: a client-side reader that splits a message at its first empty
  line. Every response of the codec and all three answers of `src/main.rs`
  are proved against it: the head read back is exactly the head lines, and
  the body read back is exactly the body that was sent.

The code is imperative in three places, and the model keeps that form there:

- The header loop of `Request::parse` is the method `Http.ScanHeaders`.
- A `Response` is a class with `status` and `content` fields.
- The `..` loop of `handle_connection` is the method `Server.StripTraversal`.

Each of these is proved against a specification function, and the properties
are proved as lemmas about those functions.

The code has no percent-decoding of the target (only a `todo` comment). It
has no `x-real-ip` or `user-agent` fields and no `Content-Range` header. It
does not confine paths to a root directory. It lower-cases whole header lines,
values included. It guards against traversal only by deleting `..` from the
text.

## Model

| member | source | states |
|---|---|---|
| Http.ParseMethod | src/http.rs:185-193 | a method is recognised exactly for the tokens `GET` and `HEAD`, case-sensitively |
| Http.MethodRoundTrip | src/http.rs:185-193 | parsing a method's name gives the method back, no other token gives that method, and no name contains a space |
| Http.ParseRange | src/http.rs:195-206 | a range is only returned for text starting with `bytes=` whose rest contains a dash, and all of its numbers fit in a `usize` |
| Http.RangeGrammar | src/http.rs:197-204 | split at the first dash: both sides empty gives none; an empty start gives `Suffix`, an empty end gives `From`, both present give `Full`; a present side that is not a `usize` gives none |
| Http.RangeNeedsDash | src/http.rs:197-200 | a value without a dash, and `bytes=-`, give no range |
| Http.RangeRoundTrip | src/http.rs:195-206 | every range printed as `bytes=a-`, `bytes=a-b` or `bytes=-n` parses back to itself when its numbers fit in a `usize`, and to none otherwise |
| Http.Status.Code | src/http.rs:27-34 | every code has three digits and fits in a `u16`, and it is 2xx exactly for `Ok` and `PartialContent` |
| Http.CodeInjective | src/http.rs:29-34 | different statuses have different codes |
| Http.StatusLines | src/http.rs:166-182 | the four status lines are exactly `HTTP/1.1 200 OK`, `HTTP/1.1 206 `, `HTTP/1.1 400 ` and `HTTP/1.1 404 NOT FOUND` |
| Http.StatusLine | src/http.rs:167-169 | every status line is the version, a space, three digits that read back as the code, a space and the reason phrase, on one line (section 4 of RFC 9112) |
| Http.MimeType | src/http.rs:120-150 | every type in the extension table is a one-line `type/subtype` |
| Http.File | src/http.rs:119-163 | the bytes are kept unchanged; a mapped extension gives its table type; an unmapped one gives `text/plain` exactly when every byte is below 0x80, else `application/octet-stream` |
| Http.Html | src/http.rs:111-113 | the content is the UTF-8 text typed `text/html` |
| Http.Text | src/http.rs:115-117 | the content is the UTF-8 text typed `text/plain` |
| Http.Response.New | src/http.rs:79-84 | a new response has the given status and no content |
| Http.Response.WithContent | src/http.rs:104-107 | the content is set and the status is unchanged |
| Http.Response.Format | src/http.rs:86-102 | the bytes written are the head lines, an empty line, and the body unless only the head is asked for |
| Framing.HeadLayout | src/http.rs:88-93 | the one-string `format!` head is the status line, the `Content-Type` line and the `Content-Length` line joined by CR LF, then an empty line |
| Http.SerializeBare | src/http.rs:99-101 | a response without content is exactly its status line and an empty line, head-only or not |
| Http.HeadOnlyPrefix | src/http.rs:95-97 | the full response is the head-only response followed by the body bytes |
| Http.ResponseFraming | src/http.rs:86-98 | a client splitting the response at its first empty line gets exactly the head lines and the body sent (none for a HEAD answer), and `Content-Length` is the decimal byte length of the full body |
| Http.RequestLineIff | src/http.rs:44-49 | the request line is accepted with method `m` and target `p` exactly when it starts with the method's name, a space, `p` without spaces, a space and `HTTP/1` |
| Http.RequestLineOf | src/http.rs:46-49 | a well-formed request line gives back its method and its target verbatim |
| Http.BlockLength | src/http.rs:53-56 | the header block ends at the first empty line, or with the text |
| Http.ScanFinds | src/http.rs:53-64 | the header loop succeeds exactly when every line of the block has `": "`; it then holds the value of the last `host` line and the range of the last `range` line, so an unparseable later range resets it to none |
| Http.ScanHeaders | src/http.rs:51-64 | the loop stops at the first empty line, fails on a line without `": "`, and keeps the last `host` and the range of the last `range` |
| Http.ParseRequest | src/http.rs:43-75 | the parse is the request line, then the header loop, then the `host` check, as `RequestOf` states |
| Http.RequestRoundTrip | src/http.rs:43-75 | a request line and header lines each ended by CR LF, an empty line and anything after it parse to the method, the verbatim target, the last host and the last range; the parse fails when a line is no field or there is no `host`; nothing after the empty line matters |
| Http.HeaderFieldOf | src/http.rs:57-58 | a line `key: value` splits into the lower-cased key and the lower-cased value, so keys match whatever their case |
| Http.HostLowerCase | src/http.rs:57-60 | the host of a parsed request contains no upper-case ASCII letter |
| Numbers.ParseUsize | src/http.rs:201-203 | a parsed number fits in a `usize` and is read from digits with an optional leading `+` |
| Numbers.ParseDigits | src/http.rs:201-203 | every non-empty digit string, leading zeros included and with or without a `+`, parses to the number it denotes exactly when that fits in a `usize` |
| Numbers.LeadingZeros | src/http.rs:201-203 | a leading zero changes nothing: `bytes=007-` asks for the same range as `bytes=7-` |
| Numbers.ParseDecimal | src/http.rs:201-203 | a printed number parses back to itself, also behind a `+`, exactly when it fits in a `usize` |
| Numbers.Decimal | src/http.rs:92 | the decimal text of a number is non-empty digits that read back as the number, with no leading zero |
| Strs.SplitOnce | src/http.rs:46-48 | the text splits exactly when it contains the separator; then the two parts joined by the separator give the text back, and the separator occurs nowhere before the split, so `x:y: z` splits at `: ` into `x:y` and `z` |
| Strs.SplitOnceJoin | src/http.rs:46-48 | a separator whose first element is not in the left part splits a joined text back into its parts |
| Utf8.EncodeLength | src/main.rs:81 | `len()` counts bytes: at least one per character, and exactly one per character when the text is ASCII |
| Strs.LinesOfJoin | src/http.rs:44 | `lines()` gives back the lines laid out with CR LF endings, each without its ending |
| Strs.Tokens | src/main.rs:56 | every word `split_whitespace` yields is non-empty and holds no whitespace |
| Strs.TokensOfSpaced | src/main.rs:56 | `split_whitespace` gives back words separated by single spaces |
| Strs.RemoveAll | src/main.rs:52 | deleting a pattern never lengthens the text, and shortens it by at least the pattern's length when the pattern occurs |
| Strs.RemoveAllSubseq | src/main.rs:52 | deleting a pattern only deletes: the result is a subsequence of the text |
| Server.StripTraversal | src/main.rs:50-53 | the loop ends; what it leaves contains no `..`, is a subsequence of the received text and is no longer |
| Server.OnePassClean | src/main.rs:52 | after one `replace("..", "")` no `..` is left |
| Server.OnePass | src/main.rs:51-53 | the loop runs its body at most once: its result is one `replace("..", "")` |
| Server.KeepsPrefix | src/main.rs:52 | a prefix without `.` survives the deletion |
| Server.Target | src/main.rs:55-57 | a file is only asked for by text starting with `GET`, and its path starts with `./` |
| Server.TargetOfLine | src/main.rs:55-57 | `GET <word> ...` asks for `./<word>` |
| Server.TargetIsSafe | src/main.rs:50-57 | after the guard, the path served contains no `..` and no whitespace |
| Server.TypeOf | src/main.rs:76-80 | the type is `text/html` exactly when the path ends with `.html`, else `text/plain` |
| Server.HandleConnection | src/main.rs:50-62 | the bytes written are the answer for the guarded text: a file answer for a GET with a target, else the exact `400 BAD REQUEST` text |
| Server.AnswerStatus | src/main.rs:55-89 | the answer starts with status 400 exactly when there is no GET target, else 200 exactly when the file can be read, else 404 |
| Server.HeadRefused | src/main.rs:55-62 | a HEAD request is answered `400 BAD REQUEST` |
| Server.BadRequestFraming | src/main.rs:62 | the refusal is read back as the status line `HTTP/1.1 400 BAD REQUEST` and no body |
| Server.FileFraming | src/main.rs:74-89 | a client reads both `send_file` answers back as three head lines and exactly the body, whose UTF-8 length is the `Content-Length` |
| Server.FoundFraming | src/main.rs:72-83 | a readable file is sent as its text and two line feeds, typed by the path with `; charset=UTF-8`, with the byte length of that body |
| Server.MissingFraming | src/main.rs:87-89 | a file that cannot be read is answered 404 with the path as a plain-text body and the path's byte length as `Content-Length` |

## Left out

- Sockets: binding, the accept loop, `read`, `write_all`, `flush` and `peer_addr`. `Server.HandleConnection` takes the received text and returns the bytes it writes.
- The 2048-byte read buffer and `String::from_utf8_lossy`: the received text is given as a string.
- `fs::read_to_string`: it is a function parameter from a path to the file's text, none when the file cannot be read as text.
- Logging with `println!`/`eprintln!` and `escape_debug`.
- `to_lowercase` beyond ASCII: only `A`-`Z` are mapped.
- `usize` is taken to be 64 bits wide.
- `Status::code` returns a `u16`; the model uses a natural number, and every code fits in 16 bits.
- The `method` field of `Request` is called `verb`, because `method` is a keyword in Dafny.
- `Response::format` and `Response::with_content` take the response by value. The model updates the fields of one `Response` object instead, so it does not capture that the old value is consumed.
- Http.ResponseFraming: requires the content type to be a one-line media type. `Http.File`, `Http.Html` and `Http.Text` always give one, and these are the only ways the source builds content.
- Numbers.ParseUsize: its own contract states only necessary conditions; the value every digit string parses to is `Numbers.ParseDigits`.
- Http.ParseRange: its own contract states only necessary conditions; the exact case table is `Http.RangeGrammar`, and the round trip is `Http.RangeRoundTrip`.
- Anything beyond the two files: percent-decoding, range slicing, `Content-Range`, root confinement, directory listings and a worker pool.
