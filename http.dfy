/** The HTTP/1.1 codec of `src/http.rs`: request methods, the `Range` header,
    status lines, typed content, responses and request parsing. */
module Http {
  import opened Wrappers
  import opened Strs
  import opened Numbers
  import opened Utf8
  import opened Framing

  // ---------------------------------------------------------------- Method

  datatype Method = Get | Head

  /** The token that names a method on a request line. */
  function MethodName(m: Method): string
  {
    match m
    case Get => "GET"
    case Head => "HEAD"
  }

  /** `Method::parse`: only the exact, upper-case tokens are methods. */
  function ParseMethod(s: string): (m: Option<Method>)
    ensures m.Some? <==> s == "GET" || s == "HEAD"
  {
    if s == "GET" then Some(Get)
    else if s == "HEAD" then Some(Head)
    else None
  }

  /** `ParseMethod` and `MethodName` are inverse to each other. */
  lemma MethodRoundTrip(m: Method, s: string)
    ensures ParseMethod(MethodName(m)) == Some(m)
    ensures ParseMethod(s) == Some(m) <==> s == MethodName(m)
    ensures ' ' !in MethodName(m)
  {
  }

  // ---------------------------------------------------------- ContentRange

  /** A byte range as in section 2.1 of RFC 7233: `first-`, `first-last` or
      `-suffix`. */
  datatype ContentRange = From(start: nat) | Full(start: nat, end: nat) | Suffix(length: nat)

  /** All numbers of a range fit in a `usize`. */
  predicate InUsize(r: ContentRange)
  {
    match r
    case From(a) => a <= USIZE_MAX
    case Full(a, b) => a <= USIZE_MAX && b <= USIZE_MAX
    case Suffix(n) => n <= USIZE_MAX
  }

  /** `ContentRange::parse` on the value of a `Range` header. */
  function ParseRange(s: string): (r: Option<ContentRange>)
    ensures r.Some? ==> StartsWith(s, "bytes=") && Contains(s[6..], "-")
    ensures r.Some? ==> InUsize(r.value)
  {
    if !StartsWith(s, "bytes=") then None
    else
      match SplitOnce(s[6..], "-")
      case None => None
      case Some((first, last)) =>
        if first == [] && last == [] then None
        else if first == [] then
          (match ParseUsize(last)
           case None => None
           case Some(n) => Some(Suffix(n)))
        else if last == [] then
          (match ParseUsize(first)
           case None => None
           case Some(a) => Some(From(a)))
        else
          match (ParseUsize(first), ParseUsize(last))
          case (Some(a), Some(b)) => Some(Full(a, b))
          case _ => None
  }

  /** The canonical header value of a range. */
  function RangeText(r: ContentRange): string
  {
    match r
    case From(a) => "bytes=" + Decimal(a) + "-"
    case Full(a, b) => "bytes=" + Decimal(a) + "-" + Decimal(b)
    case Suffix(n) => "bytes=-" + Decimal(n)
  }

  lemma DecimalNoDash(n: nat)
    ensures '-' !in Decimal(n)
  {
    var d := Decimal(n);
    assert forall i :: 0 <= i < |d| ==> IsDigit(d[i]);
  }

  /** A range printed and parsed again is the same range, as long as its
      numbers fit in a `usize`; otherwise the parse fails. */
  lemma RangeRoundTrip(r: ContentRange)
    ensures ParseRange(RangeText(r)) == if InUsize(r) then Some(r) else None
  {
    match r
    case From(a) => FromRoundTrip(a);
    case Full(a, b) => FullRoundTrip(a, b);
    case Suffix(n) => SuffixRoundTrip(n);
  }

  lemma FromRoundTrip(a: nat)
    ensures ParseRange(RangeText(From(a))) == if a <= USIZE_MAX then Some(From(a)) else None
  {
    var s := RangeText(From(a));
    DecimalNoDash(a);
    assert s[..6] == "bytes=";
    assert s[6..] == Decimal(a) + "-" + [];
    SplitOnceJoin(Decimal(a), "-", []);
    ParseDecimal(a);
  }

  lemma FullRoundTrip(a: nat, b: nat)
    ensures ParseRange(RangeText(Full(a, b))) ==
      if a <= USIZE_MAX && b <= USIZE_MAX then Some(Full(a, b)) else None
  {
    var s := RangeText(Full(a, b));
    DecimalNoDash(a);
    assert s[..6] == "bytes=";
    assert s[6..] == Decimal(a) + "-" + Decimal(b);
    SplitOnceJoin(Decimal(a), "-", Decimal(b));
    ParseDecimal(a);
    ParseDecimal(b);
  }

  lemma SuffixRoundTrip(n: nat)
    ensures ParseRange(RangeText(Suffix(n))) == if n <= USIZE_MAX then Some(Suffix(n)) else None
  {
    var s := RangeText(Suffix(n));
    assert s[..6] == "bytes=";
    assert s[6..] == [] + "-" + Decimal(n);
    SplitOnceJoin([], "-", Decimal(n));
    ParseDecimal(n);
  }

  /** A range value needs a dash, and something on at least one side of it. */
  lemma RangeNeedsDash(x: string)
    ensures '-' !in x ==> ParseRange("bytes=" + x) == None
    ensures ParseRange("bytes=-") == None
  {
    var s := "bytes=" + x;
    assert s[6..] == x;
    if Contains(x, "-") {
      var i := Find(x, "-").value;
      FindMatches(x, "-");
      assert x[i..i + 1][0] == x[i];
    }
    assert "bytes=-"[..6] == "bytes=";
    assert "bytes=-"[6..] == [] + "-" + [];
    SplitOnceJoin([], "-", []);
  }

  /** The grammar of a range value, split at its first dash: an empty start
      gives a suffix, an empty end an open range, both a full range; both
      empty, or a present side that is not a `usize`, give none. */
  lemma RangeGrammar(x: string, y: string)
    requires '-' !in x
    ensures ParseRange("bytes=" + x + "-" + y) ==
      if x == [] && y == [] then None
      else if x == [] then (if ParseUsize(y).Some? then Some(Suffix(ParseUsize(y).value)) else None)
      else if y == [] then (if ParseUsize(x).Some? then Some(From(ParseUsize(x).value)) else None)
      else if ParseUsize(x).Some? && ParseUsize(y).Some? then Some(Full(ParseUsize(x).value, ParseUsize(y).value))
      else None
  {
    var s := "bytes=" + x + "-" + y;
    assert s[..6] == "bytes=";
    assert s[6..] == x + "-" + y;
    SplitOnceJoin(x, "-", y);
  }

  // ---------------------------------------------------------------- Status

  /** The statuses the server answers with; the discriminant is the code. */
  datatype Status = Ok | PartialContent | BadRequest | NotFound
  {
    /** `Status::code` */
    function Code(): (c: nat)
      ensures 100 <= c <= 999 && c < 0x1_0000
      ensures 200 <= c < 300 <==> this == Ok || this == PartialContent
    {
      match this
      case Ok => 200
      case PartialContent => 206
      case BadRequest => 400
      case NotFound => 404
    }

    /** `Status::name`: the reason phrase, empty for 206 and 400. */
    function Name(): string
    {
      match this
      case Ok => "OK"
      case PartialContent => ""
      case BadRequest => ""
      case NotFound => "NOT FOUND"
    }

    /** `Status::header`: the status line without its line ending. */
    function Header(): string
    {
      "HTTP/1.1 " + Decimal(Code()) + " " + Name()
    }
  }

  /** Different statuses have different codes. */
  lemma CodeInjective(a: Status, b: Status)
    ensures a.Code() == b.Code() <==> a == b
  {
  }

  /** The four status lines exactly. */
  lemma StatusLines(st: Status)
    ensures st.Header() == match st
      case Ok => "HTTP/1.1 200 OK"
      case PartialContent => "HTTP/1.1 206 "
      case BadRequest => "HTTP/1.1 400 "
      case NotFound => "HTTP/1.1 404 NOT FOUND"
  {
    match st
    case Ok => CodeText(Ok, "200", "HTTP/1.1 200 OK");
    case PartialContent => CodeText(PartialContent, "206", "HTTP/1.1 206 ");
    case BadRequest => CodeText(BadRequest, "400", "HTTP/1.1 400 ");
    case NotFound => CodeText(NotFound, "404", "HTTP/1.1 404 NOT FOUND");
  }

  lemma CodeText(st: Status, code: string, line: string)
    requires |code| == 3
    requires code[0] == DigitChar(st.Code() / 100)
    requires code[1] == DigitChar(st.Code() / 10 % 10)
    requires code[2] == DigitChar(st.Code() % 10)
    requires line == "HTTP/1.1 " + code + " " + st.Name()
    ensures st.Header() == line
  {
    Decimal3(st.Code());
  }

  /** A status line follows the `status-line` rule of section 4 of RFC 9112:
      the version, a space, three digits that read back as the code, a space
      and the reason phrase; and it is a single line. */
  lemma StatusLine(st: Status)
    ensures var h := st.Header();
      && |h| >= 13 && h[..9] == "HTTP/1.1 " && h[12] == ' ' && h[13..] == st.Name()
      && AllDigits(h[9..12]) && DigitsValue(h[9..12]) == st.Code()
      && IsHeadLine(h)
  {
    var h := st.Header();
    Decimal3(st.Code());
    assert h[9..12] == Decimal(st.Code());
    assert h[13..] == st.Name();
  }

  // --------------------------------------------------------------- Content

  /** A body together with its media type. */
  datatype Content = Content(contentType: string, bytes: seq<byte>)

  /** The extension table of `Content::file`, in the groups it is written in. */
  const TEXT_TYPES: map<string, string> := map[
    "txt" := "text/plain", "md" := "text/plain", "toml" := "text/plain",
    "html" := "text/html", "htm" := "text/html", "css" := "text/css"]
  const IMAGE_TYPES: map<string, string> := map[
    "apng" := "image/apng", "bmp" := "image/bmp", "gif" := "image/gif",
    "jpeg" := "image/jpeg", "jpg" := "image/jpeg", "png" := "image/png",
    "svg" := "image/svg+xml", "tif" := "image/tiff", "tiff" := "image/tiff",
    "webp" := "image/webp"]
  const AUDIO_TYPES: map<string, string> := map[
    "aac" := "audio/aac", "mp3" := "audio/mpeg", "oga" := "audio/ogg",
    "ogg" := "audio/ogg", "opus" := "audio/opus", "wav" := "audio/wav",
    "weba" := "audio/webm"]
  const VIDEO_TYPES: map<string, string> := map[
    "3gp" := "video/3gpp", "3gp2" := "video/3gpp2", "avi" := "video/x-msvideo",
    "mp4" := "video/mp4", "mpeg" := "video/mpeg", "ogv" := "video/ogv",
    "webm" := "video/webm"]
  const APPLICATION_TYPES: map<string, string> := map[
    "json" := "application/json", "gz" := "application/gzip"]

  /** The media type the table gives an extension, if any. */
  function MimeType(ext: string): (t: Option<string>)
    ensures t.Some? ==> IsMediaType(t.value)
  {
    MediaTypes(ext);
    if ext in TEXT_TYPES then Some(TEXT_TYPES[ext])
    else if ext in IMAGE_TYPES then Some(IMAGE_TYPES[ext])
    else if ext in AUDIO_TYPES then Some(AUDIO_TYPES[ext])
    else if ext in VIDEO_TYPES then Some(VIDEO_TYPES[ext])
    else if ext in APPLICATION_TYPES then Some(APPLICATION_TYPES[ext])
    else None
  }

  lemma MediaTypes(ext: string)
    ensures ext in TEXT_TYPES ==> IsMediaType(TEXT_TYPES[ext])
    ensures ext in IMAGE_TYPES ==> IsMediaType(IMAGE_TYPES[ext])
    ensures ext in AUDIO_TYPES ==> IsMediaType(AUDIO_TYPES[ext])
    ensures ext in VIDEO_TYPES ==> IsMediaType(VIDEO_TYPES[ext])
    ensures ext in APPLICATION_TYPES ==> IsMediaType(APPLICATION_TYPES[ext])
  {
    TextTypes(ext);
    ImageTypes(ext);
    AudioTypes(ext);
    VideoTypes(ext);
  }

  lemma TextTypes(ext: string)
    ensures ext in TEXT_TYPES ==> IsMediaType(TEXT_TYPES[ext])
  {
  }

  lemma ImageTypes(ext: string)
    ensures ext in IMAGE_TYPES ==> IsMediaType(IMAGE_TYPES[ext])
  {
  }

  lemma AudioTypes(ext: string)
    ensures ext in AUDIO_TYPES ==> IsMediaType(AUDIO_TYPES[ext])
  {
  }

  lemma VideoTypes(ext: string)
    ensures ext in VIDEO_TYPES ==> IsMediaType(VIDEO_TYPES[ext])
  {
  }

  /** `[u8]::is_ascii` */
  predicate IsAscii(bytes: seq<byte>)
  {
    forall i :: 0 <= i < |bytes| ==> bytes[i] < 0x80
  }

  /** A media type fit for a `Content-Type` line: `type/subtype`, one line. */
  predicate IsMediaType(t: string)
  {
    IsHeadLine(t) && '/' in t && '\n' !in t
  }

  /** `Content::file`: the type comes from the extension; an unknown extension
      gives plain text for ASCII bytes and an opaque byte stream otherwise. */
  function File(ext: string, bytes: seq<byte>): (c: Content)
    ensures c.bytes == bytes
    ensures IsMediaType(c.contentType)
    ensures MimeType(ext).Some? ==> c.contentType == MimeType(ext).value
    ensures MimeType(ext).None? ==> (c.contentType == "text/plain" <==> IsAscii(bytes))
    ensures MimeType(ext).None? ==> (c.contentType == "application/octet-stream" <==> !IsAscii(bytes))
  {
    FallbackTypes();
    match MimeType(ext)
    case Some(t) => Content(t, bytes)
    case None => Content(if IsAscii(bytes) then "text/plain" else "application/octet-stream", bytes)
  }

  lemma FallbackTypes()
    ensures IsMediaType("text/plain") && IsMediaType("application/octet-stream")
  {
  }

  /** `Content::html`: the text as UTF-8, typed as HTML. */
  function Html(text: string): (c: Content)
    ensures c.contentType == "text/html" && c.bytes == Encode(text)
  {
    File("html", Encode(text))
  }

  /** `Content::text`: the text as UTF-8, typed as plain text. */
  function Text(text: string): (c: Content)
    ensures c.contentType == "text/plain" && c.bytes == Encode(text)
  {
    File("txt", Encode(text))
  }

  // -------------------------------------------------------------- Response

  /** The head of a response, line by line: the status line, then, when there
      is content, its type and its length in bytes. */
  function HeadLines(status: Status, content: Option<Content>): (ls: seq<string>)
    ensures ls != [] && ls[0] == status.Header()
    ensures content.Some? ==> |ls| == 3
    ensures content.None? ==> |ls| == 1
  {
    match content
    case None => [status.Header()]
    case Some(c) => [status.Header(), "Content-Type: " + c.contentType, "Content-Length: " + Decimal(|c.bytes|)]
  }

  /** A response on the wire: the head lines, an empty line, then the body
      unless only the head is asked for. */
  function Serialize(status: Status, content: Option<Content>, headOnly: bool): seq<byte>
  {
    Encode(HeadOf(HeadLines(status, content)) + "\r\n\r\n")
      + (if headOnly || content.None? then [] else content.value.bytes)
  }

  /** `Response`: the status and the optional content a handler fills in. */
  class Response {
    var status: Status
    var content: Option<Content>

    /** `Response::new`: a status without content. */
    constructor New(status: Status)
      ensures this.status == status && content == None
    {
      this.status := status;
      content := None;
    }

    /** `Response::with_content`: sets the content, keeps the status. */
    method WithContent(c: Content)
      modifies this
      ensures status == old(status) && content == Some(c)
    {
      content := Some(c);
    }

    /** `Response::format`: the head, then the body appended unless
        `headOnly`. */
    method Format(headOnly: bool) returns (data: seq<byte>)
      ensures data == Serialize(status, content, headOnly)
    {
      match content {
        case Some(c) =>
          var head := status.Header() + "\r\nContent-Type: " + c.contentType
            + "\r\nContent-Length: " + Decimal(|c.bytes|) + "\r\n\r\n";
          HeadLayout(status.Header(), c.contentType, Decimal(|c.bytes|));
          data := Encode(head);
          if !headOnly {
            data := data + c.bytes;
          }
        case None =>
          data := Encode(status.Header() + "\r\n\r\n");
      }
    }
  }

  /** Without content a response is exactly its status line and an empty
      line, whether or not only the head is asked for. */
  lemma SerializeBare(status: Status, headOnly: bool)
    ensures Serialize(status, None, headOnly) == Encode(status.Header() + "\r\n\r\n")
  {
  }

  /** The full response is the head-only response followed by the body. */
  lemma HeadOnlyPrefix(status: Status, c: Content)
    ensures Serialize(status, Some(c), false) == Serialize(status, Some(c), true) + c.bytes
  {
  }

  /** Every line of a response head is a proper head line. */
  lemma HeadLinesAreLines(status: Status, content: Option<Content>)
    requires content.Some? ==> IsMediaType(content.value.contentType)
    ensures forall i :: 0 <= i < |HeadLines(status, content)| ==> IsHeadLine(HeadLines(status, content)[i])
  {
    StatusLine(status);
    if content.Some? {
      var c := content.value;
      var d := Decimal(|c.bytes|);
      assert '\r' !in d by {
        assert forall i :: 0 <= i < |d| ==> IsDigit(d[i]);
      }
      assert '\r' !in "Content-Type: " + c.contentType;
      assert '\r' !in "Content-Length: " + d;
    }
  }

  /** A client reading a response splits it at the first empty line into
      exactly the head lines and the body; the body is empty for a HEAD
      answer, and the announced length is the length of the full body. */
  lemma ResponseFraming(status: Status, content: Option<Content>, headOnly: bool)
    requires content.Some? ==> IsMediaType(content.value.contentType)
    ensures var body := if headOnly || content.None? then [] else content.value.bytes;
      SplitMessage(Serialize(status, content, headOnly)) == Some((Encode(HeadOf(HeadLines(status, content))), body))
    ensures content.Some? ==>
      HeadLines(status, content)[2] == "Content-Length: " + Decimal(|content.value.bytes|)
      && ParseUsize(Decimal(|content.value.bytes|)) ==
         (if |content.value.bytes| <= USIZE_MAX then Some(|content.value.bytes|) else None)
  {
    HeadLinesAreLines(status, content);
    var body := if headOnly || content.None? then [] else content.value.bytes;
    SplitAfterHead(HeadLines(status, content), body);
    if content.Some? {
      ParseDecimal(|content.value.bytes|);
    }
  }

  // --------------------------------------------------------------- Request

  /** A parsed request (`verb` is the `method` field, a keyword here): the method, the target exactly as sent, the host (lower
      case) and the byte range asked for, if any. */
  datatype Request = Request(verb: Method, path: string, host: string, range: Option<ContentRange>)

  /** The request line: split at the first space into the method, then at the
      next space into the target and the version, which must start with
      `HTTP/1`. */
  function ParseRequestLine(line: string): Option<(Method, string)>
  {
    match SplitOnce(line, " ")
    case None => None
    case Some((m, rest)) =>
      match ParseMethod(m)
      case None => None
      case Some(verb) =>
        match SplitOnce(rest, " ")
        case None => None
        case Some((path, version)) =>
          if StartsWith(version, "HTTP/1") then Some((verb, path)) else None
  }

  /** A request line is accepted exactly when it is a method, a space, a target
      without spaces, a space and a version starting with `HTTP/1`. */
  lemma RequestLineIff(line: string, m: Method, p: string)
    ensures ParseRequestLine(line) == Some((m, p)) <==>
      ' ' !in p && StartsWith(line, MethodName(m) + " " + p + " HTTP/1")
  {
    if ParseRequestLine(line) == Some((m, p)) {
      RequestLineShape(line, m, p);
    }
    if ' ' !in p && StartsWith(line, MethodName(m) + " " + p + " HTTP/1") {
      RequestLineAccepted(line, m, p);
    }
  }

  lemma RequestLineShape(line: string, m: Method, p: string)
    requires ParseRequestLine(line) == Some((m, p))
    ensures ' ' !in p && StartsWith(line, MethodName(m) + " " + p + " HTTP/1")
  {
    var first := SplitOnce(line, " ").value;
    MethodRoundTrip(m, first.0);
    var second := SplitOnce(first.1, " ").value;
    SplitOnceElement(first.1, ' ');
    LineLayout(first.0, second.0, second.1);
  }

  lemma LineLayout(a: string, p: string, v: string)
    requires StartsWith(v, "HTTP/1")
    ensures StartsWith(a + " " + (p + " " + v), a + " " + p + " HTTP/1")
  {
    StartsWithConcat(a + " " + p + " ", "HTTP/1", v);
    assert a + " " + (p + " " + v) == a + " " + p + " " + v;
  }

  lemma RequestLineAccepted(line: string, m: Method, p: string)
    requires ' ' !in p && StartsWith(line, MethodName(m) + " " + p + " HTTP/1")
    ensures ParseRequestLine(line) == Some((m, p))
  {
    var pre := MethodName(m) + " " + p + " ";
    var full := MethodName(m) + " " + p + " HTTP/1";
    assert full == pre + "HTTP/1";
    var v := line[|pre|..];
    assert line[..|full|] == full;
    assert line[..|pre|] == full[..|pre|] == pre;
    assert line == line[..|pre|] + v;
    assert v[..6] == line[..|full|][|pre|..] == "HTTP/1";
    RequestLineOf(m, p, v);
  }

  /** A well-formed request line parses to its method and target. */
  lemma RequestLineOf(m: Method, p: string, v: string)
    requires ' ' !in p && StartsWith(v, "HTTP/1")
    ensures ParseRequestLine(MethodName(m) + " " + p + " " + v) == Some((m, p))
  {
    MethodRoundTrip(m, MethodName(m));
    assert MethodName(m) + " " + p + " " + v == MethodName(m) + " " + (p + " " + v);
    SplitOnceJoin(MethodName(m), " ", p + " " + v);
    SplitOnceJoin(p, " ", v);
  }

  /** The number of header lines before the first empty line. */
  function BlockLength(hs: seq<string>): (n: nat)
    ensures n <= |hs|
    ensures forall j :: 0 <= j < n ==> hs[j] != []
    ensures n < |hs| ==> hs[n] == []
  {
    if hs == [] || hs[0] == [] then 0 else 1 + BlockLength(hs[1..])
  }

  /** A header line, lower-cased as a whole, split at its first `": "` into
      the field name and the value. */
  function HeaderField(line: string): Option<(string, string)>
  {
    SplitOnce(ToLower(line), ": ")
  }

  /** Every line of the block is a field. */
  predicate AllFields(block: seq<string>)
  {
    forall j :: 0 <= j < |block| ==> HeaderField(block[j]).Some?
  }

  /** Whether a line is a field named `key`. */
  predicate Names(line: string, key: string)
  {
    HeaderField(line).Some? && HeaderField(line).value.0 == key
  }

  /** The value of the last field named `key`: later fields override earlier
      ones. */
  function LastValue(block: seq<string>, key: string): (v: Option<string>)
  {
    if block == [] then None
    else if Names(block[|block| - 1], key) then Some(HeaderField(block[|block| - 1]).value.1)
    else LastValue(block[..|block| - 1], key)
  }

  /** The header lines before the first empty line. */
  function Block(hs: seq<string>): seq<string>
  {
    hs[..BlockLength(hs)]
  }

  /** The block ends at the first empty line, or with the lines. */
  lemma BlockIs(hs: seq<string>, i: nat)
    requires i <= |hs| && (i == |hs| || hs[i] == [])
    requires forall j :: 0 <= j < i ==> hs[j] != []
    ensures Block(hs) == hs[..i]
  {
    assert BlockLength(hs) == i;
  }

  /** A line that is not a field, before any empty line, spoils the block. */
  lemma BlockSpoiled(hs: seq<string>, i: nat)
    requires i < |hs| && hs[i] != [] && HeaderField(hs[i]).None?
    requires forall j :: 0 <= j < i ==> hs[j] != []
    ensures !AllFields(Block(hs))
  {
    assert BlockLength(hs) > i;
    assert Block(hs)[i] == hs[i];
  }

  /** What the header loop has found so far: the host and the range. */
  type Seen = (Option<string>, Option<ContentRange>)

  /** One turn of the header loop on a non-empty line. */
  function Step(found: Seen, line: string): Option<Seen>
  {
    match HeaderField(line)
    case None => None
    case Some(field) =>
      if field.0 == "host" then Some((Some(field.1), found.1))
      else if field.0 == "range" then Some((found.0, ParseRange(field.1)))
      else Some(found)
  }

  /** The header loop run over a block, line after line. */
  function Scan(block: seq<string>): Option<Seen>
  {
    if block == [] then Some((None, None))
    else
      match Scan(block[..|block| - 1])
      case None => None
      case Some(found) => Step(found, block[|block| - 1])
  }

  /** The header loop succeeds exactly on a block of fields, and then it has
      found the last `host` value and the range of the last `range` value. */
  lemma {:induction false} ScanFinds(block: seq<string>)
    ensures Scan(block).Some? <==> AllFields(block)
    ensures Scan(block).Some? ==>
      Scan(block).value == (LastValue(block, "host"), RangeOf(LastValue(block, "range")))
  {
    if block != [] {
      var init := block[..|block| - 1];
      ScanFinds(init);
      assert forall j :: 0 <= j < |init| ==> init[j] == block[j];
    }
  }

  /** The range a `range` value gives, none without one. */
  function RangeOf(value: Option<string>): Option<ContentRange>
  {
    match value
    case None => None
    case Some(v) => ParseRange(v)
  }

  /** `Request::parse`, stated over the whole header block: the request line
      must parse, every line before the first empty one must be a field, and
      a `host` field must be among them. */
  function RequestOf(source: string): Option<Request>
  {
    var ls := Lines(source);
    if ls == [] then None
    else
      match ParseRequestLine(ls[0])
      case None => None
      case Some((verb, path)) =>
        var block := Block(ls[1..]);
        if !AllFields(block) then None
        else
          match LastValue(block, "host")
          case None => None
          case Some(host) => Some(Request(verb, path, host, RangeOf(LastValue(block, "range"))))
  }

  /** The header loop of `Request::parse`: it stops at the first empty line,
      fails on a line without `": "`, and keeps the last `host` and the range
      of the last `range`. */
  method ScanHeaders(hs: seq<string>) returns (ok: bool, host: Option<string>, range: Option<ContentRange>)
    ensures ok == AllFields(Block(hs))
    ensures ok ==> host == LastValue(Block(hs), "host")
    ensures ok ==> range == RangeOf(LastValue(Block(hs), "range"))
  {
    host, range := None, None;
    var i := 0;
    while i < |hs|
      invariant i <= |hs|
      invariant forall j :: 0 <= j < i ==> hs[j] != []
      invariant Scan(hs[..i]) == Some((host, range))
    {
      if hs[i] == [] {
        break;
      }
      assert hs[..i + 1][..i] == hs[..i];
      var field := SplitOnce(ToLower(hs[i]), ": ");
      if field.None? {
        BlockSpoiled(hs, i);
        return false, host, range;
      }
      var key := field.value.0;
      var value := field.value.1;
      if key == "host" {
        host := Some(value);
      } else if key == "range" {
        range := ParseRange(value);
      }
      i := i + 1;
    }
    BlockIs(hs, i);
    ScanFinds(hs[..i]);
    ok := true;
  }

  /** `Request::parse`: the request line, then the header loop; a request
      without `host` is rejected. */
  method ParseRequest(source: string) returns (r: Option<Request>)
    ensures r == RequestOf(source)
  {
    var ls := Lines(source);
    if ls == [] {
      return None;
    }
    var line := ParseRequestLine(ls[0]);
    if line.None? {
      return None;
    }
    var verb, path := line.value.0, line.value.1;
    var ok, host, range := ScanHeaders(ls[1..]);
    if !ok || host.None? {
      return None;
    }
    r := Some(Request(verb, path, host.value, range));
  }

  /** A header line is split at its first `": "`; name and value are both
      lower-cased, so field names match whatever their case. */
  lemma HeaderFieldOf(key: string, value: string)
    requires ':' !in key
    ensures HeaderField(key + ": " + value) == Some((ToLower(key), ToLower(value)))
  {
    ToLowerAppend(key + ": ", value);
    ToLowerAppend(key, ": ");
    assert ToLower(": ") == ": ";
    ToLowerKeeps(key, ':');
    SplitOnceJoin(ToLower(key), ": ", ToLower(value));
  }

  /** No upper-case ASCII letter. */
  predicate NoUpper(s: string)
  {
    forall i :: 0 <= i < |s| ==> !('A' <= s[i] <= 'Z')
  }

  /** Every field value is lower case. */
  lemma {:induction false} LastValueLower(block: seq<string>, key: string)
    ensures LastValue(block, key).Some? ==> NoUpper(LastValue(block, key).value)
    decreases |block|
  {
    if block != [] {
      var line := block[|block| - 1];
      if Names(line, key) {
        ValueLower(ToLower(line));
      } else {
        LastValueLower(block[..|block| - 1], key);
      }
    }
  }

  lemma ValueLower(low: string)
    requires NoUpper(low) && SplitOnce(low, ": ").Some?
    ensures NoUpper(SplitOnce(low, ": ").value.1)
  {
    var parts := SplitOnce(low, ": ").value;
    assert low == parts.0 + ": " + parts.1;
    assert forall i :: 0 <= i < |parts.1| ==> parts.1[i] == low[|parts.0| + 2 + i];
  }

  /** The host of a parsed request is lower case. */
  lemma HostLowerCase(source: string)
    requires RequestOf(source).Some?
    ensures NoUpper(RequestOf(source).value.host)
  {
    var ls := Lines(source);
    LastValueLower(Block(ls[1..]), "host");
  }

  /** A request laid out on the wire, a request line and header lines each
      ended by CR LF, then an empty line and anything at all, parses to its
      method, its target, the last `host` value and the range of the last
      `range` value; it is refused when a line is no field or no `host`
      field is present. */
  lemma RequestRoundTrip(m: Method, path: string, version: string, hs: seq<string>, tail: string)
    requires ' ' !in path && '\n' !in path && '\n' !in version && StartsWith(version, "HTTP/1")
    requires NoBreaks(hs) && forall i :: 0 <= i < |hs| ==> hs[i] != []
    ensures RequestOf(JoinCRLF([MethodName(m) + " " + path + " " + version] + hs) + "\r\n" + tail)
      == if AllFields(hs) && LastValue(hs, "host").Some?
         then Some(Request(m, path, LastValue(hs, "host").value, RangeOf(LastValue(hs, "range"))))
         else None
  {
    var line := MethodName(m) + " " + path + " " + version;
    LineUnbroken(m, path, version);
    WireLines(line, hs, tail);
    RequestLineOf(m, path, version);
    RequestOfParts(JoinCRLF([line] + hs) + "\r\n" + tail, line, hs, Lines(tail));
  }

  lemma LineUnbroken(m: Method, path: string, version: string)
    requires '\n' !in path && '\n' !in version
    ensures '\n' !in MethodName(m) + " " + path + " " + version
  {
    assert '\n' !in MethodName(m);
  }

  /** The lines of a request on the wire. */
  lemma WireLines(line: string, hs: seq<string>, tail: string)
    requires '\n' !in line && NoBreaks(hs)
    ensures Lines(JoinCRLF([line] + hs) + "\r\n" + tail) == [line] + (hs + ([""] + Lines(tail)))
  {
    var ls := [line] + hs;
    NoBreaksCons(line, hs);
    LinesOfJoin(ls, "\r\n" + tail);
    BlankLine(tail);
    Assoc(JoinCRLF(ls), "\r\n", tail);
    Assoc([line], hs, [""] + Lines(tail));
  }

  lemma NoBreaksCons(line: string, hs: seq<string>)
    requires '\n' !in line && NoBreaks(hs)
    ensures NoBreaks([line] + hs)
  {
    var ls := [line] + hs;
    assert forall i :: 1 <= i < |ls| ==> ls[i] == hs[i - 1];
  }

  /** An empty line is a line of its own. */
  lemma BlankLine(tail: string)
    ensures Lines("\r\n" + tail) == [""] + Lines(tail)
  {
    LinesOfCRLF("", tail);
    assert ("" + "\r") + "\n" + tail == "\r\n" + tail;
  }

  lemma Assoc<T>(a: seq<T>, b: seq<T>, c: seq<T>)
    ensures a + b + c == a + (b + c)
  {
  }

  /** A request whose lines are a request line, header lines and an empty
      line. */
  lemma RequestOfParts(source: string, line: string, hs: seq<string>, more: seq<string>)
    requires Lines(source) == [line] + (hs + ([""] + more))
    requires forall i :: 0 <= i < |hs| ==> hs[i] != []
    requires ParseRequestLine(line).Some?
    ensures RequestOf(source)
      == if AllFields(hs) && LastValue(hs, "host").Some?
         then Some(Request(ParseRequestLine(line).value.0, ParseRequestLine(line).value.1,
                           LastValue(hs, "host").value, RangeOf(LastValue(hs, "range"))))
         else None
  {
    var rest := Lines(source)[1..];
    assert rest == hs + ([""] + more);
    assert rest[..|hs|] == hs;
    BlockIs(rest, |hs|);
  }
}
