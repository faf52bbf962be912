/** The request handling of `src/main.rs`: the `..` guard, the choice between
    a file and `400 BAD REQUEST`, and the two answers of `send_file`. The
    socket is the text received and the bytes written back; reading a file
    is a function from its path to its text, none when it cannot be read. */
module Server {
  import opened Wrappers
  import opened Strs
  import opened Numbers
  import opened Utf8
  import opened Framing

  // ------------------------------------------------------- traversal guard

  /** What the guard leaves of a request: `..` deleted again and again while
      any is left. */
  function Sanitize(s: string): string
    decreases |s|
  {
    if Contains(s, "..") then Sanitize(RemoveAll(s, "..")) else s
  }

  /** The guard loop: `while request.contains("..")`, replace `..` by
      nothing. What is left has no `..` and only characters of the request,
      in order. */
  method StripTraversal(request: string) returns (r: string)
    ensures r == Sanitize(request)
    ensures !Contains(r, "..")
    ensures Subseq(r, request) && |r| <= |request|
  {
    r := request;
    SubseqRefl(request);
    while Contains(r, "..")
      invariant Sanitize(r) == Sanitize(request)
      invariant Subseq(r, request) && |r| <= |request|
      decreases |r|
    {
      RemoveAllSubseq(r, "..");
      SubseqTrans(RemoveAll(r, ".."), r, request);
      r := RemoveAll(r, "..");
    }
  }

  /** A deletion pass keeps a first character that does not start `..`. */
  lemma KeptHead(s: string)
    requires s != [] && !StartsWith(s, "..")
    ensures RemoveAll(s, "..") == [s[0]] + RemoveAll(s[1..], "..")
  {
  }

  /** One pass of `replace("..", "")` leaves no `..` behind: a `.` it keeps
      is followed by a character that is not a `.`. */
  lemma {:induction false} OnePassClean(s: string)
    ensures !Contains(RemoveAll(s, ".."), "..")
    decreases |s|
  {
    if StartsWith(s, "..") {
      OnePassClean(s[2..]);
    } else if s != [] {
      var t := s[1..];
      var rest := RemoveAll(t, "..");
      var r := RemoveAll(s, "..");
      KeptHead(s);
      OnePassClean(t);
      assert r[1..] == rest;
      ContainsCons(r, "..");
      if s[0] == '.' && t != [] {
        assert t[0] != '.' by {
          assert s[..2] == [s[0], t[0]];
        }
        KeptHead(t);
      }
    }
  }

  /** The guard needs one pass at most: its result is a single
      `replace("..", "")`. */
  lemma OnePass(s: string)
    ensures Sanitize(s) == RemoveAll(s, "..")
  {
    OnePassClean(s);
    if Contains(s, "..") {
      RemoveAllNone(RemoveAll(s, ".."), "..");
    } else {
      RemoveAllNone(s, "..");
    }
  }

  /** A prefix without `.` survives the guard, so a request that starts as a
      HEAD request still does after it. */
  lemma {:induction false} KeepsPrefix(s: string, p: string)
    requires '.' !in p && StartsWith(s, p)
    ensures StartsWith(RemoveAll(s, ".."), p)
    decreases |s|
  {
    if p != [] {
      assert s[0] == p[0];
      assert !StartsWith(s, "..");
      KeptHead(s);
      assert s[1..][..|p| - 1] == p[1..];
      KeepsPrefix(s[1..], p[1..]);
    }
  }

  // ----------------------------------------------------------------- target

  /** The file a request asks for: a request starting with `GET` names it
      with its second whitespace-separated word, served from `./`. */
  function Target(request: string): (path: Option<string>)
    ensures path.Some? ==> StartsWith(request, "GET")
    ensures path.Some? ==> |path.value| > 2 && path.value[..2] == "./"
  {
    if StartsWith(request, "GET") && |Tokens(request)| > 1 then Some("./" + Tokens(request)[1])
    else None
  }

  /** A request line `GET <target> ...` asks for `./<target>`. */
  lemma TargetOfLine(t: string, rest: string)
    requires IsWord(t)
    ensures Target("GET " + t + " " + rest) == Some("./" + t)
  {
    var s := "GET " + t + " " + rest;
    var ts := ["GET", t];
    assert ts[1..] == [t];
    assert Spaced([t]) == t + " " by {
      assert [t][1..] == [];
    }
    assert Spaced(ts) == "GET" + " " + (t + " ");
    assert s == Spaced(ts) + rest;
    assert "GET" == ['G', 'E', 'T'];
    TokensOfSpaced(["GET", t], rest);
    assert s[..3] == "GET";
  }

  /** A word without `..` behind `./` has no `..` either. */
  lemma DotSlash(t: string)
    requires !Contains(t, "..")
    ensures !Contains("./" + t, "..")
  {
    var p := "./" + t;
    assert p[1..] == "/" + t;
    assert ("/" + t)[1..] == t;
    ContainsCons(p, "..");
    ContainsCons("/" + t, "..");
  }

  /** After the guard, the path served has no `..`, nor any whitespace. */
  lemma TargetIsSafe(request: string)
    requires Target(Sanitize(request)).Some?
    ensures !Contains(Target(Sanitize(request)).value, "..")
    ensures forall i :: 2 <= i < |Target(Sanitize(request)).value| ==> !IsWhitespace(Target(Sanitize(request)).value[i])
  {
    var s := Sanitize(request);
    OnePass(request);
    OnePassClean(request);
    var t := Tokens(s)[1];
    if Contains(t, "..") {
      TokenContains(s, 1, "..");
    }
    DotSlash(t);
    assert Target(s).value[2..] == t;
  }

  // -------------------------------------------------------------- responses

  /** The answer to anything but a GET with a target. */
  const BAD_REQUEST: string := "HTTP/1.1 400 BAD REQUEST\r\n\r\n"

  /** The media type `send_file` announces, from the path alone. */
  function TypeOf(path: string): (t: string)
    ensures t == "text/html" <==> EndsWith(path, ".html")
    ensures t == "text/plain" <==> !EndsWith(path, ".html")
  {
    if EndsWith(path, ".html") then "text/html" else "text/plain"
  }

  /** The layout both `format!` strings of `send_file` share: the status
      line, the type, the length of the body in UTF-8 bytes, an empty line
      and the body. */
  function Page(status: string, contentType: string, body: string): string
  {
    status + "\r\nContent-Type: " + contentType + "\r\nContent-Length: "
      + Decimal(|Encode(body)|) + "\r\n\r\n" + body
  }

  /** `200 OK`: the file's text and two line feeds. */
  function Found(path: string, text: string): string
  {
    Page("HTTP/1.1 200 OK", TypeOf(path) + "; charset=UTF-8", text + "\n\n")
  }

  /** `404 NOT FOUND`: the path itself as the body. */
  function Missing(path: string): string
  {
    Page("HTTP/1.1 404 NOT FOUND", "text/plain; charset=UTF-8", path)
  }

  /** `send_file` given what reading the file gave: its text, or nothing
      when it cannot be read as text. */
  function SendFile(path: string, file: Option<string>): string
  {
    match file
    case Some(text) => Found(path, text)
    case None => Missing(path)
  }

  /** The text written back for a request. */
  function Answer(request: string, read: string -> Option<string>): string
  {
    match Target(Sanitize(request))
    case None => BAD_REQUEST
    case Some(path) => SendFile(path, read(path))
  }

  /** `handle_connection` once the request is read: the guard, then either
      `send_file` or `400 BAD REQUEST`. */
  method HandleConnection(received: string, read: string -> Option<string>) returns (written: seq<byte>)
    ensures written == Encode(Answer(received, read))
  {
    var request := StripTraversal(received);
    if StartsWith(request, "GET") {
      var words := Tokens(request);
      if |words| > 1 {
        var path := "./" + words[1];
        written := Encode(SendFile(path, read(path)));
        return;
      }
    }
    written := Encode(BAD_REQUEST);
  }

  /** Every answer starts with its status: 400 exactly when the guarded
      request is no GET with a target, else 200 exactly when the file can be
      read, else 404. */
  lemma AnswerStatus(request: string, read: string -> Option<string>)
    ensures |Answer(request, read)| >= 12
    ensures Target(Sanitize(request)).None? ==> Answer(request, read)[..12] == "HTTP/1.1 400"
    ensures Target(Sanitize(request)).Some? && read(Target(Sanitize(request)).value).Some? ==>
      Answer(request, read)[..12] == "HTTP/1.1 200"
    ensures Target(Sanitize(request)).Some? && read(Target(Sanitize(request)).value).None? ==>
      Answer(request, read)[..12] == "HTTP/1.1 404"
  {
    var target := Target(Sanitize(request));
    if target.Some? {
      var path := target.value;
      if read(path).Some? {
        PagePrefix("HTTP/1.1 200 OK", TypeOf(path) + "; charset=UTF-8", read(path).value + "\n\n");
      } else {
        PagePrefix("HTTP/1.1 404 NOT FOUND", "text/plain; charset=UTF-8", path);
      }
    }
  }

  lemma PagePrefix(status: string, t: string, body: string)
    requires |status| >= 12
    ensures |Page(status, t, body)| >= 12 && Page(status, t, body)[..12] == status[..12]
  {
    var p := Page(status, t, body);
    assert forall i :: 0 <= i < 12 ==> p[i] == status[i];
  }

  /** A HEAD request is refused, although HEAD is a method of the codec. */
  lemma HeadRefused(request: string, read: string -> Option<string>)
    requires StartsWith(request, "HEAD")
    ensures Answer(request, read) == BAD_REQUEST
  {
    var s := Sanitize(request);
    OnePass(request);
    KeepsPrefix(request, "HEAD");
    assert s[0] == 'H';
    assert !StartsWith(s, "GET");
    assert Target(s) == None;
  }

  /** The refusal is read back as its status line alone, with no body. */
  lemma BadRequestFraming()
    ensures SplitMessage(Encode(BAD_REQUEST)) == Some((Encode("HTTP/1.1 400 BAD REQUEST"), []))
  {
    var l := "HTTP/1.1 400 BAD REQUEST";
    assert '\r' !in l;
    assert BAD_REQUEST == l + "\r\n\r\n";
    LineOnly(l);
  }

  /** A page is read back as its three head lines and exactly its body,
      whose UTF-8 length is the announced `Content-Length`. */
  lemma FileFraming(status: string, t: string, body: string)
    requires IsHeadLine(status) && '\r' !in t
    ensures var n := Decimal(|Encode(body)|);
      SplitMessage(Encode(Page(status, t, body))) == Some((Encode(HeadOf([status, "Content-Type: " + t, "Content-Length: " + n])), Encode(body)))
  {
    var n := Decimal(|Encode(body)|);
    var ls := [status, "Content-Type: " + t, "Content-Length: " + n];
    HeadLayout(status, t, n);
    assert '\r' !in n by {
      assert forall i :: 0 <= i < |n| ==> IsDigit(n[i]);
    }
    assert '\r' !in ls[1];
    assert '\r' !in ls[2];
    assert forall i :: 0 <= i < |ls| ==> IsHeadLine(ls[i]);
    EncodeAppend(HeadOf(ls) + "\r\n\r\n", body);
    SplitAfterHead(ls, Encode(body));
  }

  /** A file that can be read is sent as its text and two line feeds, with
      the type its name gives and the length of those bytes. */
  lemma FoundFraming(path: string, text: string)
    ensures var body := text + "\n\n";
      SplitMessage(Encode(Found(path, text))) == Some((Encode(HeadOf([
        "HTTP/1.1 200 OK",
        "Content-Type: " + (TypeOf(path) + "; charset=UTF-8"),
        "Content-Length: " + Decimal(|Encode(body)|)])), Encode(body)))
  {
    assert '\r' !in "HTTP/1.1 200 OK";
    assert '\r' !in TypeOf(path) + "; charset=UTF-8";
    FileFraming("HTTP/1.1 200 OK", TypeOf(path) + "; charset=UTF-8", text + "\n\n");
  }

  /** A file that cannot be read is answered with its path as plain text. */
  lemma MissingFraming(path: string)
    ensures SplitMessage(Encode(Missing(path))) == Some((Encode(HeadOf([
        "HTTP/1.1 404 NOT FOUND",
        "Content-Type: " + "text/plain; charset=UTF-8",
        "Content-Length: " + Decimal(|Encode(path)|)])), Encode(path)))
  {
    assert '\r' !in "HTTP/1.1 404 NOT FOUND";
    assert '\r' !in "text/plain; charset=UTF-8";
    FileFraming("HTTP/1.1 404 NOT FOUND", "text/plain; charset=UTF-8", path);
  }
}
