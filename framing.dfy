/** How a client reads an HTTP/1.1 response: the head is everything before the
    first empty line (CR LF CR LF), the body everything after it. Both the
    codec of `src/http.rs` and the responses of `src/main.rs` are proved
    against this reader. */
module Framing {
  import opened Wrappers
  import opened Strs
  import opened Utf8

  /** The bytes of a line ending and of an empty line. */
  const CRLF: seq<byte> := [13, 10]
  const BLANK_LINE: seq<byte> := [13, 10, 13, 10]

  /** A message split at its first empty line into the head (without the
      terminating CR LF CR LF) and the body. */
  function SplitMessage(m: seq<byte>): Option<(seq<byte>, seq<byte>)>
  {
    match Find(m, BLANK_LINE)
    case None => None
    case Some(k) => Some((m[..k], m[k + 4..]))
  }

  /** Header lines joined by CR LF, without a final one. */
  function HeadOf(ls: seq<string>): string
    requires ls != []
  {
    if |ls| == 1 then ls[0] else ls[0] + "\r\n" + HeadOf(ls[1..])
  }

  /** A line that can stand in a head: not empty, no carriage return. */
  predicate IsHeadLine(l: string)
  {
    l != [] && '\r' !in l
  }

  lemma EncodeCRLF()
    ensures Encode("\r\n") == CRLF
    ensures Encode("\r\n\r\n") == BLANK_LINE
  {
    assert "\r\n"[1..] == "\n";
    assert "\r\n\r\n"[1..] == "\n\r\n";
    assert "\n\r\n"[1..] == "\r\n";
  }

  /** A non-empty line without `\r` encodes to bytes that start with, and
      contain, no carriage return. */
  lemma HeadLineBytes(l: string)
    requires IsHeadLine(l)
    ensures Encode(l) != [] && 13 !in Encode(l)
  {
    EncodeNoCR(l);
  }

  /** The bytes of a head: the first line, CR LF, the bytes of the others. */
  lemma HeadBytes(ls: seq<string>)
    requires |ls| > 1
    ensures Encode(HeadOf(ls)) == Encode(ls[0]) + CRLF + Encode(HeadOf(ls[1..]))
  {
    EncodeCRLF();
    EncodeAppend(ls[0] + "\r\n", HeadOf(ls[1..]));
    EncodeAppend(ls[0], "\r\n");
  }

  /** A head starts with a byte that is not a carriage return. */
  lemma {:induction false} HeadFirstByte(ls: seq<string>)
    requires ls != [] && forall i :: 0 <= i < |ls| ==> IsHeadLine(ls[i])
    ensures Encode(HeadOf(ls)) != [] && Encode(HeadOf(ls))[0] != 13
  {
    HeadLineBytes(ls[0]);
    if |ls| > 1 {
      HeadBytes(ls);
    }
  }

  /** A CR LF not followed by CR does not start an empty line. */
  lemma CRLFStep(y: seq<byte>)
    requires y != [] && y[0] != 13
    ensures Find(CRLF + y, BLANK_LINE) == Offset(Find(y, BLANK_LINE), 2)
  {
    var z := CRLF + y;
    assert z[2] == y[0];
    assert !StartsWith(z, BLANK_LINE);
    assert z[1..] == [10] + y;
    FindSkip([10], y, BLANK_LINE);
  }

  lemma CRLFShift(y: seq<byte>, k: nat)
    requires y != [] && y[0] != 13 && Find(y, BLANK_LINE) == Some(k)
    ensures Find(CRLF + y, BLANK_LINE) == Some(k + 2)
  {
    CRLFStep(y);
  }

  /** The first empty line after a head line and CR LF is the first one in
      the rest, shifted. */
  lemma HeadEndStep(e: seq<byte>, y: seq<byte>, k: nat)
    requires 13 !in e && y != [] && y[0] != 13
    requires Find(y, BLANK_LINE) == Some(k)
    ensures Find(e + (CRLF + y), BLANK_LINE) == Some(|e| + 2 + k)
  {
    CRLFShift(y, k);
    FindShift(e, CRLF + y, BLANK_LINE, k + 2);
  }

  lemma Regroup<T>(e: seq<T>, crlf: seq<T>, er: seq<T>, tail: seq<T>)
    ensures e + crlf + er + tail == e + (crlf + (er + tail))
    ensures |e + crlf + er| == |e| + |crlf| + |er|
  {
  }

  /** The first empty line of a head followed by CR LF CR LF is the one right
      after the head. */
  lemma {:induction false} HeadEnd(ls: seq<string>, rest: seq<byte>)
    requires ls != [] && forall i :: 0 <= i < |ls| ==> IsHeadLine(ls[i])
    ensures Find(Encode(HeadOf(ls)) + (BLANK_LINE + rest), BLANK_LINE) == Some(|Encode(HeadOf(ls))|)
  {
    var e := Encode(ls[0]);
    HeadLineBytes(ls[0]);
    if |ls| == 1 {
      FindSkip(e, BLANK_LINE + rest, BLANK_LINE);
      assert StartsWith(BLANK_LINE + rest, BLANK_LINE);
    } else {
      var er := Encode(HeadOf(ls[1..]));
      var tail := BLANK_LINE + rest;
      HeadEnd(ls[1..], rest);
      HeadFirstByte(ls[1..]);
      HeadEndStep(e, er + tail, |er|);
      HeadBytes(ls);
      Regroup(e, CRLF, er, tail);
    }
  }

  /** Slicing a concatenation at the seam gives its parts back. */
  lemma SliceParts<T>(h: seq<T>, sep: seq<T>, body: seq<T>)
    ensures (h + (sep + body))[..|h|] == h
    ensures (h + (sep + body))[|h| + |sep|..] == body
  {
  }

  /** The bytes of a head followed by an empty line. */
  lemma HeadWithBlank(head: string, body: seq<byte>)
    ensures Encode(head + "\r\n\r\n") + body == Encode(head) + (BLANK_LINE + body)
  {
    EncodeCRLF();
    EncodeAppend(head, "\r\n\r\n");
  }

  /** A client splitting a response laid out as head lines, an empty line and
      a body gets the head lines and exactly that body back. */
  lemma SplitAfterHead(ls: seq<string>, body: seq<byte>)
    requires ls != [] && forall i :: 0 <= i < |ls| ==> IsHeadLine(ls[i])
    ensures SplitMessage(Encode(HeadOf(ls) + "\r\n\r\n") + body) == Some((Encode(HeadOf(ls)), body))
  {
    var h := Encode(HeadOf(ls));
    HeadWithBlank(HeadOf(ls), body);
    HeadEnd(ls, body);
    SliceParts(h, BLANK_LINE, body);
  }

  /** A message that is a single head line and an empty line is read back
      as that line and no body. */
  lemma LineOnly(l: string)
    requires IsHeadLine(l)
    ensures SplitMessage(Encode(l + "\r\n\r\n")) == Some((Encode(l), []))
  {
    var ls := [l];
    assert HeadOf(ls) == l;
    SplitAfterHead(ls, []);
    assert Encode(l + "\r\n\r\n") + [] == Encode(l + "\r\n\r\n");
  }

  /** A head written as one string, a status line, `Content-Type` and
      `Content-Length` separated by CR LF and closed by an empty line, is
      its three lines. */
  lemma HeadLayout(header: string, t: string, n: string)
    ensures header + "\r\nContent-Type: " + t + "\r\nContent-Length: " + n + "\r\n\r\n"
      == HeadOf([header, "Content-Type: " + t, "Content-Length: " + n]) + "\r\n\r\n"
  {
    var ls := [header, "Content-Type: " + t, "Content-Length: " + n];
    assert ls[1..] == ["Content-Type: " + t, "Content-Length: " + n];
    assert ls[1..][1..] == ["Content-Length: " + n];
    assert HeadOf(ls[1..]) == ("Content-Type: " + t) + "\r\n" + ("Content-Length: " + n);
    assert HeadOf(ls) == header + "\r\n" + (("Content-Type: " + t) + "\r\n" + ("Content-Length: " + n));
    assert "\r\nContent-Type: " == "\r\n" + "Content-Type: ";
    assert "\r\nContent-Length: " == "\r\n" + "Content-Length: ";
    Regroup6(header, "\r\n", "Content-Type: ", t, "Content-Length: ", n, "\r\n\r\n");
  }

  lemma Regroup6<T>(h: seq<T>, crlf: seq<T>, ct: seq<T>, t: seq<T>, cl: seq<T>, n: seq<T>, end: seq<T>)
    ensures h + (crlf + ct) + t + (crlf + cl) + n + end
      == h + crlf + ((ct + t) + crlf + (cl + n)) + end
  {
  }
}
