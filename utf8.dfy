/** The byte form of Rust strings: `String::into_bytes`, `str::as_bytes` and
    `str::len` (a length in UTF-8 bytes, not in characters). */
module Utf8 {

  /** Rust's `u8`. */
  newtype byte = b: int | 0 <= b < 0x100

  /** A continuation byte `10xxxxxx` carrying the low six bits of `x`. */
  function Continuation(x: nat): (b: byte)
    ensures b >= 0x80
  {
    (0x80 + x % 0x40) as byte
  }

  /** A leading byte: the length marker `marker` plus the high bits `x`. */
  function Leading(marker: nat, x: nat): (b: byte)
    requires 0xC0 <= marker && marker + x < 0x100
    ensures b >= 0x80
  {
    (marker + x) as byte
  }

  /** The UTF-8 encoding of one Unicode scalar value. */
  function CharBytes(c: char): (b: seq<byte>)
    ensures 1 <= |b| <= 4
    ensures |b| == 1 <==> (c as int) < 0x80
    ensures |b| == 1 ==> b[0] as int == c as int
    ensures |b| > 1 ==> forall i :: 0 <= i < |b| ==> b[i] >= 0x80
  {
    var cp := c as int;
    if cp < 0x80 then [cp as byte]
    else if cp < 0x800 then [Leading(0xC0, cp / 0x40), Continuation(cp)]
    else if cp < 0x1_0000 then [Leading(0xE0, cp / 0x1000), Continuation(cp / 0x40), Continuation(cp)]
    else [Leading(0xF0, cp / 0x4_0000), Continuation(cp / 0x1000), Continuation(cp / 0x40), Continuation(cp)]
  }

  /** `s.as_bytes()` */
  function Encode(s: string): seq<byte>
  {
    if s == [] then [] else CharBytes(s[0]) + Encode(s[1..])
  }

  lemma {:induction false} EncodeAppend(a: string, b: string)
    ensures Encode(a + b) == Encode(a) + Encode(b)
  {
    if a != [] {
      assert (a + b)[1..] == a[1..] + b;
      EncodeAppend(a[1..], b);
    } else {
      assert a + b == b;
    }
  }

  /** The carriage-return byte appears in the encoding only where a `\r` was. */
  lemma {:induction false} EncodeNoCR(s: string)
    requires '\r' !in s
    ensures 13 !in Encode(s)
  {
    if s != [] {
      EncodeNoCR(s[1..]);
      assert s[0] != '\r';
    }
  }

  /** Every character takes at least one byte, ASCII exactly one. */
  lemma {:induction false} EncodeLength(s: string)
    ensures |Encode(s)| >= |s|
    ensures |Encode(s)| == |s| <==> forall i :: 0 <= i < |s| ==> (s[i] as int) < 0x80
  {
    if s != [] {
      EncodeLength(s[1..]);
      assert forall i :: 1 <= i < |s| ==> s[1..][i - 1] == s[i];
    }
  }
}
