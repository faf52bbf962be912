/** The Rust `str` operations the server is built from, stated over sequences:
    `starts_with`, `ends_with`, `find`/`contains`, `split_once`, `lines`,
    `to_lowercase` (ASCII letters only), `split_whitespace` and
    `replace(pat, "")`. */
module Strs {
  import opened Wrappers

  /** `s.starts_with(p)` */
  predicate StartsWith<T(==)>(s: seq<T>, p: seq<T>)
  {
    |p| <= |s| && s[..|p|] == p
  }

  /** A prefix stays a prefix behind a common head. */
  lemma StartsWithConcat<T>(a: seq<T>, x: seq<T>, v: seq<T>)
    requires StartsWith(v, x)
    ensures StartsWith(a + v, a + x)
  {
    assert (a + v)[..|a + x|] == a + v[..|x|];
  }

  /** `s.ends_with(p)` */
  predicate EndsWith<T(==)>(s: seq<T>, p: seq<T>)
  {
    |p| <= |s| && s[|s| - |p|..] == p
  }

  /** `pat` occurs in `s` at position `j`. */
  predicate MatchesAt<T(==)>(s: seq<T>, pat: seq<T>, j: nat)
  {
    j + |pat| <= |s| && s[j..j + |pat|] == pat
  }

  /** `s.find(pat)`: the position of the first occurrence of `pat` in `s`
      (an empty pattern occurs at 0). */
  function Find<T(==)>(s: seq<T>, pat: seq<T>): (r: Option<nat>)
    decreases |s|
    ensures r.Some? ==> r.value + |pat| <= |s|
  {
    if StartsWith(s, pat) then Some(0)
    else if s == [] then None
    else Offset(Find(s[1..], pat), 1)
  }

  /** What `Find` reports is an occurrence. */
  lemma {:induction false} FindMatches<T>(s: seq<T>, pat: seq<T>)
    ensures Find(s, pat).Some? ==> MatchesAt(s, pat, Find(s, pat).value)
    decreases |s|
  {
    if !StartsWith(s, pat) && s != [] {
      FindMatches(s[1..], pat);
      var r := Find(s, pat);
      if r.Some? {
        DropSlice(s, r.value, r.value + |pat|);
      }
    }
  }

  /** `Find` reports an occurrence, and no later than any other. */
  lemma {:induction false} MatchFound<T>(s: seq<T>, pat: seq<T>, j: nat)
    requires MatchesAt(s, pat, j)
    ensures Find(s, pat).Some? && Find(s, pat).value <= j
    decreases |s|
  {
    if !StartsWith(s, pat) {
      assert j != 0;
      DropSlice(s, j, j + |pat|);
      MatchFound(s[1..], pat, j - 1);
    }
  }

  /** A single element is absent before the position where `Find` reports
      it, and absent everywhere when it reports none. */
  lemma {:induction false} FindElement<T>(s: seq<T>, c: T)
    ensures Find(s, [c]).Some? ==> c !in s[..Find(s, [c]).value]
    ensures Find(s, [c]).None? ==> c !in s
    decreases |s|
  {
    if s != [] && !StartsWith(s, [c]) {
      FindElement(s[1..], c);
      assert s[0] != c by {
        assert s[..1] == [s[0]];
      }
      if Find(s, [c]).Some? {
        assert s[..Find(s, [c]).value] == [s[0]] + s[1..][..Find(s[1..], [c]).value];
      } else {
        assert s == [s[0]] + s[1..];
      }
    }
  }

  /** `s.contains(pat)` */
  predicate Contains<T(==)>(s: seq<T>, pat: seq<T>)
  {
    Find(s, pat).Some?
  }

  /** An occurrence is at the front or further on. */
  lemma ContainsCons<T>(s: seq<T>, pat: seq<T>)
    requires s != []
    ensures Contains(s, pat) <==> StartsWith(s, pat) || Contains(s[1..], pat)
  {
  }

  /** When the first element of `pat` does not occur in `a`, the first
      occurrence of `pat` in `a + pat + b` is the one right after `a`. */
  lemma {:induction false} FindFirst<T>(a: seq<T>, pat: seq<T>, b: seq<T>)
    requires pat != [] && pat[0] !in a
    ensures Find(a + pat + b, pat) == Some(|a|)
  {
    FindSkip(a, pat + b, pat);
    assert a + pat + b == a + (pat + b);
    assert (pat + b)[..|pat|] == pat;
  }

  /** A prefix free of the pattern's first element only shifts the search. */
  lemma {:induction false} FindSkip<T>(x: seq<T>, y: seq<T>, pat: seq<T>)
    requires pat != [] && pat[0] !in x
    ensures Find(x + y, pat) == Offset(Find(y, pat), |x|)
  {
    if x == [] {
      assert x + y == y;
    } else {
      var s := x + y;
      assert s[0] == x[0];
      assert s[1..] == x[1..] + y;
      FindSkip(x[1..], y, pat);
    }
  }

  /** A known first occurrence, shifted behind a prefix that cannot start
      the pattern. */
  lemma FindShift<T>(x: seq<T>, y: seq<T>, pat: seq<T>, k: nat)
    requires pat != [] && pat[0] !in x && Find(y, pat) == Some(k)
    ensures Find(x + y, pat) == Some(|x| + k)
  {
    FindSkip(x, y, pat);
  }

  /** An occurrence inside a slice is an occurrence in the whole. */
  lemma ContainsSlice<T>(s: seq<T>, i: nat, j: nat, pat: seq<T>)
    requires i <= j <= |s| && Contains(s[i..j], pat)
    ensures Contains(s, pat)
  {
    var k := Find(s[i..j], pat).value;
    FindMatches(s[i..j], pat);
    SliceOfSlice(s, i, j, k, k + |pat|);
    MatchFound(s, pat, i + k);
  }

  /** A slice seen from the tail. */
  lemma DropSlice<T>(s: seq<T>, j: nat, l: nat)
    requires 1 <= j <= l <= |s|
    ensures s[1..][j - 1..l - 1] == s[j..l]
  {
    var t := s[1..];
    forall m | 0 <= m < l - j
      ensures t[j - 1..l - 1][m] == s[j..l][m]
    {
      assert t[j - 1..l - 1][m] == t[j - 1 + m] == s[j + m];
    }
  }

  /** Cutting a sequence in three pieces and joining them again. */
  lemma Split3<T>(s: seq<T>, i: nat, j: nat)
    requires i <= j <= |s|
    ensures s == s[..i] + s[i..j] + s[j..]
  {
  }

  lemma SliceOfSlice<T>(s: seq<T>, i: nat, j: nat, k: nat, l: nat)
    requires i <= j <= |s| && k <= l <= j - i
    ensures s[i..j][k..l] == s[i + k..i + l]
  {
    var t := s[i..j];
    forall m | 0 <= m < l - k
      ensures t[k..l][m] == s[i + k..i + l][m]
    {
      assert t[k..l][m] == t[k + m] == s[i + k + m];
    }
  }

  /** `s.split_once(sep)`: the text before and after the first occurrence. */
  function SplitOnce<T(==)>(s: seq<T>, sep: seq<T>): (r: Option<(seq<T>, seq<T>)>)
    ensures r.None? <==> !Contains(s, sep)
    ensures r.Some? ==> s == r.value.0 + sep + r.value.1
    ensures r.Some? ==> forall j :: 0 <= j < |r.value.0| ==> !MatchesAt(s, sep, j)
  {
    match Find(s, sep)
    case None => None
    case Some(i) =>
      FindMatches(s, sep);
      FindIsFirst(s, sep);
      Split3(s, i, i + |sep|);
      Some((s[..i], s[i + |sep|..]))
  }

  /** No occurrence starts before the one `Find` reports. */
  lemma FindIsFirst<T>(s: seq<T>, pat: seq<T>)
    ensures Find(s, pat).Some? ==> forall j :: 0 <= j < Find(s, pat).value ==> !MatchesAt(s, pat, j)
  {
    forall j | 0 <= j < (if Find(s, pat).Some? then Find(s, pat).value else 0)
      ensures !MatchesAt(s, pat, j)
    {
      if MatchesAt(s, pat, j) {
        MatchFound(s, pat, j);
      }
    }
  }

  /** Split at a single element, the left part does not contain it; without
      a split, the text does not. */
  lemma SplitOnceElement<T>(s: seq<T>, c: T)
    ensures SplitOnce(s, [c]).Some? ==> c !in SplitOnce(s, [c]).value.0
    ensures SplitOnce(s, [c]).None? ==> c !in s
  {
    FindElement(s, c);
  }

  /** Splitting a joined text at a separator whose first element does not occur
      in the left part gives the parts back. */
  lemma SplitOnceJoin<T>(a: seq<T>, sep: seq<T>, b: seq<T>)
    requires sep != [] && sep[0] !in a
    ensures SplitOnce(a + sep + b, sep) == Some((a, b))
  {
    FindFirst(a, sep, b);
    assert (a + sep + b)[..|a|] == a;
    assert (a + sep + b)[|a| + |sep|..] == b;
  }

  /** `line.strip_suffix('\r')`, keeping the line when there is none. */
  function StripCR(s: string): string
  {
    if |s| > 0 && s[|s| - 1] == '\r' then s[..|s| - 1] else s
  }

  /** `s.lines()`: the text split at each `\n`; a line that ended in `\r\n`
      loses the `\r`; a final `\n` does not start a further, empty line. */
  function Lines(s: string): seq<string>
    decreases |s|
  {
    if s == [] then []
    else
      match Find(s, "\n")
      case None => [s]
      case Some(i) => [StripCR(s[..i])] + Lines(s[i + 1..])
  }

  /** Every line followed by `\r\n`: how a request is laid out on the wire. */
  function JoinCRLF(ls: seq<string>): string
  {
    if ls == [] then [] else ls[0] + "\r\n" + JoinCRLF(ls[1..])
  }

  /** The first line of a text ends at its first `\n`. */
  lemma LinesCons(l: string, tail: string)
    requires '\n' !in l
    ensures Lines(l + "\n" + tail) == [StripCR(l)] + Lines(tail)
  {
    var s := l + "\n" + tail;
    FindFirst(l, "\n", tail);
    assert s[..|l|] == l;
    assert s[|l| + 1..] == tail;
  }

  /** No line contains a line break. */
  predicate NoBreaks(ls: seq<string>)
  {
    forall i :: 0 <= i < |ls| ==> '\n' !in ls[i]
  }

  lemma NoBreaksTail(ls: seq<string>)
    requires ls != [] && NoBreaks(ls)
    ensures NoBreaks(ls[1..]) && '\n' !in ls[0]
  {
    assert forall i :: 0 <= i < |ls| - 1 ==> ls[1..][i] == ls[i + 1];
  }

  /** `Lines` takes back lines laid out by `JoinCRLF`, including a line that
      itself ends in `\r`, and then goes on with what follows. */
  lemma {:induction false} LinesOfJoin(ls: seq<string>, rest: string)
    requires NoBreaks(ls)
    ensures Lines(JoinCRLF(ls) + rest) == ls + Lines(rest)
  {
    if ls != [] {
      NoBreaksTail(ls);
      LinesOfJoin(ls[1..], rest);
      LinesOfJoinStep(ls, rest);
      ConsTail(ls, Lines(rest));
    } else {
      assert JoinCRLF(ls) + rest == rest;
    }
  }

  lemma LinesOfJoinStep(ls: seq<string>, rest: string)
    requires ls != [] && '\n' !in ls[0]
    ensures Lines(JoinCRLF(ls) + rest) == [ls[0]] + Lines(JoinCRLF(ls[1..]) + rest)
  {
    JoinStep(ls, rest);
    LinesOfCRLF(ls[0], JoinCRLF(ls[1..]) + rest);
  }

  lemma ConsTail<T>(x: seq<T>, y: seq<T>)
    requires x != []
    ensures [x[0]] + (x[1..] + y) == x + y
  {
    assert x == [x[0]] + x[1..];
  }

  lemma JoinStep(ls: seq<string>, rest: string)
    requires ls != []
    ensures JoinCRLF(ls) + rest == (ls[0] + "\r") + "\n" + (JoinCRLF(ls[1..]) + rest)
  {
  }

  /** A line ended by `\r\n` is taken back without its ending. */
  lemma LinesOfCRLF(l: string, tail: string)
    requires '\n' !in l
    ensures Lines((l + "\r") + "\n" + tail) == [l] + Lines(tail)
  {
    LinesCons(l + "\r", tail);
    assert StripCR(l + "\r") == l;
  }

  /** ASCII case mapping of one character. */
  function LowerChar(c: char): char
  {
    if 'A' <= c <= 'Z' then (c as int + 32) as char else c
  }

  /** `s.to_lowercase()` on the ASCII letters; other characters are kept. */
  function ToLower(s: string): string
  {
    seq(|s|, i requires 0 <= i < |s| => LowerChar(s[i]))
  }

  lemma ToLowerAppend(a: string, b: string)
    ensures ToLower(a + b) == ToLower(a) + ToLower(b)
  {
    assert forall i :: 0 <= i < |a| + |b| ==> ToLower(a + b)[i] == (ToLower(a) + ToLower(b))[i];
  }

  /** Lower-casing neither adds nor removes a character that is not a letter. */
  lemma ToLowerKeeps(s: string, c: char)
    requires !('A' <= c <= 'Z') && !('a' <= c <= 'z')
    ensures c in ToLower(s) <==> c in s
  {
    if c in ToLower(s) {
      var i :| 0 <= i < |s| && ToLower(s)[i] == c;
      assert s[i] == c;
    }
    if c in s {
      var i :| 0 <= i < |s| && s[i] == c;
      assert ToLower(s)[i] == c;
    }
  }

  /** `char::is_whitespace`: the characters with Unicode's White_Space property. */
  predicate IsWhitespace(c: char)
  {
    || c == ' ' || '\t' <= c <= '\r'
    || c == '\U{0085}' || c == '\U{00A0}' || c == '\U{1680}'
    || '\U{2000}' <= c <= '\U{200A}'
    || c == '\U{2028}' || c == '\U{2029}' || c == '\U{202F}' || c == '\U{205F}' || c == '\U{3000}'
  }

  /** A token of `split_whitespace`: non-empty, without whitespace. */
  predicate IsWord(t: string)
  {
    t != [] && forall j :: 0 <= j < |t| ==> !IsWhitespace(t[j])
  }

  /** Length of the leading run of non-whitespace characters. */
  function WordLength(s: string): (n: nat)
    ensures n <= |s|
    ensures forall i :: 0 <= i < n ==> !IsWhitespace(s[i])
    ensures n < |s| ==> IsWhitespace(s[n])
  {
    if s == [] || IsWhitespace(s[0]) then 0 else 1 + WordLength(s[1..])
  }

  /** `s.split_whitespace()`: the maximal runs of non-whitespace characters. */
  function Tokens(s: string): (ts: seq<string>)
    decreases |s|
    ensures forall i :: 0 <= i < |ts| ==> IsWord(ts[i])
  {
    if s == [] then []
    else if IsWhitespace(s[0]) then Tokens(s[1..])
    else
      var n := WordLength(s);
      [s[..n]] + Tokens(s[n..])
  }

  /** Words each followed by one space. */
  function Spaced(ts: seq<string>): string
  {
    if ts == [] then [] else ts[0] + " " + Spaced(ts[1..])
  }

  /** A word followed by a space is the first token. */
  lemma TokensCons(t: string, tail: string)
    requires IsWord(t)
    ensures Tokens(t + " " + tail) == [t] + Tokens(tail)
  {
    var s := t + " " + tail;
    assert s[0] == t[0];
    assert s[|t|] == ' ';
    var n := WordLength(s);
    assert n == |t|;
    assert s[..n] == t;
    assert s[n..] == " " + tail;
    assert (" " + tail)[1..] == tail;
  }

  /** `split_whitespace` gives back space-separated words, then carries on. */
  lemma {:induction false} TokensOfSpaced(ts: seq<string>, rest: string)
    requires forall i :: 0 <= i < |ts| ==> IsWord(ts[i])
    ensures Tokens(Spaced(ts) + rest) == ts + Tokens(rest)
  {
    if ts != [] {
      var tail := Spaced(ts[1..]) + rest;
      assert Spaced(ts) + rest == ts[0] + " " + tail;
      TokensCons(ts[0], tail);
      TokensOfSpaced(ts[1..], rest);
      ConsTail(ts, Tokens(rest));
    } else {
      assert Spaced(ts) + rest == rest;
    }
  }

  /** A pattern found in a token is found in the text it came from. */
  lemma {:induction false} TokenContains(s: string, k: nat, pat: string)
    requires k < |Tokens(s)| && Contains(Tokens(s)[k], pat)
    ensures Contains(s, pat)
    decreases |s|
  {
    if IsWhitespace(s[0]) {
      TokenContains(s[1..], k, pat);
      assert s[1..|s|] == s[1..];
      ContainsSlice(s, 1, |s|, pat);
    } else {
      var n := WordLength(s);
      if k == 0 {
        ContainsSlice(s, 0, n, pat);
      } else {
        TokenContains(s[n..], k - 1, pat);
        assert s[n..|s|] == s[n..];
        ContainsSlice(s, n, |s|, pat);
      }
    }
  }

  /** `a` is obtained from `b` by deleting elements. */
  predicate Subseq<T(==)>(a: seq<T>, b: seq<T>)
    decreases |b|
  {
    if b == [] then a == []
    else (a != [] && a[0] == b[0] && Subseq(a[1..], b[1..])) || Subseq(a, b[1..])
  }

  lemma {:induction false} SubseqDrop<T>(a: seq<T>, b: seq<T>, k: nat)
    requires k <= |b| && Subseq(a, b[k..])
    ensures Subseq(a, b)
    decreases k
  {
    if k > 0 {
      assert b[1..][k - 1..] == b[k..];
      SubseqDrop(a, b[1..], k - 1);
    }
  }

  lemma {:induction false} SubseqTrans<T>(a: seq<T>, b: seq<T>, c: seq<T>)
    requires Subseq(a, b) && Subseq(b, c)
    ensures Subseq(a, c)
    decreases |c|
  {
    if c == [] {
    } else if b != [] && b[0] == c[0] && Subseq(b[1..], c[1..]) {
      if a != [] && a[0] == b[0] && Subseq(a[1..], b[1..]) {
        SubseqTrans(a[1..], b[1..], c[1..]);
      } else {
        SubseqTrans(a, b[1..], c[1..]);
      }
    } else {
      SubseqTrans(a, b, c[1..]);
    }
  }

  lemma {:induction false} SubseqRefl<T>(s: seq<T>)
    ensures Subseq(s, s)
    decreases |s|
  {
    if s != [] {
      SubseqRefl(s[1..]);
    }
  }

  /** `s.replace(pat, "")`: deletes the occurrences of `pat` found scanning
      left to right, without overlaps. */
  function RemoveAll<T(==)>(s: seq<T>, pat: seq<T>): (r: seq<T>)
    requires pat != []
    decreases |s|
    ensures |r| <= |s|
    ensures Contains(s, pat) ==> |r| <= |s| - |pat|
  {
    if StartsWith(s, pat) then RemoveAll(s[|pat|..], pat)
    else if s == [] then []
    else [s[0]] + RemoveAll(s[1..], pat)
  }

  /** Deleting occurrences only deletes: the result is a subsequence. */
  lemma {:induction false} RemoveAllSubseq<T>(s: seq<T>, pat: seq<T>)
    requires pat != []
    ensures Subseq(RemoveAll(s, pat), s)
    decreases |s|
  {
    var r := RemoveAll(s, pat);
    if StartsWith(s, pat) {
      RemoveAllSubseq(s[|pat|..], pat);
      SubseqDrop(r, s, |pat|);
    } else if s != [] {
      RemoveAllSubseq(s[1..], pat);
      assert r[1..] == RemoveAll(s[1..], pat);
    }
  }

  /** Without an occurrence, nothing is deleted. */
  lemma {:induction false} RemoveAllNone<T>(s: seq<T>, pat: seq<T>)
    requires pat != [] && !Contains(s, pat)
    ensures RemoveAll(s, pat) == s
    decreases |s|
  {
    if s != [] {
      ContainsCons(s, pat);
      RemoveAllNone(s[1..], pat);
    }
  }
}
