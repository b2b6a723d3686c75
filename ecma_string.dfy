/**
 * The ECMAScript string built-ins the services rely on: `String.prototype.trim`,
 * `startsWith`, and the whitespace class shared by `trim` and the regular-expression
 * escape `\s`. Strings are sequences of characters; every character that either
 * operation treats as whitespace lies in the Basic Multilingual Plane, so a
 * character here and a UTF-16 code unit there agree on the question.
 */
module EcmaString {

  /**
   * ECMAScript WhiteSpace and LineTerminator code points (ECMA-262, sections 12.2
   * and 12.3). `trim` strips exactly these, and `\s` matches exactly these.
   */
  predicate IsWhiteSpace(c: char)
  {
    || c == '\t' || c == '\n' || c == '\U{000B}' || c == '\U{000C}' || c == '\r'
    || c == ' ' || c == '\U{00A0}' || c == '\U{1680}'
    || ('\U{2000}' <= c <= '\U{200A}')
    || c == '\U{2028}' || c == '\U{2029}' || c == '\U{202F}' || c == '\U{205F}'
    || c == '\U{3000}' || c == '\U{FEFF}'
  }

  /** Every character of `s` is whitespace. */
  predicate AllWhiteSpace(s: string)
  {
    forall i :: 0 <= i < |s| ==> IsWhiteSpace(s[i])
  }

  /** `s` is empty or begins and ends with a non-whitespace character. */
  predicate IsTrimmed(s: string)
  {
    s == [] || (!IsWhiteSpace(s[0]) && !IsWhiteSpace(s[|s| - 1]))
  }

  /** `s.startsWith(p)`. */
  predicate StartsWith(s: string, p: string)
  {
    |p| <= |s| && s[..|p|] == p
  }

  /** A concatenation starts with its first part. */
  lemma PrefixStartsWith(p: string, rest: string)
    ensures StartsWith(p + rest, p)
  {
    assert (p + rest)[..|p|] == p;
  }

  /** Appending to a string keeps its prefixes. */
  lemma PrefixGrows(s: string, p: string, x: string)
    requires StartsWith(s, p)
    ensures StartsWith(s + x, p)
  {
    assert (s + x)[..|p|] == s[..|p|];
  }

  /** `a + b` does not start with `p` when `a` does not and, where `p` runs past `a`, `b` does not continue it. */
  lemma NotStartsWithConcat(a: string, b: string, p: string)
    requires !StartsWith(a, p)
    requires |a| < |p| && b != [] ==> b[0] != p[|a|]
    ensures !StartsWith(a + b, p)
  {
    if |p| <= |a| {
      assert (a + b)[..|p|] == a[..|p|];
    } else if b != [] && |p| <= |a + b| {
      assert (a + b)[|a|] == b[0];
      assert (a + b)[..|p|][|a|] == b[0];
    }
  }

  /** `s.endsWith(p)`. */
  predicate EndsWith(s: string, p: string)
  {
    |p| <= |s| && s[|s| - |p|..] == p
  }

  /** `r` is a contiguous piece of `s`. */
  ghost predicate IsSlice(r: string, s: string)
  {
    exists i, j :: 0 <= i <= j <= |s| && s[i..j] == r
  }

  /** The length of the longest whitespace prefix: what `\s*` consumes greedily at the start. */
  function LeadingWhiteSpace(s: string): (n: nat)
    ensures n <= |s| && AllWhiteSpace(s[..n])
    ensures n == |s| || !IsWhiteSpace(s[n])
  {
    if s != [] && IsWhiteSpace(s[0]) then
      var n := 1 + LeadingWhiteSpace(s[1..]);
      assert s[..n] == [s[0]] + s[1..][..n - 1];
      n
    else 0
  }

  /** Where the longest whitespace suffix begins. */
  function TrailingWhiteSpace(s: string): (n: nat)
    ensures n <= |s| && AllWhiteSpace(s[n..])
    ensures n == 0 || !IsWhiteSpace(s[n - 1])
  {
    if s != [] && IsWhiteSpace(s[|s| - 1]) then
      var n := TrailingWhiteSpace(s[..|s| - 1]);
      assert s[n..] == s[..|s| - 1][n..] + [s[|s| - 1]];
      n
    else |s|
  }

  /** Removes the longest whitespace prefix: the leading half of `trim`. */
  function TrimStart(s: string): (r: string)
    ensures |r| <= |s| && r == s[|s| - |r|..]
    ensures AllWhiteSpace(s[..|s| - |r|])
    ensures r == [] || !IsWhiteSpace(r[0])
  {
    s[LeadingWhiteSpace(s)..]
  }

  /** Removes the longest whitespace suffix: the trailing half of `trim`. */
  function TrimEnd(s: string): (r: string)
    ensures |r| <= |s| && r == s[..|r|]
    ensures AllWhiteSpace(s[|r|..])
    ensures r == [] || !IsWhiteSpace(r[|r| - 1])
  {
    s[..TrailingWhiteSpace(s)]
  }

  /** `s.trim()`: what is left after removing whitespace from both ends. */
  function Trim(s: string): (r: string)
    ensures IsTrimmed(r) && |r| <= |s|
  {
    TrimEnd(TrimStart(s))
  }

  /** `trim` keeps one contiguous piece, starting after the leading whitespace, and removes only whitespace around it. */
  lemma TrimKeepsMiddle(s: string)
    ensures var i, r := |s| - |TrimStart(s)|, Trim(s);
            && i + |r| <= |s| && s[i..i + |r|] == r
            && AllWhiteSpace(s[..i]) && AllWhiteSpace(s[i + |r|..])
  {
    TrimPiece(s);
    TrimTrailing(s);
  }

  /** Where the trimmed piece sits in the input. */
  lemma TrimPiece(s: string)
    ensures var i, r := |s| - |TrimStart(s)|, Trim(s);
            i + |r| <= |s| && s[i..i + |r|] == r
  {
    SuffixHead(s, TrimStart(s), Trim(s));
  }

  /** A prefix `r` of a suffix `t` of `s` is the slice of `s` where `t` starts. */
  lemma SuffixHead(s: string, t: string, r: string)
    requires |t| <= |s| && t == s[|s| - |t|..] && |r| <= |t| && r == t[..|r|]
    ensures s[|s| - |t|..|s| - |t| + |r|] == r
  {
    SuffixParts(s, |s| - |t|, |r|);
  }

  /** What follows the trimmed piece is whitespace. */
  lemma TrimTrailing(s: string)
    ensures AllWhiteSpace(s[|s| - |TrimStart(s)| + |Trim(s)|..])
  {
    var t := TrimStart(s);
    SuffixTailWhiteSpace(s, |s| - |t|, |TrimEnd(t)|);
  }

  /** Whitespace after the first `n` characters of the suffix from `i` is whitespace of `s` from `i + n`. */
  lemma SuffixTailWhiteSpace(s: string, i: nat, n: nat)
    requires i + n <= |s| && AllWhiteSpace(s[i..][n..])
    ensures AllWhiteSpace(s[i + n..])
  {
    SuffixParts(s, i, n);
  }

  /** `trim` keeps a contiguous piece. */
  lemma TrimIsSlice(s: string)
    ensures IsSlice(Trim(s), s)
  {
    TrimPiece(s);
    var r := Trim(s);
    var i := |s| - |TrimStart(s)|;
    var j := i + |r|;
    assert 0 <= i <= j <= |s| && s[i..j] == r;
  }

  /** The front and back of a suffix are slices of the whole. */
  lemma SuffixParts<T>(s: seq<T>, i: nat, n: nat)
    requires i + n <= |s|
    ensures s[i..][..n] == s[i..i + n] && s[i..][n..] == s[i + n..]
  {
  }

  /** Removing a whitespace run in front of `s` does not change what `TrimStart` keeps. */
  lemma TrimStartAfterWhiteSpace(w: string, s: string)
    requires AllWhiteSpace(w)
    ensures TrimStart(w + s) == TrimStart(s)
  {
    LeadingAfterWhiteSpace(w, s);
    assert (w + s)[|w|..] == s;
    SuffixParts(w + s, |w|, LeadingWhiteSpace(s));
  }

  /** A whitespace run in front adds its length to the leading whitespace. */
  lemma {:induction false} LeadingAfterWhiteSpace(w: string, s: string)
    requires AllWhiteSpace(w)
    ensures LeadingWhiteSpace(w + s) == |w| + LeadingWhiteSpace(s)
  {
    if w == [] {
      assert w + s == s;
    } else {
      assert (w + s)[0] == w[0] && (w + s)[1..] == w[1..] + s;
      LeadingAfterWhiteSpace(w[1..], s);
    }
  }

  /** Removing a whitespace run after `s` does not change what `TrimEnd` keeps. */
  lemma TrimEndBeforeWhiteSpace(s: string, w: string)
    requires AllWhiteSpace(w)
    ensures TrimEnd(s + w) == TrimEnd(s)
  {
    TrailingBeforeWhiteSpace(s, w);
    assert (s + w)[..|s|] == s;
    assert (s + w)[..TrailingWhiteSpace(s)] == (s + w)[..|s|][..TrailingWhiteSpace(s)];
  }

  /** A whitespace run behind does not move where the trailing whitespace begins. */
  lemma {:induction false} TrailingBeforeWhiteSpace(s: string, w: string)
    requires AllWhiteSpace(w)
    ensures TrailingWhiteSpace(s + w) == TrailingWhiteSpace(s)
  {
    if w != [] {
      assert (s + w)[|s + w| - 1] == w[|w| - 1] && (s + w)[..|s + w| - 1] == s + w[..|w| - 1];
      TrailingBeforeWhiteSpace(s, w[..|w| - 1]);
    } else {
      assert s + w == s;
    }
  }

  /** `TrimStart` leaves a string that does not start with whitespace as it is. */
  lemma TrimStartKeeps(s: string)
    requires s != [] && !IsWhiteSpace(s[0])
    ensures TrimStart(s) == s
  {
  }

  /** `TrimEnd` leaves a string that does not end with whitespace as it is. */
  lemma TrimEndKeeps(s: string)
    requires s != [] && !IsWhiteSpace(s[|s| - 1])
    ensures TrimEnd(s) == s
  {
  }

  /** `trim` leaves a trimmed string as it is, and strips any whitespace around it. */
  lemma TrimAround(w1: string, s: string, w2: string)
    requires AllWhiteSpace(w1) && AllWhiteSpace(w2) && IsTrimmed(s)
    ensures Trim(w1 + s + w2) == s
  {
    ConcatAssoc(w1, s, w2);
    TrimStartAfterWhiteSpace(w1, s + w2);
    TrimOfTrailing(s, w2);
  }

  /** `trim` of a trimmed string followed by whitespace gives the string. */
  lemma TrimOfTrailing(s: string, w: string)
    requires AllWhiteSpace(w) && IsTrimmed(s)
    ensures TrimEnd(TrimStart(s + w)) == s
  {
    if s == [] {
      assert s + w == w + [];
      TrimStartAfterWhiteSpace(w, []);
    } else {
      assert (s + w)[0] == s[0];
      TrimStartKeeps(s + w);
      TrimEndBeforeWhiteSpace(s, w);
      TrimEndKeeps(s);
    }
  }

  /** Concatenation is associative. */
  lemma ConcatAssoc(a: string, b: string, c: string)
    ensures a + b + c == a + (b + c)
  {
  }


  /** The middle of a concatenation is a piece of it. */
  lemma MiddleIsSlice(a: string, m: string, b: string)
    ensures IsSlice(m, a + m + b)
  {
    assert (a + m + b)[|a|..|a| + |m|] == m;
  }

  /** Equal strings with equal outer parts have equal middles. */
  lemma MiddleDetermined(a: string, m1: string, m2: string, b: string)
    requires a + m1 + b == a + m2 + b
    ensures m1 == m2
  {
    assert |m1| == |m2|;
    assert (a + m1 + b)[|a|..|a| + |m1|] == m1;
    assert (a + m2 + b)[|a|..|a| + |m2|] == m2;
  }

  /** A piece of a piece of `s` is a piece of `s`. */
  lemma SliceTransitive(r: string, t: string, s: string)
    requires IsSlice(r, t) && IsSlice(t, s)
    ensures IsSlice(r, s)
  {
    var i, j :| 0 <= i <= j <= |s| && s[i..j] == t;
    var k, l :| 0 <= k <= l <= |t| && t[k..l] == r;
    forall m | 0 <= m < l - k
      ensures s[i + k..i + l][m] == r[m]
    {
      assert s[i + k..i + l][m] == s[i + k + m];
      assert t[k..l][m] == t[k + m] == s[i + k + m];
    }
    assert s[i + k..i + l] == r;
  }

  /** A piece is never longer than the whole. */
  lemma SliceNoLonger(r: string, s: string)
    requires IsSlice(r, s)
    ensures |r| <= |s|
  {
    var i, j :| 0 <= i <= j <= |s| && s[i..j] == r;
  }

  /** Regroups six pieces into the argument shape `w1 + tag + gap1 + inner + gap2 + Fence + w2` of
      `GeminiService.CleanBareBlock` and `GeminiService.CleanJsonBlock`, with `w1`, `gap1`, `w2` empty and
      `inner` the middle three; `CleanKeepsUnknownTag` and `JsonTagTakesPrecedence` use it. */
  lemma Regroup6(a: string, b: string, c: string, d: string, e: string, f: string)
    ensures a + b + c + d + e + f == [] + a + [] + (b + c + d) + e + f + []
  {
  }

  /** Regroups seven pieces into the argument shape of `GeminiService.CleanBareBlock`, with `w1`, `w2`
      empty and `inner` the middle three; `CleanRemovesOneFencePair` uses it. */
  lemma Regroup7(a: string, b: string, c: string, d: string, e: string, f: string, g: string)
    ensures a + b + c + d + e + f + g == [] + a + b + (c + d + e) + f + g + []
  {
  }
}
