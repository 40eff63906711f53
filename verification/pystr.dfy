/** The Python `str` operations the story parser is built from, over `string`
    (a sequence of Unicode scalar values, as a Python `str` is a sequence of
    code points):
    - `p in s`              is Contains(s, p)
    - `s.count(p)`          is Occurrences(s, p)
    - `s.split(p)`          is Split(s, p)
    - `p.join(parts)`       is Join(parts, p)
    - `s.replace(p, '')`    is Remove(s, p)
    - `s.strip()`           is Strip(s)
    Every separator is non-empty: Python raises on `split('')`, and the source
    never splits or replaces on an empty tag. */
module PyStr {

  /** Python's `str.isspace` on one character: the 29 code points Python
      treats as whitespace (and therefore what `strip()` removes). */
  predicate IsSpace(c: char) {
    var n := c as int;
    || n == 0x20
    || 0x09 <= n <= 0x0D
    || 0x1C <= n <= 0x1F
    || n == 0x85 || n == 0xA0 || n == 0x1680
    || 0x2000 <= n <= 0x200A
    || n == 0x2028 || n == 0x2029 || n == 0x202F || n == 0x205F || n == 0x3000
  }

  /** Every character of s is whitespace. */
  predicate AllSpace(s: string)
    decreases |s|
  {
    |s| == 0 || (IsSpace(s[0]) && AllSpace(s[1..]))
  }

  lemma {:induction false} AllSpaceConcat(a: string, b: string)
    requires AllSpace(a) && AllSpace(b)
    ensures AllSpace(a + b)
    decreases |a|
  {
    if |a| > 0 {
      assert (a + b)[1..] == a[1..] + b;
      AllSpaceConcat(a[1..], b);
    } else {
      assert a + b == b;
    }
  }

  lemma {:induction false} AllSpaceSplit(a: string, b: string)
    requires AllSpace(a + b)
    ensures AllSpace(a) && AllSpace(b)
    decreases |a|
  {
    if |a| > 0 {
      assert (a + b)[1..] == a[1..] + b;
      AllSpaceSplit(a[1..], b);
    } else {
      assert a + b == b;
    }
  }

  /** Whitespace holds no non-whitespace character. */
  lemma {:induction false} AllSpaceLacks(w: string, c: char)
    requires AllSpace(w) && !IsSpace(c)
    ensures c !in w
    decreases |w|
  {
    if |w| > 0 {
      AllSpaceLacks(w[1..], c);
      assert w == [w[0]] + w[1..];
    }
  }

  /** No whitespace at either end: the shape `strip()` leaves behind. */
  predicate Stripped(s: string) {
    |s| == 0 || (!IsSpace(s[0]) && !IsSpace(s[|s| - 1]))
  }

  /** `s.lstrip()`: the suffix left after dropping leading whitespace. */
  function StripLeft(s: string): (r: string)
    ensures |r| <= |s| && r == s[|s| - |r|..]
    ensures AllSpace(s[..|s| - |r|])
    ensures |r| > 0 ==> !IsSpace(r[0])
    decreases |s|
  {
    if |s| > 0 && IsSpace(s[0]) then
      var r := StripLeft(s[1..]);
      assert s[..|s| - |r|] == [s[0]] + s[1..][..|s| - 1 - |r|];
      assert ([s[0]] + s[1..][..|s| - 1 - |r|])[1..] == s[1..][..|s| - 1 - |r|];
      r
    else
      s
  }

  /** `s.rstrip()`: the prefix left after dropping trailing whitespace. */
  function StripRight(s: string): (r: string)
    ensures |r| <= |s| && r == s[..|r|]
    ensures AllSpace(s[|r|..])
    ensures |r| > 0 ==> !IsSpace(r[|r| - 1])
    decreases |s|
  {
    if |s| > 0 && IsSpace(s[|s| - 1]) then
      var r := StripRight(s[..|s| - 1]);
      assert s[|r|..] == s[..|s| - 1][|r|..] + [s[|s| - 1]];
      assert AllSpace([s[|s| - 1]]) by { assert [s[|s| - 1]][1..] == []; }
      AllSpaceConcat(s[..|s| - 1][|r|..], [s[|s| - 1]]);
      r
    else
      s
  }

  /** `lstrip()` leaves something of a string that is not all whitespace. */
  lemma {:induction false} StripLeftKeepsContent(s: string)
    requires !AllSpace(s)
    ensures |StripLeft(s)| > 0
    decreases |s|
  {
    if |s| > 0 && IsSpace(s[0]) {
      StripLeftKeepsContent(s[1..]);
    }
  }

  /** `s.strip()`: s with its leading and trailing whitespace removed. */
  function Strip(s: string): (r: string)
    ensures Stripped(r)
    ensures |r| <= |s|
  {
    StripRight(StripLeft(s))
  }

  /** Stripping `w1 + r + w2`, with w1 and w2 whitespace and r stripped, gives
      back exactly r: Strip is determined by this decomposition. */
  lemma {:induction false} StripPadded(w1: string, r: string, w2: string)
    requires AllSpace(w1) && AllSpace(w2) && Stripped(r)
    ensures Strip(w1 + r + w2) == r
  {
    if |r| == 0 {
      assert w1 + r + w2 == w1 + w2 + "";
      AllSpaceConcat(w1, w2);
      StripLeftPadded(w1 + w2, "");
    } else {
      assert w1 + r + w2 == w1 + (r + w2);
      StripLeftPadded(w1, r + w2);
      StripRightPadded(r, w2);
    }
  }

  lemma {:induction false} StripLeftPadded(w: string, t: string)
    requires AllSpace(w)
    requires |t| > 0 ==> !IsSpace(t[0])
    ensures StripLeft(w + t) == t
    decreases |w|
  {
    if |w| > 0 {
      assert (w + t)[1..] == w[1..] + t;
      StripLeftPadded(w[1..], t);
    } else {
      assert w + t == t;
    }
  }

  lemma {:induction false} StripRightPadded(t: string, w: string)
    requires AllSpace(w)
    requires |t| > 0 ==> !IsSpace(t[|t| - 1])
    ensures StripRight(t + w) == t
    decreases |w|
  {
    if |w| > 0 {
      assert w == w[..|w| - 1] + [w[|w| - 1]];
      AllSpaceSplit(w[..|w| - 1], [w[|w| - 1]]);
      assert (t + w)[..|t + w| - 1] == t + w[..|w| - 1];
      StripRightPadded(t, w[..|w| - 1]);
    } else {
      assert t + w == t;
    }
  }

  /** A stripped string is its own strip; in particular Strip is idempotent. */
  lemma {:induction false} StripOfStripped(s: string)
    requires Stripped(s)
    ensures Strip(s) == s
  {
    StripPadded("", s, "");
    assert "" + s + "" == s;
  }

  lemma {:induction false} StripIdempotent(s: string)
    ensures Strip(Strip(s)) == Strip(s)
  {
    StripOfStripped(Strip(s));
  }

  /** Every string is leading whitespace, its strip, trailing whitespace. */
  lemma {:induction false} StripDecompose(s: string) returns (w1: string, w2: string)
    ensures AllSpace(w1) && AllSpace(w2)
    ensures s == w1 + Strip(s) + w2
  {
    var l := StripLeft(s);
    var r := StripRight(l);
    w1 := s[..|s| - |l|];
    w2 := l[|r|..];
    Halves(s, |s| - |l|);
    Halves(l, |r|);
    assert Strip(s) == r;
    Associate(w1, r, w2);
  }

  lemma Halves(s: string, k: nat)
    requires k <= |s|
    ensures s == s[..k] + s[k..]
  {
  }

  lemma EmptyRight(a: string)
    ensures a + "" == a
  {
  }

  lemma EmptyLeft(a: string)
    ensures "" + a == a
  {
  }

  lemma Associate(a: string, b: string, c: string)
    ensures a + (b + c) == a + b + c
  {
  }

  /** Whitespace added at either end does not change the strip. */
  lemma {:induction false} StripAbsorbs(w1: string, s: string, w2: string)
    requires AllSpace(w1) && AllSpace(w2)
    ensures Strip(w1 + s + w2) == Strip(s)
  {
    var v1, v2 := StripDecompose(s);
    var c := Strip(s);
    AllSpaceConcat(w1, v1);
    AllSpaceConcat(v2, w2);
    Reassociate(w1, v1, c, v2, w2);
    StripPadded(w1 + v1, c, v2 + w2);
  }

  lemma Reassociate(a: string, b: string, c: string, d: string, e: string)
    ensures a + (b + c + d) + e == (a + b) + c + (d + e)
  {
  }

  /** `strip()` leaves nothing exactly when the text is all whitespace. */
  lemma {:induction false} StripEmptyIffAllSpace(s: string)
    ensures Strip(s) == "" <==> AllSpace(s)
  {
    if AllSpace(s) {
      assert s + "" + "" == s;
      StripPadded(s, "", "");
    } else {
      var l := StripLeft(s);
      StripLeftKeepsContent(s);
      assert StripRight(l) != "" by { assert l[0..] == l; }
    }
  }

  /** `lstrip` stops at the first non-whitespace character, so text after it
      is kept as is. */
  lemma {:induction false} StripLeftConcat(a: string, y: string)
    requires |y| > 0 && !IsSpace(y[0])
    ensures StripLeft(a + y) == StripLeft(a) + y
    decreases |a|
  {
    if |a| == 0 {
      assert a + y == y;
    } else {
      assert (a + y)[0] == a[0];
      if IsSpace(a[0]) {
        assert (a + y)[1..] == a[1..] + y;
        StripLeftConcat(a[1..], y);
      }
    }
  }

  /** The mirror image: `rstrip` keeps text before the last non-whitespace
      character as is. */
  lemma {:induction false} StripRightConcat(y: string, a: string)
    requires |y| > 0 && !IsSpace(y[|y| - 1])
    ensures StripRight(y + a) == y + StripRight(a)
    decreases |a|
  {
    if |a| == 0 {
      assert y + a == y;
    } else {
      assert (y + a)[|y + a| - 1] == a[|a| - 1];
      if IsSpace(a[|a| - 1]) {
        assert (y + a)[..|y + a| - 1] == y + a[..|a| - 1];
        StripRightConcat(y, a[..|a| - 1]);
      }
    }
  }
  /** Stripping text whose middle starts and ends in non-whitespace only
      touches the outer ends. */
  lemma {:induction false} StripAround(a: string, y: string, c: string)
    requires |y| > 0 && !IsSpace(y[0]) && !IsSpace(y[|y| - 1])
    ensures Strip(a + y + c) == StripLeft(a) + y + StripRight(c)
  {
    assert (y + c)[0] == y[0];
    assert a + y + c == a + (y + c);
    StripLeftConcat(a, y + c);
    var ly := StripLeft(a) + y;
    assert StripLeft(a) + (y + c) == ly + c;
    assert ly[|ly| - 1] == y[|y| - 1];
    StripRightConcat(ly, c);
  }


  /** Gluing two stripped strings gives a stripped string. */
  lemma StrippedConcat(a: string, b: string)
    requires Stripped(a) && Stripped(b)
    ensures Stripped(a + b)
  {
  }

  // ---------------------------------------------------------------------
  // Substring search

  predicate IsPrefix(p: string, s: string) {
    |p| <= |s| && s[..|p|] == p
  }

  /** `p in s`. */
  predicate Contains(s: string, p: string)
    ensures Contains(s, p) ==> |p| <= |s|
    decreases |s|
  {
    IsPrefix(p, s) || (|s| > 0 && Contains(s[1..], p))
  }

  lemma {:induction false} ContainsInPrefix(s: string, k: nat, p: string)
    requires k <= |s| && Contains(s[..k], p)
    ensures Contains(s, p)
    decreases |s|
  {
    if !IsPrefix(p, s[..k]) {
      assert s[..k][1..] == s[1..][..k - 1];
      ContainsInPrefix(s[1..], k - 1, p);
    }
  }

  lemma {:induction false} ContainsInSuffix(s: string, k: nat, p: string)
    requires k <= |s| && Contains(s[k..], p)
    ensures Contains(s, p)
    decreases k
  {
    if k > 0 {
      assert s[k..] == s[1..][k - 1..];
      ContainsInSuffix(s[1..], k - 1, p);
    }
  }

  /** Whatever occurs in Strip(s) occurs in s. */
  lemma {:induction false} ContainsInStrip(s: string, p: string)
    requires Contains(Strip(s), p)
    ensures Contains(s, p)
  {
    var l := StripLeft(s);
    var r := StripRight(l);
    ContainsInPrefix(l, |r|, p);
    ContainsInSuffix(s, |s| - |l|, p);
  }

  /** A needle that starts and ends with non-whitespace survives stripping. */
  lemma {:induction false} StripKeepsContains(s: string, p: string)
    requires |p| > 0 && !IsSpace(p[0]) && !IsSpace(p[|p| - 1])
    requires Contains(s, p)
    ensures Contains(Strip(s), p)
  {
    StripLeftKeepsContains(s, p);
    StripRightKeepsContains(StripLeft(s), p);
  }

  lemma {:induction false} StripLeftKeepsContains(s: string, p: string)
    requires |p| > 0 && !IsSpace(p[0])
    requires Contains(s, p)
    ensures Contains(StripLeft(s), p)
    decreases |s|
  {
    if |s| > 0 && IsSpace(s[0]) {
      assert !IsPrefix(p, s) by { if |p| <= |s| { assert s[..|p|][0] == s[0]; } }
      StripLeftKeepsContains(s[1..], p);
    }
  }

  lemma {:induction false} StripRightKeepsContains(s: string, p: string)
    requires |p| > 0 && !IsSpace(p[|p| - 1])
    requires Contains(s, p)
    ensures Contains(StripRight(s), p)
    decreases |s|
  {
    if |s| > 0 && IsSpace(s[|s| - 1]) {
      DropTrailingSpace(s, p);
      StripRightKeepsContains(s[..|s| - 1], p);
    }
  }

  lemma {:induction false} DropTrailingSpace(s: string, p: string)
    requires |p| > 0 && !IsSpace(p[|p| - 1])
    requires |s| > 0 && IsSpace(s[|s| - 1])
    requires Contains(s, p)
    ensures Contains(s[..|s| - 1], p)
    decreases |s|
  {
    if IsPrefix(p, s) {
      assert |p| < |s| by { assert s[..|p|][|p| - 1] == s[|p| - 1]; }
      assert s[..|s| - 1][..|p|] == s[..|p|];
    } else {
      DropTrailingSpace(s[1..], p);
      assert s[1..][..|s| - 2] == s[..|s| - 1][1..];
    }
  }

  /** A needle that is longer than the haystack never occurs in it. */
  lemma {:induction false} ShortNeverContains(s: string, p: string)
    requires |s| < |p|
    ensures !Contains(s, p)
    decreases |s|
  {
    if |s| > 0 {
      ShortNeverContains(s[1..], p);
    }
  }

  /** A needle whose first character never appears in s does not occur in s. */
  lemma {:induction false} HeadAbsentNeverContains(s: string, p: string)
    requires |p| > 0 && p[0] !in s
    ensures !Contains(s, p)
    decreases |s|
  {
    if |s| > 0 {
      assert !IsPrefix(p, s) by { if |p| <= |s| { assert s[..|p|][0] == s[0]; } }
      HeadAbsentNeverContains(s[1..], p);
    }
  }

  /** Skipping a stretch w that does not contain the needle's first character
      keeps every occurrence. */
  lemma {:induction false} ContainsSkipHead(w: string, t: string, p: string)
    requires |p| > 0 && p[0] !in w
    requires Contains(w + t, p)
    ensures Contains(t, p)
    decreases |w|
  {
    if |w| > 0 {
      assert !IsPrefix(p, w + t) by { if |p| <= |w + t| { assert (w + t)[..|p|][0] == w[0]; } }
      assert (w + t)[1..] == w[1..] + t;
      ContainsSkipHead(w[1..], t, p);
    } else {
      assert w + t == t;
    }
  }

  /** Gluing a p-free string t that opens with p's first character onto a
      p-free x creates no occurrence of a head-unique p across the seam. */
  lemma {:induction false} NoStraddle(x: string, t: string, p: string)
    requires HeadUnique(p)
    requires !Contains(x, p) && !Contains(t, p)
    requires |t| > 0 && t[0] == p[0]
    ensures !Contains(x + t, p)
    decreases |x|
  {
    if |x| == 0 {
      assert x + t == t;
    } else {
      var u := x + t;
      assert !IsPrefix(p, u) by {
        if |p| <= |x| {
          assert u[..|p|] == x[..|p|];
        } else {
          assert u[|x|] == p[0];
          assert |p| <= |u| ==> u[..|p|][|x|] == u[|x|];
        }
      }
      assert u[1..] == x[1..] + t;
      NoStraddle(x[1..], t, p);
    }
  }

  /** If s contains q it contains every prefix of q. */
  lemma {:induction false} ContainsPrefixOfNeedle(s: string, p: string, q: string)
    requires IsPrefix(p, q) && Contains(s, q)
    ensures Contains(s, p)
    decreases |s|
  {
    if IsPrefix(q, s) {
      assert s[..|p|] == q[..|p|];
    } else {
      ContainsPrefixOfNeedle(s[1..], p, q);
    }
  }

  // ---------------------------------------------------------------------
  // Splitting, joining, counting, removing

  /** `s.count(p)`: non-overlapping occurrences, scanning left to right. */
  function Occurrences(s: string, p: string): (n: nat)
    requires |p| > 0
    ensures n > 0 ==> Contains(s, p)
    decreases |s|
  {
    if |s| == 0 then 0
    else if IsPrefix(p, s) then 1 + Occurrences(s[|p|..], p)
    else Occurrences(s[1..], p)
  }

  /** `s.split(p)`: the pieces between the non-overlapping occurrences of p,
      found left to right. There is always at least one piece. */
  function Split(s: string, p: string): (parts: seq<string>)
    requires |p| > 0
    ensures |parts| > 0
    decreases |s|
  {
    if |s| == 0 then [""]
    else if IsPrefix(p, s) then [""] + Split(s[|p|..], p)
    else
      var rest := Split(s[1..], p);
      [[s[0]] + rest[0]] + rest[1..]
  }

  /** `p.join(parts)`. */
  function Join(parts: seq<string>, p: string): string
    requires |parts| > 0
    decreases |parts|
  {
    if |parts| == 1 then parts[0] else parts[0] + p + Join(parts[1..], p)
  }

  /** `s.replace(p, '')`: every non-overlapping occurrence of p, found left to
      right, is dropped. */
  function Remove(s: string, p: string): (r: string)
    requires |p| > 0
    ensures |r| <= |s|
    decreases |s|
  {
    if |s| == 0 then ""
    else if IsPrefix(p, s) then Remove(s[|p|..], p)
    else [s[0]] + Remove(s[1..], p)
  }

  /** Splitting and re-joining with the same separator gives s back. */
  lemma {:induction false} JoinSplit(s: string, p: string)
    requires |p| > 0
    ensures Join(Split(s, p), p) == s
    decreases |s|
  {
    if |s| == 0 {
    } else if IsPrefix(p, s) {
      var rest := Split(s[|p|..], p);
      JoinSplit(s[|p|..], p);
      JoinCons("", rest, p);
      PrefixThenRest(p, s);
    } else {
      var rest := Split(s[1..], p);
      JoinSplit(s[1..], p);
      JoinGrowFirst(s[0], rest, p);
      assert s == [s[0]] + s[1..];
    }
  }

  lemma PrefixThenRest(p: string, s: string)
    requires IsPrefix(p, s)
    ensures "" + p + s[|p|..] == s
  {
    assert s == s[..|p|] + s[|p|..];
  }

  /** The first piece of a split is a prefix of the string split. */
  lemma {:induction false} SplitFirstIsPrefix(s: string, p: string)
    requires |p| > 0
    ensures IsPrefix(Split(s, p)[0], s)
  {
    var parts := Split(s, p);
    JoinSplit(s, p);
    if |parts| > 1 {
      var tail := p + Join(parts[1..], p);
      assert s == parts[0] + tail;
      assert s[..|parts[0]|] == parts[0];
    }
  }

  lemma JoinCons(a: string, rest: seq<string>, p: string)
    requires |rest| > 0
    ensures Join([a] + rest, p) == a + p + Join(rest, p)
  {
    assert ([a] + rest)[1..] == rest;
  }

  /** Extending the first piece by one character extends the joined string by
      that character. */
  lemma JoinGrowFirst(c: char, parts: seq<string>, p: string)
    requires |parts| > 0
    ensures Join([[c] + parts[0]] + parts[1..], p) == [c] + Join(parts, p)
  {
    if |parts| > 1 {
      JoinCons([c] + parts[0], parts[1..], p);
      JoinCons(parts[0], parts[1..], p);
      assert [parts[0]] + parts[1..] == parts;
    }
  }

  /** No piece of a split contains the separator. */
  lemma {:induction false} SplitPiecesFree(s: string, p: string)
    requires |p| > 0
    ensures forall i :: 0 <= i < |Split(s, p)| ==> !Contains(Split(s, p)[i], p)
    decreases |s|
  {
    if |s| == 0 {
      assert !Contains("", p);
    } else if IsPrefix(p, s) {
      SplitPiecesFree(s[|p|..], p);
      assert !Contains("", p);
      var parts := Split(s, p);
      forall i | 0 <= i < |parts| ensures !Contains(parts[i], p) {
        if i > 0 {
          assert parts[i] == Split(s[|p|..], p)[i - 1];
        }
      }
    } else {
      var rest := Split(s[1..], p);
      SplitPiecesFree(s[1..], p);
      var first := [s[0]] + rest[0];
      assert first[1..] == rest[0];
      assert !IsPrefix(p, first) by {
        SplitFirstIsPrefix(s[1..], p);
        assert s[..|first|] == first;
        assert |p| <= |first| ==> s[..|p|] == first[..|p|];
      }
      var parts := Split(s, p);
      forall i | 0 <= i < |parts| ensures !Contains(parts[i], p) {
        if i > 0 {
          assert parts[i] == rest[i];
        }
      }
    }
  }

  /** Whatever occurs in one piece occurs in the joined string. */
  lemma {:induction false} PieceInJoin(parts: seq<string>, i: nat, p: string, q: string)
    requires i < |parts| && Contains(parts[i], q)
    ensures Contains(Join(parts, p), q)
    decreases |parts|
  {
    if |parts| > 1 {
      var j := Join(parts, p);
      if i == 0 {
        assert j[..|parts[0]|] == parts[0];
        ContainsInPrefix(j, |parts[0]|, q);
      } else {
        PieceInJoin(parts[1..], i - 1, p, q);
        assert j[|parts[0]| + |p|..] == Join(parts[1..], p);
        ContainsInSuffix(j, |parts[0]| + |p|, q);
      }
    }
  }

  /** The pieces of a split inherit every absence from the string split. */
  lemma {:induction false} SplitPiecesInherit(s: string, p: string, q: string)
    requires |p| > 0 && !Contains(s, q)
    ensures forall i :: 0 <= i < |Split(s, p)| ==> !Contains(Split(s, p)[i], q)
  {
    var parts := Split(s, p);
    JoinSplit(s, p);
    forall i | 0 <= i < |parts| ensures !Contains(parts[i], q) {
      if Contains(parts[i], q) {
        PieceInJoin(parts, i, p, q);
      }
    }
  }

  /** Stripping keeps every absence. */
  lemma {:induction false} StripKeepsAbsence(s: string, q: string)
    requires !Contains(s, q)
    ensures !Contains(Strip(s), q)
  {
    if Contains(Strip(s), q) {
      ContainsInStrip(s, q);
    }
  }

  /** Whitespace appended after a text creates no occurrence of a needle
      that ends in non-whitespace. */
  lemma {:induction false} TrailingSpaceKeepsAbsence(t: string, w: string, p: string)
    requires AllSpace(w) && |p| > 0 && !IsSpace(p[|p| - 1])
    requires !Contains(t, p)
    ensures !Contains(t + w, p)
    decreases |w|
  {
    if |w| > 0 {
      var w' := w[..|w| - 1];
      assert w == w' + [w[|w| - 1]];
      AllSpaceSplit(w', [w[|w| - 1]]);
      TrailingSpaceKeepsAbsence(t, w', p);
      var s := t + w;
      assert s[..|s| - 1] == t + w';
      if Contains(s, p) {
        DropTrailingSpace(s, p);
      }
    } else {
      assert t + w == t;
    }
  }

  /** `lstrip` and `rstrip` leave a part of the text, so they never create a
      needle occurrence. */
  lemma {:induction false} StripLeftKeepsAbsence(s: string, q: string)
    requires !Contains(s, q)
    ensures !Contains(StripLeft(s), q)
  {
    if Contains(StripLeft(s), q) {
      ContainsInSuffix(s, |s| - |StripLeft(s)|, q);
    }
  }

  lemma {:induction false} StripRightKeepsAbsence(s: string, q: string)
    requires !Contains(s, q)
    ensures !Contains(StripRight(s), q)
  {
    if Contains(StripRight(s), q) {
      ContainsInPrefix(s, |StripRight(s)|, q);
    }
  }

  /** Stripping after `lstrip` or `rstrip` is stripping the original. */
  lemma {:induction false} StripOfStripLeft(s: string)
    ensures Strip(StripLeft(s)) == Strip(s)
  {
    var l := StripLeft(s);
    var w := s[..|s| - |l|];
    Halves(s, |s| - |l|);
    EmptyRight(w + l);
    StripAbsorbs(w, l, "");
  }

  lemma {:induction false} StripOfStripRight(s: string)
    ensures Strip(StripRight(s)) == Strip(s)
  {
    var r := StripRight(s);
    var w := s[|r|..];
    Halves(s, |r|);
    EmptyLeft(r);
    StripAbsorbs("", r, w);
  }

  /** `s.split(p)` has exactly `s.count(p) + 1` pieces. */
  lemma {:induction false} SplitCount(s: string, p: string)
    requires |p| > 0
    ensures |Split(s, p)| == Occurrences(s, p) + 1
    decreases |s|
  {
    if |s| == 0 {
    } else if IsPrefix(p, s) {
      SplitCount(s[|p|..], p);
    } else {
      SplitCount(s[1..], p);
    }
  }

  /** p occurs in s exactly when splitting on it cuts s into two or more pieces. */
  lemma {:induction false} SplitCutsIffContains(s: string, p: string)
    requires |p| > 0
    ensures Contains(s, p) <==> |Split(s, p)| >= 2
    decreases |s|
  {
    if |s| == 0 {
    } else if IsPrefix(p, s) {
    } else {
      SplitCutsIffContains(s[1..], p);
    }
  }

  /** A string free of p splits into itself alone. */
  lemma {:induction false} SplitFree(s: string, p: string)
    requires |p| > 0 && !Contains(s, p)
    ensures Split(s, p) == [s]
    decreases |s|
  {
    if |s| > 0 {
      SplitFree(s[1..], p);
      assert [s[0]] + s[1..] == s;
    }
  }

  /** A separator whose first character does not recur inside it. */
  predicate HeadUnique(p: string) {
    |p| > 0 && p[0] !in p[1..]
  }

  /** With such a separator, an occurrence written between s and t is always a
      cut: `(s + p + t).split(p) == s.split(p) + t.split(p)`. */
  lemma {:induction false} SplitAround(s: string, t: string, p: string)
    requires HeadUnique(p)
    ensures Split(s + p + t, p) == Split(s, p) + Split(t, p)
    decreases |s|
  {
    var u := s + p + t;
    if |s| == 0 {
      assert u == p + t;
      assert u[..|p|] == p;
      assert u[|p|..] == t;
    } else if IsPrefix(p, s) {
      assert u[..|p|] == p;
      assert u[|p|..] == s[|p|..] + p + t;
      SplitAround(s[|p|..], t, p);
      assert Split(u, p) == [""] + (Split(s[|p|..], p) + Split(t, p));
    } else {
      assert !IsPrefix(p, u) by {
        if |p| <= |s| {
          assert u[..|p|] == s[..|p|];
        } else {
          assert u[|s|] == p[0];
          assert u[..|p|][|s|] == u[|s|];
        }
      }
      assert u[1..] == s[1..] + p + t;
      SplitAround(s[1..], t, p);
      var rs := Split(s[1..], p);
      var rt := Split(t, p);
      assert (rs + rt)[0] == rs[0];
      assert (rs + rt)[1..] == rs[1..] + rt;
      assert Split(u, p) == [[s[0]] + rs[0]] + (rs[1..] + rt) by { assert u[0] == s[0]; }
    }
  }

  /** Two p-free strings with p between them split back into the two. */
  lemma {:induction false} SplitTwo(a: string, b: string, p: string)
    requires HeadUnique(p) && !Contains(a, p) && !Contains(b, p)
    ensures Split(a + p + b, p) == [a, b]
  {
    SplitAround(a, b, p);
    SplitFree(a, p);
    SplitFree(b, p);
  }

  /** Three p-free strings with p between them split back into the three. */
  lemma {:induction false} SplitThree(a: string, b: string, c: string, p: string)
    requires HeadUnique(p) && !Contains(a, p) && !Contains(b, p) && !Contains(c, p)
    ensures Split(a + p + b + p + c, p) == [a, b, c]
  {
    assert a + p + b + p + c == a + p + (b + p + c);
    SplitAround(a, b + p + c, p);
    SplitFree(a, p);
    SplitTwo(b, c, p);
  }

  /** Join over a concatenation of piece lists. */
  lemma {:induction false} JoinAppend(a: seq<string>, b: seq<string>, p: string)
    requires |a| > 0 && |b| > 0
    ensures Join(a + b, p) == Join(a, p) + p + Join(b, p)
    decreases |a|
  {
    if |a| == 1 {
      assert (a + b)[1..] == b;
    } else {
      assert (a + b)[1..] == a[1..] + b;
      JoinAppend(a[1..], b, p);
    }
  }

  /** Removal is splitting on p and gluing the pieces back with nothing
      between them, as Python's `s.replace(p, '')` is `''.join(s.split(p))`. */
  lemma {:induction false} RemoveIsJoinedSplit(s: string, p: string)
    requires |p| > 0
    ensures Remove(s, p) == Join(Split(s, p), "")
    decreases |s|
  {
    if |s| == 0 {
    } else if IsPrefix(p, s) {
      RemoveIsJoinedSplit(s[|p|..], p);
      var rest := Split(s[|p|..], p);
      assert ([""] + rest)[1..] == rest;
    } else {
      RemoveIsJoinedSplit(s[1..], p);
      var rest := Split(s[1..], p);
      var parts := [[s[0]] + rest[0]] + rest[1..];
      if |rest| > 1 {
        assert parts[1..] == rest[1..];
      }
    }
  }

  /** Removing p from a string free of p changes nothing. */
  lemma {:induction false} RemoveFree(s: string, p: string)
    requires |p| > 0 && !Contains(s, p)
    ensures Remove(s, p) == s
  {
    RemoveIsJoinedSplit(s, p);
    SplitFree(s, p);
  }

  /** With a head-unique p, removal distributes over an occurrence written
      between s and t. */
  lemma {:induction false} RemoveAround(s: string, t: string, p: string)
    requires HeadUnique(p)
    ensures Remove(s + p + t, p) == Remove(s, p) + Remove(t, p)
  {
    RemoveIsJoinedSplit(s + p + t, p);
    RemoveIsJoinedSplit(s, p);
    RemoveIsJoinedSplit(t, p);
    SplitAround(s, t, p);
    JoinAppend(Split(s, p), Split(t, p), "");
  }

  /** Removing a head-unique p from `p + x`, with x free of p, leaves x. */
  lemma {:induction false} RemoveLeadingOnly(x: string, p: string)
    requires HeadUnique(p) && !Contains(x, p)
    ensures Remove(p + x, p) == x
  {
    assert p + x == "" + p + x;
    RemoveAround("", x, p);
    RemoveFree(x, p);
  }

  /** Removing a head-unique p from `x + p + y`, with x and y free of p, leaves x + y. */
  lemma {:induction false} RemoveInnerOnly(x: string, y: string, p: string)
    requires HeadUnique(p) && !Contains(x, p) && !Contains(y, p)
    ensures Remove(x + p + y, p) == x + y
  {
    RemoveAround(x, y, p);
    RemoveFree(x, p);
    RemoveFree(y, p);
  }

  /** Removing one needle never destroys an occurrence of another, as long as
      both start with a character c that appears nowhere else in either and
      they differ in their second character. */
  lemma {:induction false} RemoveKeepsOther(s: string, p: string, q: string)
    requires |p| >= 2 && |q| >= 2 && p[0] == q[0] && p[1] != q[1]
    requires HeadUnique(p) && HeadUnique(q)
    requires Contains(s, q)
    ensures Contains(Remove(s, p), q)
    decreases |s|
  {
    if IsPrefix(q, s) {
      assert !IsPrefix(p, s) by {
        assert s[..|q|][1] == s[1];
        assert |p| <= |s| ==> s[..|p|][1] == s[1];
      }
      var w := q[1..];
      assert s[1..] == w + s[|q|..];
      RemoveAfterHeadless(w, s[|q|..], p);
      assert Remove(s, p) == [s[0]] + w + Remove(s[|q|..], p);
      assert Remove(s, p)[..|q|] == q;
    } else if IsPrefix(p, s) {
      var w := p[1..];
      assert s[1..] == w + s[|p|..];
      ContainsSkipHead(w, s[|p|..], q);
      RemoveKeepsOther(s[|p|..], p, q);
    } else {
      RemoveKeepsOther(s[1..], p, q);
      ContainsInSuffix(Remove(s, p), 1, q);
    }
  }

  lemma {:induction false} RemoveAfterHeadless(w: string, t: string, p: string)
    requires |p| > 0 && p[0] !in w
    ensures Remove(w + t, p) == w + Remove(t, p)
    decreases |w|
  {
    if |w| > 0 {
      assert !IsPrefix(p, w + t) by { if |p| <= |w + t| { assert (w + t)[..|p|][0] == w[0]; } }
      assert (w + t)[1..] == w[1..] + t;
      RemoveAfterHeadless(w[1..], t, p);
    } else {
      assert w + t == t;
    }
  }
}
