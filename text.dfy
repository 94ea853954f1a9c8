/**
 * The three pieces of Python string behaviour the scraper relies on:
 * `str.strip()` with no argument, `str.replace(old, new)`, and the decimal
 * rendering of an `int` inside an f-string.
 */
module Text {

  /** Python's `str.isspace()` for one character. */
  predicate IsSpace(c: char) {
    || ('\t' <= c <= '\r')
    || ('\U{1C}' <= c <= '\U{1F}')
    || c == ' ' || c == '\U{85}' || c == '\U{A0}' || c == '\U{1680}'
    || ('\U{2000}' <= c <= '\U{200A}')
    || c == '\U{2028}' || c == '\U{2029}' || c == '\U{202F}' || c == '\U{205F}' || c == '\U{3000}'
  }

  /** Neither empty nor starting or ending with whitespace. */
  predicate Clean(s: string) {
    s != [] && !IsSpace(s[0]) && !IsSpace(s[|s| - 1])
  }

  /** The suffix of `s` left after dropping its leading whitespace. */
  function TrimStart(s: string): (r: string)
    ensures |r| <= |s| && r == s[|s| - |r|..]
    ensures forall i :: 0 <= i < |s| - |r| ==> IsSpace(s[i])
    ensures r != [] ==> !IsSpace(r[0])
    decreases |s|
  {
    if s == [] then []
    else if IsSpace(s[0]) then TrimStart(s[1..])
    else s
  }

  /** The prefix of `s` left after dropping its trailing whitespace. */
  function TrimEnd(s: string): (r: string)
    ensures |r| <= |s| && r == s[..|r|]
    ensures forall i :: |r| <= i < |s| ==> IsSpace(s[i])
    ensures r != [] ==> !IsSpace(r[|r| - 1])
    decreases |s|
  {
    if s == [] then []
    else if IsSpace(s[|s| - 1]) then TrimEnd(s[..|s| - 1])
    else s
  }

  /**
   * Python's `s.strip()`: a slice of `s` obtained by dropping only whitespace
   * at either end, which is empty or starts and ends with a non-space.
   */
  function Strip(s: string): (r: string)
    ensures r == [] || Clean(r)
    ensures |r| <= |s|
    ensures exists i, j :: StrippedSlice(s, r, i, j)
  {
    var t := TrimStart(s);
    var r := TrimEnd(t);
    TrimmedSlice(s, t, r);
    r
  }

  /** `r` is `s[i..j]`, and everything of `s` outside that slice is whitespace. */
  predicate StrippedSlice(s: string, r: string, i: int, j: int) {
    && 0 <= i <= j <= |s| && r == s[i..j]
    && (forall k :: 0 <= k < i ==> IsSpace(s[k]))
    && (forall k :: j <= k < |s| ==> IsSpace(s[k]))
  }

  /** Trimming the start and then the end leaves a slice with only whitespace cut off. */
  lemma TrimmedSlice(s: string, t: string, r: string)
    requires t == TrimStart(s) && r == TrimEnd(t)
    ensures StrippedSlice(s, r, |s| - |t|, |s| - |t| + |r|)
  {
    SuffixPrefix(s, t, r);
  }

  /** A prefix `r` of a suffix `t` of `s` is a slice of `s`, and whitespace after `r` in `t` is whitespace in `s`. */
  lemma SuffixPrefix(s: string, t: string, r: string)
    requires |t| <= |s| && t == s[|s| - |t|..]
    requires |r| <= |t| && r == t[..|r|]
    requires forall k :: |r| <= k < |t| ==> IsSpace(t[k])
    ensures r == s[|s| - |t|..|s| - |t| + |r|]
    ensures forall k :: |s| - |t| + |r| <= k < |s| ==> IsSpace(s[k])
  {
    var i := |s| - |t|;
    forall k | i + |r| <= k < |s|
      ensures IsSpace(s[k])
    {
      assert s[k] == t[k - i];
    }
  }

  /** Stripping changes nothing when there is no whitespace at either end. */
  lemma StripKeepsClean(s: string)
    requires Clean(s)
    ensures Strip(s) == s
  {
    assert TrimStart(s) == s;
  }

  /** Stripping yields the empty string exactly when `s` is all whitespace. */
  lemma {:induction false} StripEmptyIff(s: string)
    ensures Strip(s) == [] <==> forall i :: 0 <= i < |s| ==> IsSpace(s[i])
  {
    var t := TrimStart(s);
    if t != [] {
      assert !IsSpace(s[|s| - |t|]);
      assert TrimEnd(t) != [];
    }
  }

  /** Whitespace appended after a word that ends in a non-space is stripped away. */
  lemma StripTrailingSpace(s: string)
    requires Clean(s)
    ensures Strip(s + " ") == s
  {
    var x := s + " ";
    assert TrimStart(x) == x;
    assert x[..|x| - 1] == s;
  }

  /** `s[i..i + |pat|]` is `pat`. */
  predicate OccursAt(s: string, pat: string, i: int) {
    0 <= i && i + |pat| <= |s| && s[i..i + |pat|] == pat
  }

  predicate Occurs(s: string, pat: string) {
    exists i | 0 <= i <= |s| :: OccursAt(s, pat, i)
  }

  /**
   * Python's `s.replace(pat, rep)`: every non-overlapping occurrence of
   * `pat`, scanning left to right, becomes `rep`; an empty `pat` inserts `rep`
   * before every character and at the end.
   */
  function Replace(s: string, pat: string, rep: string): (r: string)
    ensures pat != [] && |rep| == |pat| ==> |r| == |s|
    ensures pat == [] ==> |r| == |s| + (|s| + 1) * |rep|
    decreases |s|
  {
    if pat == [] then
      if s == [] then rep else rep + [s[0]] + Replace(s[1..], pat, rep)
    else if |s| < |pat| then s
    else if s[..|pat|] == pat then rep + Replace(s[|pat|..], pat, rep)
    else [s[0]] + Replace(s[1..], pat, rep)
  }

  /** A non-empty pattern that is not at the front: the first character is kept. */
  lemma ReplaceSkip(s: string, pat: string, rep: string)
    requires pat != [] && s != [] && !OccursAt(s, pat, 0)
    ensures Replace(s, pat, rep) == [s[0]] + Replace(s[1..], pat, rep)
  {
  }

  /** A non-empty pattern at the front: it becomes `rep` and the scan resumes after it. */
  lemma ReplaceAtFront(s: string, pat: string, rep: string)
    requires pat != [] && OccursAt(s, pat, 0)
    ensures Replace(s, pat, rep) == rep + Replace(s[|pat|..], pat, rep)
  {
  }

  /** Replacing a pattern by itself leaves the string as it was. */
  lemma {:induction false} ReplaceSelf(s: string, pat: string)
    ensures Replace(s, pat, pat) == s
    decreases |s|
  {
    if pat == [] {
      if s != [] {
        ReplaceSelf(s[1..], pat);
        assert Replace(s, pat, pat) == [s[0]] + Replace(s[1..], pat, pat);
        SplitJoin(s, 1, Replace(s, pat, pat), [s[0]], Replace(s[1..], pat, pat));
      }
    } else if |s| < |pat| {
    } else if s[..|pat|] == pat {
      ReplaceSelf(s[|pat|..], pat);
      ReplaceAtFront(s, pat, pat);
      SplitJoin(s, |pat|, Replace(s, pat, pat), pat, Replace(s[|pat|..], pat, pat));
    } else {
      ReplaceSelf(s[1..], pat);
      ReplaceSkip(s, pat, pat);
      SplitJoin(s, 1, Replace(s, pat, pat), [s[0]], Replace(s[1..], pat, pat));
    }
  }

  /** A sequence is its first `n` elements followed by the rest. */
  lemma SplitJoin<T>(s: seq<T>, n: int, a: seq<T>, p: seq<T>, b: seq<T>)
    requires 0 <= n <= |s| && a == p + b && p == s[..n] && b == s[n..]
    ensures a == s
  {
    assert s[..n] + s[n..] == s;
  }

  /** A non-empty pattern that does not occur leaves the string as it was, whatever `rep` is. */
  lemma {:induction false} ReplaceAbsent(s: string, pat: string, rep: string)
    requires pat != [] && !Occurs(s, pat)
    ensures Replace(s, pat, rep) == s
    decreases |s|
  {
    if |s| >= |pat| {
      assert !OccursAt(s, pat, 0);
      var t := s[1..];
      forall i | 0 <= i <= |t|
        ensures !OccursAt(t, pat, i)
      {
        assert !OccursAt(s, pat, i + 1);
        if i + |pat| <= |t| {
          assert t[i..i + |pat|] == s[i + 1..i + 1 + |pat|];
        }
      }
      assert !Occurs(t, pat);
      ReplaceAbsent(s[1..], pat, rep);
      assert [s[0]] + s[1..] == s;
    }
  }

  /** With no occurrence starting before `i`, the first `i` characters are kept. */
  lemma {:induction false} ReplaceKeepsPrefix(s: string, pat: string, rep: string, i: int)
    requires pat != [] && 0 <= i <= |s|
    requires forall k :: 0 <= k < i ==> !OccursAt(s, pat, k)
    ensures Replace(s, pat, rep) == s[..i] + Replace(s[i..], pat, rep)
    decreases i
  {
    if i == 0 {
      assert s[..0] + Replace(s[0..], pat, rep) == Replace(s, pat, rep) by {
        assert s[0..] == s;
      }
    } else {
      assert !OccursAt(s, pat, i - 1);
      ReplaceKeepsPrefix(s, pat, rep, i - 1);
      ReplaceKeepsPrefixStep(s, pat, rep, i);
    }
  }

  /** The inductive step of `ReplaceKeepsPrefix`: character `i - 1` is kept. */
  lemma ReplaceKeepsPrefixStep(s: string, pat: string, rep: string, i: int)
    requires pat != [] && 0 < i <= |s| && !OccursAt(s, pat, i - 1)
    requires Replace(s, pat, rep) == s[..i - 1] + Replace(s[i - 1..], pat, rep)
    ensures Replace(s, pat, rep) == s[..i] + Replace(s[i..], pat, rep)
  {
    var u := s[i - 1..];
    assert !OccursAt(u, pat, 0) by {
      if |pat| <= |u| {
        assert u[..|pat|] == s[i - 1..i - 1 + |pat|];
      }
    }
    ReplaceSkip(u, pat, rep);
    assert u[1..] == s[i..];
    SnocJoin(s, i, Replace(s, pat, rep), Replace(u, pat, rep), Replace(s[i..], pat, rep));
  }

  /** `p + ([s[i - 1]] + c)` with `p == s[..i - 1]` is `s[..i] + c`. */
  lemma SnocJoin<T>(s: seq<T>, i: int, a: seq<T>, b: seq<T>, c: seq<T>)
    requires 0 < i <= |s|
    requires a == s[..i - 1] + b && b == [s[i - 1]] + c
    ensures a == s[..i] + c
  {
    assert s[..i - 1] + [s[i - 1]] == s[..i];
  }

  /**
   * When the first occurrence of a non-empty pattern is at `i`, the text before
   * it is kept, that occurrence becomes `rep`, and the scan resumes after it.
   */
  lemma ReplaceFirst(s: string, pat: string, rep: string, i: int)
    requires pat != [] && OccursAt(s, pat, i)
    requires forall k :: 0 <= k < i ==> !OccursAt(s, pat, k)
    ensures Replace(s, pat, rep) == s[..i] + rep + Replace(s[i + |pat|..], pat, rep)
  {
    ReplaceKeepsPrefix(s, pat, rep, i);
    var u := s[i..];
    SliceOfSlice(s, i, |pat|);
    ReplaceAtFront(u, pat, rep);
    ConcatJoin(Replace(s, pat, rep), s[..i], Replace(u, pat, rep), rep, Replace(s[i + |pat|..], pat, rep));
  }

  /** Slices of `s[i..]` are slices of `s`. */
  lemma SliceOfSlice<T>(s: seq<T>, i: int, m: nat)
    requires 0 <= i && i + m <= |s|
    ensures s[i..][..m] == s[i..i + m]
    ensures s[i..][m..] == s[i + m..]
  {
  }

  /** Substituting `q + c` for `b` in `p + b`. */
  lemma ConcatJoin<T>(a: seq<T>, p: seq<T>, b: seq<T>, q: seq<T>, c: seq<T>)
    requires a == p + b && b == q + c
    ensures a == p + q + c
  {
  }

  function DigitChar(d: int): char
    requires 0 <= d < 10
  {
    "0123456789"[d]
  }

  /** Decimal digits of `n`, most significant first, without leading zeros. */
  function NatToDecimal(n: nat): (r: string)
    ensures r != []
    ensures forall i :: 0 <= i < |r| ==> '0' <= r[i] <= '9'
    ensures n > 0 ==> r[0] != '0'
    ensures |r| > 1 ==> r[0] != '0'
    decreases n
  {
    if n < 10 then [DigitChar(n)] else NatToDecimal(n / 10) + [DigitChar(n % 10)]
  }

  /** Python's `str(n)` for an `int`, as used by `f"page={n}"`. */
  function IntToDecimal(n: int): (r: string)
    ensures r != []
    ensures r[0] == '-' <==> n < 0
    ensures n >= 0 ==> (forall i :: 0 <= i < |r| ==> '0' <= r[i] <= '9') && DecimalValue(r) == n
    ensures n < 0 ==> (forall i :: 1 <= i < |r| ==> '0' <= r[i] <= '9') && DecimalValue(r[1..]) == -n
  {
    if n < 0 then
      NatToDecimalRoundTrip(-n);
      var d := NatToDecimal(-n);
      assert ("-" + d)[1..] == d;
      "-" + d
    else
      NatToDecimalRoundTrip(n);
      NatToDecimal(n)
  }

  /** The number a string of decimal digits denotes. */
  function DecimalValue(s: string): int
    requires forall i :: 0 <= i < |s| ==> '0' <= s[i] <= '9'
    decreases |s|
  {
    if s == [] then 0 else 10 * DecimalValue(s[..|s| - 1]) + (s[|s| - 1] as int - '0' as int)
  }

  /** Rendering a natural number in decimal loses nothing. */
  lemma {:induction false} NatToDecimalRoundTrip(n: nat)
    ensures DecimalValue(NatToDecimal(n)) == n
    decreases n
  {
    if n >= 10 {
      NatToDecimalRoundTrip(n / 10);
      var r := NatToDecimal(n);
      assert r[..|r| - 1] == NatToDecimal(n / 10);
    }
  }
}
