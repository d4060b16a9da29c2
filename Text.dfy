/** String helpers with Python's meaning: `str.isspace`, `str.strip` and the `in` operator on strings. */
module Text {

  /** The characters for which Python's `str.isspace()` is true. */
  predicate IsSpace(c: char) {
    var n := c as int;
    (0x09 <= n <= 0x0D) || (0x1C <= n <= 0x20) || n == 0x85 || n == 0xA0 || n == 0x1680
    || (0x2000 <= n <= 0x200A) || n == 0x2028 || n == 0x2029 || n == 0x202F
    || n == 0x205F || n == 0x3000
  }

  predicate AllSpace(s: string) {
    forall k :: 0 <= k < |s| ==> IsSpace(s[k])
  }

  /** `s.lstrip()`: the longest suffix of `s` that does not start with whitespace. */
  function TrimStart(s: string): (r: string)
    ensures |r| <= |s| && r == s[|s| - |r|..]
    ensures AllSpace(s[..|s| - |r|])
    ensures r == [] || !IsSpace(r[0])
  {
    if |s| > 0 && IsSpace(s[0]) then
      var r := TrimStart(s[1..]);
      assert s[1..][..|s| - 1 - |r|] == s[1..|s| - |r|];
      r
    else s
  }

  /** `s.rstrip()`: the longest prefix of `s` that does not end with whitespace. */
  function TrimEnd(s: string): (r: string)
    ensures |r| <= |s| && r == s[..|r|]
    ensures AllSpace(s[|r|..])
    ensures r == [] || !IsSpace(r[|r| - 1])
  {
    if |s| > 0 && IsSpace(s[|s| - 1]) then
      var r := TrimEnd(s[..|s| - 1]);
      assert s[..|s| - 1][|r|..] == s[|r|..|s| - 1];
      r
    else s
  }

  /** `s.strip()`. */
  function Strip(s: string): (r: string)
  {
    TrimEnd(TrimStart(s))
  }

  /** What `strip` keeps, for `t` the left-stripped `s` and `r` its right-stripped `t`: the slice
      of `s` that starts after the leading whitespace ... */
  lemma StripSlice(s: string, t: string, r: string)
    requires t == TrimStart(s) && r == TrimEnd(t)
    ensures r == Strip(s)
    ensures |s| - |t| + |r| <= |s| && r == s[|s| - |t|..|s| - |t| + |r|]
    ensures AllSpace(s[..|s| - |t|])
  {
    var n := |s| - |t|;
    assert AllSpace(s[..n]);
    SliceOfSuffix(s, t, r);
  }

  /** ... and is followed by whitespace only. */
  lemma StripTrailing(s: string, t: string, r: string)
    requires t == TrimStart(s) && r == TrimEnd(t)
    ensures |s| - |t| + |r| <= |s| && AllSpace(s[|s| - |t| + |r|..])
  {
    SliceOfSuffix(s, t, r);
    assert t[|r|..] == s[|s| - |t| + |r|..];
  }

  /** A prefix `r` of a suffix `t` of `s` sits in `s` where `t` starts. */
  lemma SliceOfSuffix(s: string, t: string, r: string)
    requires |t| <= |s| && t == s[|s| - |t|..]
    requires |r| <= |t| && r == t[..|r|]
    ensures r == s[|s| - |t|..|s| - |t| + |r|]
    ensures t[|r|..] == s[|s| - |t| + |r|..]
  {
  }

  /** What `strip` removes: the result neither starts nor ends with whitespace. */
  lemma StripEnds(s: string)
    ensures var r := Strip(s); r == [] || (!IsSpace(r[0]) && !IsSpace(r[|r| - 1]))
  {
    var t := TrimStart(s);
    var r := TrimEnd(t);
    if r != [] {
      assert r[0] == t[0];
    }
  }

  /** `strip` yields the empty string exactly when `s` is empty or all whitespace. */
  lemma StripEmptyIff(s: string)
    ensures Strip(s) == [] <==> AllSpace(s)
  {
    var t := TrimStart(s);
    if Strip(s) == [] {
      assert t[0..] == t;
      assert s == s[..|s| - |t|] + t;
    }
  }

  /** Stripping twice is stripping once. */
  lemma StripIdempotent(s: string)
    ensures Strip(Strip(s)) == Strip(s)
  {
    StripEnds(s);
    StripUnchanged(Strip(s));
  }

  /** A string that neither starts nor ends with whitespace is left as it is. */
  lemma StripUnchanged(s: string)
    requires s == [] || (!IsSpace(s[0]) && !IsSpace(s[|s| - 1]))
    ensures Strip(s) == s
  {
  }

  /** `p` occurs in `s` starting at position `i`. */
  predicate OccursAt(s: string, p: string, i: int) {
    0 <= i <= |s| - |p| && s[i..i + |p|] == p
  }

  /** Python's `p in s` for strings: `p` occurs in `s` as a contiguous substring. */
  predicate Contains(s: string, p: string) {
    exists i :: 0 <= i <= |s| - |p| && OccursAt(s, p, i)
  }

  /** Every string contains its prefixes. */
  lemma ContainsPrefix(s: string, p: string)
    requires |p| <= |s| && s[..|p|] == p
    ensures Contains(s, p)
  {
    assert OccursAt(s, p, 0);
  }

  /** An occurrence of a non-empty pattern puts its first character in `s`. */
  lemma ContainsFirstChar(s: string, p: string)
    requires p != []
    ensures Contains(s, p) ==> p[0] in s
  {
    if Contains(s, p) {
      var i :| 0 <= i <= |s| - |p| && OccursAt(s, p, i);
      assert s[i..i + |p|][0] == s[i];
    }
  }

  /** Lexicographic order by code point, as the database compares string fields. */
  predicate LexLess(a: string, b: string)
    decreases |a|
  {
    if a == [] then b != []
    else b != [] && (a[0] < b[0] || (a[0] == b[0] && LexLess(a[1..], b[1..])))
  }

  lemma {:induction false} LexLessAsymmetric(a: string, b: string)
    ensures LexLess(a, b) ==> !LexLess(b, a)
    decreases |a|
  {
    if a != [] && b != [] && a[0] == b[0] {
      LexLessAsymmetric(a[1..], b[1..]);
    }
  }

  lemma {:induction false} LexLessTotal(a: string, b: string)
    ensures a == b || LexLess(a, b) || LexLess(b, a)
    decreases |a|
  {
    if a != [] && b != [] && a[0] == b[0] {
      LexLessTotal(a[1..], b[1..]);
      if a[1..] == b[1..] {
        assert a == [a[0]] + a[1..] && b == [b[0]] + b[1..];
      }
    }
  }

  lemma {:induction false} LexLessTransitive(a: string, b: string, c: string)
    requires LexLess(a, b) && LexLess(b, c)
    ensures LexLess(a, c)
    decreases |a|
  {
    if a != [] && a[0] == b[0] && b[0] == c[0] {
      LexLessTransitive(a[1..], b[1..], c[1..]);
    }
  }

  /** "Not less than" is transitive too, so it orders strings from greatest to least. */
  lemma NotLessTransitive(a: string, b: string, c: string)
    requires !LexLess(a, b) && !LexLess(b, c)
    ensures !LexLess(a, c)
  {
    if LexLess(a, c) {
      LexLessTotal(a, b);
      if a != b {
        LexLessTransitive(b, a, c);
      }
    }
  }
}
