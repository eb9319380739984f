/**
 * The Python string operations the crawler relies on, over `string` (a sequence
 * of Unicode scalar values, which is what a Python `str` indexes).
 */
module Text {

  /** `s.startswith(prefix)`. */
  predicate StartsWith(s: string, prefix: string) {
    |prefix| <= |s| && s[..|prefix|] == prefix
  }

  /** `s.endswith(suffix)`. */
  predicate EndsWith(s: string, suffix: string) {
    |suffix| <= |s| && s[|s| - |suffix|..] == suffix
  }

  /** `s.rstrip(chars)`: the longest prefix of `s` that does not end in one of `cs`
      and after which only characters of `cs` follow. */
  function RStrip(s: string, cs: set<char>): (r: string)
    ensures |r| <= |s| && r == s[..|r|]
    ensures r == [] || r[|r| - 1] !in cs
    ensures forall i :: |r| <= i < |s| ==> s[i] in cs
    decreases |s|
  {
    if s != [] && s[|s| - 1] in cs then RStrip(s[..|s| - 1], cs) else s
  }

  /** `s.lstrip(chars)`: the longest suffix of `s` that does not start with one of `cs`
      and before which only characters of `cs` stand. */
  function LStrip(s: string, cs: set<char>): (r: string)
    ensures |r| <= |s| && r == s[|s| - |r|..]
    ensures r == [] || r[0] !in cs
    ensures forall i :: 0 <= i < |s| - |r| ==> s[i] in cs
    decreases |s|
  {
    if s != [] && s[0] in cs then LStrip(s[1..], cs) else s
  }

  /** `s.strip(chars)`: drops characters of `cs` from both ends. */
  function Strip(s: string, cs: set<char>): (r: string)
    ensures |r| <= |s|
    ensures r == [] || (r[0] !in cs && r[|r| - 1] !in cs)
    ensures r == [] <==> forall i :: 0 <= i < |s| ==> s[i] in cs
    ensures exists i :: MiddleOf(s, cs, r, i)
  {
    var right := RStrip(s, cs);
    var both := LStrip(right, cs);
    assert both != [] ==> both[|both| - 1] == right[|right| - 1];
    var i := |right| - |both|;
    assert both == s[i..i + |both|];
    forall k | 0 <= k < i ensures s[k] in cs {
      assert s[k] == right[k];
    }
    assert MiddleOf(s, cs, both, i);
    both
  }

  /** `r` is the stretch of `s` starting at `i`, and only characters of `cs` stand
      before and after it. */
  predicate MiddleOf(s: string, cs: set<char>, r: string, i: int) {
    && 0 <= i <= |s| - |r| && r == s[i..i + |r|]
    && (forall k :: 0 <= k < i ==> s[k] in cs)
    && (forall k :: i + |r| <= k < |s| ==> s[k] in cs)
  }

  /** `Strip` is the only such stretch: any stretch of `s` with only characters of
      `cs` around it and none at its own ends is `Strip(s, cs)`. */
  lemma StripUnique(s: string, cs: set<char>, r: string, i: int)
    requires MiddleOf(s, cs, r, i)
    requires r == [] || (r[0] !in cs && r[|r| - 1] !in cs)
    ensures r == Strip(s, cs)
  {
    var t := Strip(s, cs);
    var j :| MiddleOf(s, cs, t, j);
    if r == [] {
      forall k | 0 <= k < |s| ensures s[k] in cs {
      }
    } else {
      assert s[i] == r[0] && s[i + |r| - 1] == r[|r| - 1];
      if t != [] {
        assert s[j] == t[0] && s[j + |t| - 1] == t[|t| - 1];
        assert i == j;
        assert i + |r| == j + |t|;
      }
    }
  }

  /** The characters for which Python's `str.isspace()` holds: what `str.strip()`
      with no argument removes. */
  const PyWhitespace: set<char> := {
    '\U{9}', '\U{A}', '\U{B}', '\U{C}', '\U{D}', '\U{1C}', '\U{1D}', '\U{1E}',
    '\U{1F}', '\U{20}', '\U{85}', '\U{A0}', '\U{1680}', '\U{2000}', '\U{2001}', '\U{2002}',
    '\U{2003}', '\U{2004}', '\U{2005}', '\U{2006}', '\U{2007}', '\U{2008}', '\U{2009}', '\U{200A}',
    '\U{2028}', '\U{2029}', '\U{202F}', '\U{205F}', '\U{3000}'
  }

  /** `s.replace(a, b)` for single characters `a` and `b`. */
  function ReplaceChar(s: string, a: char, b: char): string {
    seq(|s|, i requires 0 <= i < |s| => if s[i] == a then b else s[i])
  }

  /** Replacing `a` by a different `b` leaves no `a` behind. */
  lemma ReplaceCharRemoves(s: string, a: char, b: char)
    requires a != b
    ensures a !in ReplaceChar(s, a, b)
  {
    var t := ReplaceChar(s, a, b);
    forall i | 0 <= i < |t| ensures t[i] != a {
    }
  }

  /** Replacing `a` by `b` leaves no `a` behind, and replacing back restores the
      string when it held no `b` to begin with. */
  lemma ReplaceCharRoundTrip(s: string, a: char, b: char)
    requires a != b && b !in s
    ensures a !in ReplaceChar(s, a, b)
    ensures ReplaceChar(ReplaceChar(s, a, b), b, a) == s
  {
    var t := ReplaceChar(s, a, b);
    forall i | 0 <= i < |s| ensures t[i] != a && ReplaceChar(t, b, a)[i] == s[i] {
      assert s[i] != b;
    }
  }

  /** ASCII case folding as done by `str.lower()` on ASCII letters. */
  function LowerAscii(s: string): string {
    seq(|s|, i requires 0 <= i < |s| =>
      if 'A' <= s[i] <= 'Z' then (s[i] as int + 32) as char else s[i])
  }

  /** `s.split('/')[-1]`: the text after the last '/', or all of `s` without one. */
  function LastSegment(s: string): (r: string)
    ensures |r| <= |s| && r == s[|s| - |r|..]
    ensures '/' !in r
    ensures |r| < |s| ==> s[|s| - |r| - 1] == '/'
    decreases |s|
  {
    if s == [] || s[|s| - 1] == '/' then [] else LastSegment(s[..|s| - 1]) + [s[|s| - 1]]
  }

  /** The last segment is what follows the last '/'. */
  lemma LastSegmentAfter(s: string, k: nat)
    requires k < |s| && s[k] == '/' && '/' !in s[k + 1..]
    ensures LastSegment(s) == s[k + 1..]
  {
  }

  /** Without a '/', the whole string is its last segment. */
  lemma LastSegmentWhole(s: string)
    requires '/' !in s
    ensures LastSegment(s) == s
  {
  }

  /** `s[:n]`. */
  function Take(s: string, n: nat): (r: string)
    ensures |r| <= n && StartsWith(s, r)
    ensures |s| <= n ==> r == s
    ensures |s| > n ==> |r| == n
  {
    if |s| <= n then s else s[..n]
  }

  /** Python's `<` on `str`: lexicographic by code point, a proper prefix first. */
  predicate LexLess(a: string, b: string)
    decreases |a|
  {
    if a == [] then b != []
    else if b == [] then false
    else a[0] < b[0] || (a[0] == b[0] && LexLess(a[1..], b[1..]))
  }

  lemma {:induction false} LexIrreflexive(a: string)
    ensures !LexLess(a, a)
    decreases |a|
  {
    if a != [] {
      LexIrreflexive(a[1..]);
    }
  }

  lemma {:induction false} LexTransitive(a: string, b: string, c: string)
    requires LexLess(a, b) && LexLess(b, c)
    ensures LexLess(a, c)
    decreases |a|
  {
    if a != [] && b != [] && c != [] && a[0] == b[0] && b[0] == c[0] {
      LexTransitive(a[1..], b[1..], c[1..]);
    }
  }

  lemma {:induction false} LexTotal(a: string, b: string)
    requires a != b
    ensures LexLess(a, b) || LexLess(b, a)
    decreases |a|
  {
    if a != [] && b != [] && a[0] == b[0] {
      assert a == [a[0]] + a[1..] && b == [b[0]] + b[1..];
      LexTotal(a[1..], b[1..]);
    }
  }

  /** Strictly increasing: sorted in Python's order and free of duplicates. */
  predicate StrictlySorted(s: seq<string>) {
    forall i, j :: 0 <= i < j < |s| ==> LexLess(s[i], s[j])
  }

  /** Every finite non-empty set of strings has a least element. */
  lemma {:induction false} LexMinimumExists(s: set<string>)
    requires s != {}
    ensures exists m :: m in s && forall y :: y in s && y != m ==> LexLess(m, y)
    decreases s
  {
    var a :| a in s;
    if s != {a} {
      var rest := s - {a};
      LexMinimumExists(rest);
      var m :| m in rest && forall y :: y in rest && y != m ==> LexLess(m, y);
      if LexLess(m, a) {
        forall y | y in s && y != m ensures LexLess(m, y) {
          if y != a { assert y in rest; }
        }
      } else {
        LexTotal(a, m);
        forall y | y in s && y != a ensures LexLess(a, y) {
          if y != m {
            assert y in rest;
            LexTransitive(a, m, y);
          }
        }
      }
    }
  }

  /** A strictly sorted sequence is determined by the set of its elements: sorting
      a set has exactly one correct answer. */
  lemma {:induction false} StrictlySortedUnique(a: seq<string>, b: seq<string>)
    requires StrictlySorted(a) && StrictlySorted(b)
    requires forall x :: x in a <==> x in b
    ensures a == b
    decreases |a|
  {
    if a != [] { assert a[0] in b; }
    if b != [] { assert b[0] in a; }
    if a != [] && b != [] {
      var i :| 0 <= i < |b| && b[i] == a[0];
      var j :| 0 <= j < |a| && a[j] == b[0];
      if a[0] != b[0] {
        LexTransitive(a[0], b[0], a[0]);
        LexIrreflexive(a[0]);
      }
      assert a == [a[0]] + a[1..] && b == [b[0]] + b[1..];
      forall x ensures x in a[1..] <==> x in b[1..] {
        if x in a[1..] {
          var k :| 1 <= k < |a| && a[k] == x;
          LexIrreflexive(x);
          assert LexLess(a[0], a[k]);
          assert x in b && x != b[0];
        }
        if x in b[1..] {
          var k :| 1 <= k < |b| && b[k] == x;
          LexIrreflexive(x);
          assert LexLess(b[0], b[k]);
          assert x in a && x != a[0];
        }
      }
      StrictlySortedUnique(a[1..], b[1..]);
    }
  }
}
