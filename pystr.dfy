/**
 * The two Python `str` methods the tuple parser relies on: `strip` with an
 * explicit set of characters, and `split` on a one-character separator.
 * `Join` and `Count` are used to state what `Split` produces.
 */
module PyStr {

  /** Every character of `t` belongs to `cs`. */
  predicate AllIn(t: string, cs: set<char>)
  {
    forall k :: 0 <= k < |t| ==> t[k] in cs
  }

  lemma AllInAppend(a: string, b: string, cs: set<char>)
    requires AllIn(a, cs) && AllIn(b, cs)
    ensures AllIn(a + b, cs)
  {
  }

  lemma AllInAround(s: string, i: nat, cs: set<char>)
    requires i < |s| && s[i] in cs
    requires AllIn(s[..i], cs) && AllIn(s[i + 1..], cs)
    ensures AllIn(s, cs)
  {
  }

  lemma AllInSubset(t: string, cs: set<char>, ds: set<char>)
    requires AllIn(t, cs) && cs <= ds
    ensures AllIn(t, ds)
  {}

  /** A string that is empty, or neither starts nor ends with a character of `cs`. */
  predicate Trimmed(t: string, cs: set<char>)
  {
    t == [] || (t[0] !in cs && t[|t| - 1] !in cs)
  }

  /** Length of the longest prefix of `s` made only of characters of `cs`. */
  function LeadingRun(s: string, cs: set<char>): (n: nat)
    ensures n <= |s|
    ensures AllIn(s[..n], cs)
    ensures n < |s| ==> s[n] !in cs
  {
    if |s| == 0 || s[0] !in cs then 0
    else
      var n := 1 + LeadingRun(s[1..], cs);
      assert s[..n] == [s[0]] + s[1..][..n - 1];
      n
  }

  /** Length of the longest suffix of `s` made only of characters of `cs`. */
  function TrailingRun(s: string, cs: set<char>): (n: nat)
    ensures n <= |s|
    ensures AllIn(s[|s| - n..], cs)
    ensures n < |s| ==> s[|s| - 1 - n] !in cs
  {
    if |s| == 0 || s[|s| - 1] !in cs then 0
    else
      var init := s[..|s| - 1];
      var n := 1 + TrailingRun(init, cs);
      assert s[|s| - n..] == init[|init| - (n - 1)..] + [s[|s| - 1]];
      n
  }

  /**
   * Python's `s.strip(chars)`: drops the longest run of characters of `cs`
   * from the front, then the longest such run from the back of what is left.
   * Characters outside `cs` are never removed, at either end.
   */
  function StripChars(s: string, cs: set<char>): string
  {
    var i := LeadingRun(s, cs);
    var rest := s[i..];
    rest[..|rest| - TrailingRun(rest, cs)]
  }

  /**
   * What `StripChars` leaves is `s` without its leading run and a suffix of
   * characters of `cs`, and it neither starts nor ends with one of them.
   */
  lemma StripCharsShape(s: string, cs: set<char>)
    ensures Trimmed(StripChars(s, cs), cs)
    ensures LeadingRun(s, cs) + |StripChars(s, cs)| <= |s|
    ensures s == s[..LeadingRun(s, cs)] + StripChars(s, cs) + s[LeadingRun(s, cs) + |StripChars(s, cs)|..]
    ensures AllIn(s[..LeadingRun(s, cs)], cs) && AllIn(s[LeadingRun(s, cs) + |StripChars(s, cs)|..], cs)
  {
    StripCharsTrimmed(s, cs);
    StripCharsAround(s, cs);
  }

  lemma StripCharsTrimmed(s: string, cs: set<char>)
    ensures Trimmed(StripChars(s, cs), cs)
  {
    var i := LeadingRun(s, cs);
    var rest := s[i..];
    var n := TrailingRun(rest, cs);
    var t := rest[..|rest| - n];
    assert StripChars(s, cs) == t;
    if |t| > 0 {
      assert t[0] == s[i];
      assert t[|t| - 1] == rest[|rest| - 1 - n];
    }
  }

  lemma StripCharsAround(s: string, cs: set<char>)
    ensures LeadingRun(s, cs) + |StripChars(s, cs)| <= |s|
    ensures s == s[..LeadingRun(s, cs)] + StripChars(s, cs) + s[LeadingRun(s, cs) + |StripChars(s, cs)|..]
    ensures AllIn(s[LeadingRun(s, cs) + |StripChars(s, cs)|..], cs)
  {
    var i := LeadingRun(s, cs);
    var rest := s[i..];
    var j := |rest| - TrailingRun(rest, cs);
    assert StripChars(s, cs) == s[i..i + j];
    assert rest[j..] == s[i + j..];
    ThreeParts(s, i, i + j);
  }

  /** A string is its prefix, middle and suffix at two cut points. */
  lemma ThreeParts(s: string, i: nat, j: nat)
    requires i <= j <= |s|
    ensures s == s[..i] + s[i..j] + s[j..]
  {
    assert s[..j] == s[..i] + s[i..j];
    assert s == s[..j] + s[j..];
  }

  /** The leading run of `p + t` is exactly `p` when `p` is made of `cs` and `t` does not start with one. */
  lemma {:induction false} LeadingRunOf(p: string, t: string, cs: set<char>)
    requires AllIn(p, cs)
    requires t == [] || t[0] !in cs
    ensures LeadingRun(p + t, cs) == |p|
  {
    if |p| > 0 {
      assert (p + t)[1..] == p[1..] + t;
      LeadingRunOf(p[1..], t, cs);
    }
  }

  /** The trailing run of `t + q` is exactly `q` when `q` is made of `cs` and `t` does not end with one. */
  lemma {:induction false} TrailingRunOf(t: string, q: string, cs: set<char>)
    requires AllIn(q, cs)
    requires t == [] || t[|t| - 1] !in cs
    ensures TrailingRun(t + q, cs) == |q|
  {
    if |q| > 0 {
      assert (t + q)[..|t + q| - 1] == t + q[..|q| - 1];
      TrailingRunOf(t, q[..|q| - 1], cs);
    }
  }

  /**
   * `StripChars` is characterised by its contract: any split of `s` into a
   * prefix and a suffix of characters of `cs` around a trimmed middle has
   * exactly that middle as the stripped string.
   */
  lemma StripCharsUnique(s: string, cs: set<char>, p: string, m: string, q: string)
    requires s == p + m + q
    requires AllIn(p, cs) && AllIn(q, cs) && Trimmed(m, cs)
    ensures StripChars(s, cs) == m
  {
    if m == [] {
      assert AllIn(s, cs) by {
        forall k | 0 <= k < |s| ensures s[k] in cs {
          if k < |p| { assert s[k] == p[k]; } else { assert s[k] == q[k - |p|]; }
        }
      }
      LeadingRunOf(s, [], cs);
      assert s + [] == s;
    } else {
      assert s == p + (m + q);
      LeadingRunOf(p, m + q, cs);
      assert s[|p|..] == m + q;
      TrailingRunOf(m, q, cs);
      assert (m + q)[..|m|] == m;
    }
  }

  /** Number of occurrences of `c` in `s`. */
  function Count(s: string, c: char): nat
  {
    if |s| == 0 then 0
    else (if s[0] == c then 1 else 0) + Count(s[1..], c)
  }

  /** Python's `sep.join(segs)`. */
  function Join(segs: seq<string>, sep: char): string
  {
    if |segs| == 0 then []
    else if |segs| == 1 then segs[0]
    else segs[0] + [sep] + Join(segs[1..], sep)
  }

  /**
   * Python's `s.split(sep)` for a one-character separator: one segment more
   * than there are separators, none of them holding the separator, and
   * joining them back with the separator gives `s` again. Empty segments are
   * kept, so `"".split(",")` is `[""]`.
   */
  function Split(s: string, sep: char): (r: seq<string>)
    ensures |r| == Count(s, sep) + 1
    ensures forall i :: 0 <= i < |r| ==> sep !in r[i]
    ensures Join(r, sep) == s
  {
    if |s| == 0 then [[]]
    else
      var rest := Split(s[1..], sep);
      if s[0] == sep then
        [[]] + rest
      else
        var r := [[s[0]] + rest[0]] + rest[1..];
        assert Join(r, sep) == [s[0]] + Join(rest, sep) by {
          if |rest| > 1 { assert r[1..] == rest[1..]; }
        }
        r
  }

  /** Splitting a string that holds no separator gives the string itself. */
  lemma {:induction false} SplitNoSeparator(a: string, sep: char)
    requires sep !in a
    ensures Split(a, sep) == [a]
  {
    if |a| > 0 {
      SplitNoSeparator(a[1..], sep);
    }
  }

  /** A segment without the separator, then the separator, splits off as one segment. */
  lemma {:induction false} SplitAfterSegment(a: string, sep: char, t: string)
    requires sep !in a
    ensures Split(a + [sep] + t, sep) == [a] + Split(t, sep)
  {
    if |a| == 0 {
      assert a + [sep] + t == [sep] + t;
      assert ([sep] + t)[1..] == t;
    } else {
      assert (a + [sep] + t)[1..] == a[1..] + [sep] + t;
      SplitAfterSegment(a[1..], sep, t);
      assert [a[0]] + a[1..] == a;
    }
  }

  /** `Split` inverts `Join` on segments that hold no separator. */
  lemma {:induction false} SplitJoin(segs: seq<string>, sep: char)
    requires |segs| >= 1
    requires forall i :: 0 <= i < |segs| ==> sep !in segs[i]
    ensures Split(Join(segs, sep), sep) == segs
  {
    if |segs| == 1 {
      SplitNoSeparator(segs[0], sep);
    } else {
      SplitAfterSegment(segs[0], sep, Join(segs[1..], sep));
      SplitJoin(segs[1..], sep);
    }
  }

  /** A separator at the end of `s` leaves an empty last segment. */
  lemma {:induction false} SplitTrailingSeparator(s: string, sep: char)
    requires |s| > 0 && s[|s| - 1] == sep
    ensures Split(s, sep)[|Split(s, sep)| - 1] == []
  {
    var r := Split(s, sep);
    if |r| == 1 {
      assert false;
    }
    JoinLast(r, sep);
  }

  /** The last segment of a join with two or more segments follows the last separator. */
  lemma {:induction false} JoinLast(segs: seq<string>, sep: char)
    requires |segs| >= 2
    ensures Join(segs, sep) == Join(segs[..|segs| - 1], sep) + [sep] + segs[|segs| - 1]
  {
    if |segs| > 2 {
      JoinLast(segs[1..], sep);
      assert segs[1..][..|segs| - 2] == segs[..|segs| - 1][1..];
    }
  }

  /** A joined string starts with its first segment's first character and ends with its last segment's last one. */
  lemma {:induction false} JoinEnds(segs: seq<string>, sep: char)
    requires |segs| >= 1 && |segs[0]| > 0 && |segs[|segs| - 1]| > 0
    ensures |Join(segs, sep)| > 0
    ensures Join(segs, sep)[0] == segs[0][0]
    ensures Join(segs, sep)[|Join(segs, sep)| - 1] == segs[|segs| - 1][|segs[|segs| - 1]| - 1]
  {
    if |segs| > 1 {
      JoinLast(segs, sep);
    }
  }

  /** A character of a joined string other than the separator comes from one of the segments. */
  lemma {:induction false} JoinMember(segs: seq<string>, sep: char, k: nat)
    requires k < |Join(segs, sep)| && Join(segs, sep)[k] != sep
    ensures exists i :: 0 <= i < |segs| && Join(segs, sep)[k] in segs[i]
  {
    var j := Join(segs, sep);
    if |segs| == 1 {
      assert j[k] in segs[0];
    } else if k < |segs[0]| {
      assert j[k] == segs[0][k];
    } else {
      var rest := Join(segs[1..], sep);
      assert j == segs[0] + [sep] + rest;
      assert k > |segs[0]|;
      assert j[k] == rest[k - |segs[0]| - 1];
      JoinMember(segs[1..], sep, k - |segs[0]| - 1);
      var i :| 0 <= i < |segs[1..]| && rest[k - |segs[0]| - 1] in segs[1..][i];
      assert j[k] in segs[i + 1];
    }
  }
}
