/** Python's string operations that docpatch.py relies on: membership (`sub in s`),
    `str.replace` with no count, `str.count`, and `str.split` and `str.join`, which
    give an independent description of `replace` for every non-empty pattern. */
module Text {

  /** `sub in s`: some window of `s` equals `sub`. The empty string is in every string. */
  predicate Contains(s: string, sub: string) {
    exists i :: 0 <= i <= |s| && sub <= s[i..]
  }

  /** Python `s.replace(p, n)`: scanning left to right, each occurrence of a non-empty `p`
      is replaced by `n` and the scan resumes after it (leftmost, non-overlapping).
      With an empty `p` Python puts `n` before every character and at the end. */
  function ReplaceAll(s: string, p: string, n: string): string
    decreases |s|
  {
    if p == [] then
      if s == [] then n else n + [s[0]] + ReplaceAll(s[1..], p, n)
    else if s == [] then []
    else if p <= s then n + ReplaceAll(s[|p|..], p, n)
    else [s[0]] + ReplaceAll(s[1..], p, n)
  }

  /** Python `s.count(p)`: the number of occurrences `ReplaceAll` replaces. */
  function Count(s: string, p: string): nat
    decreases |s|
  {
    if p == [] then |s| + 1
    else if s == [] then 0
    else if p <= s then 1 + Count(s[|p|..], p)
    else Count(s[1..], p)
  }

  /** Python `s.split(p)` for a non-empty separator: the pieces between the
      leftmost, non-overlapping occurrences of `p`. */
  function Split(s: string, p: string): (parts: seq<string>)
    requires p != []
    ensures |parts| >= 1
    decreases |s|
  {
    if s == [] then [[]]
    else if p <= s then [[]] + Split(s[|p|..], p)
    else
      var rest := Split(s[1..], p);
      [[s[0]] + rest[0]] + rest[1..]
  }

  /** Python `sep.join(parts)` for a non-empty list. */
  function Join(sep: string, parts: seq<string>): string
    requires |parts| >= 1
    decreases |parts|
  {
    if |parts| == 1 then parts[0] else parts[0] + sep + Join(sep, parts[1..])
  }

  /** A string none of whose proper prefixes is also a suffix of it: two occurrences
      of such a string can never overlap. */
  predicate BorderFree(p: string) {
    forall k :: 0 < k < |p| ==> p[..k] != p[|p| - k..]
  }

  lemma ContainsAt(s: string, sub: string, i: nat)
    requires i <= |s| && sub <= s[i..]
    ensures Contains(s, sub)
  {
  }

  lemma {:induction false} ContainsInfix(a: string, b: string, c: string)
    ensures Contains(a + b + c, b)
  {
    assert (a + b + c)[|a|..] == b + c;
    ContainsAt(a + b + c, b, |a|);
  }

  /** Without an occurrence at the front, `s` contains `p` exactly when its tail does. */
  lemma ContainsTail(s: string, p: string)
    requires s != [] && !(p <= s)
    ensures Contains(s, p) <==> Contains(s[1..], p)
  {
    if Contains(s, p) {
      var i :| 0 <= i <= |s| && p <= s[i..];
      assert i != 0;
      assert s[1..][i - 1..] == s[i..];
    }
    if Contains(s[1..], p) {
      var i :| 0 <= i <= |s[1..]| && p <= s[1..][i..];
      assert s[1..][i..] == s[i + 1..];
    }
  }

  /** `str.count` is zero exactly when `in` is false: the membership test guarding
      the rewrite in `inplace_change` and the number of replacements agree. */
  lemma {:induction false} CountZeroIffAbsent(s: string, p: string)
    ensures Count(s, p) == 0 <==> !Contains(s, p)
    decreases |s|
  {
    if p == [] {
      ContainsAt(s, p, 0);
    } else if s == [] {
    } else if p <= s {
      ContainsAt(s, p, 0);
    } else {
      CountZeroIffAbsent(s[1..], p);
      ContainsTail(s, p);
    }
  }

  /** When the pattern does not occur, `replace` returns the string unchanged. */
  lemma {:induction false} ReplaceAllAbsent(s: string, p: string, n: string)
    ensures !Contains(s, p) ==> ReplaceAll(s, p, n) == s
    decreases |s|
  {
    if p == [] {
      ContainsAt(s, p, 0);
    } else if s == [] {
    } else if p <= s {
      ContainsAt(s, p, 0);
    } else {
      ContainsTail(s, p);
      ReplaceAllAbsent(s[1..], p, n);
    }
  }

  lemma MulSucc(c: nat, d: int)
    ensures (1 + c) * d == d + c * d
  {
  }

  /** Each replacement changes the length by `|n| - |p|`, and there are `Count(s, p)` of them. */
  lemma {:induction false} ReplaceAllLength(s: string, p: string, n: string)
    ensures |ReplaceAll(s, p, n)| == |s| + Count(s, p) * (|n| - |p|)
    decreases |s|
  {
    if p == [] {
      if s != [] {
        ReplaceAllLength(s[1..], p, n);
        MulSucc(|s| - 1 + 1, |n|);
        MulSucc(|s| - 1, |n|);
      }
    } else if s == [] {
    } else if p <= s {
      ReplaceAllLength(s[|p|..], p, n);
      MulSucc(Count(s[|p|..], p), |n| - |p|);
    } else {
      ReplaceAllLength(s[1..], p, n);
    }
  }

  /** Replacing a pattern by itself is the identity. */
  lemma {:induction false} ReplaceAllSelf(s: string, p: string)
    ensures ReplaceAll(s, p, p) == s
    decreases |s|
  {
    if p == [] {
      if s != [] {
        ReplaceAllSelf(s[1..], p);
        assert s == [s[0]] + s[1..];
      }
    } else if s == [] {
    } else if p <= s {
      ReplaceAllSelf(s[|p|..], p);
      assert s == p + s[|p|..];
    } else {
      ReplaceAllSelf(s[1..], p);
      assert s == [s[0]] + s[1..];
    }
  }

  lemma {:induction false} JoinExtendFirst(sep: string, x: string, parts: seq<string>)
    requires |parts| >= 1
    ensures Join(sep, [x + parts[0]] + parts[1..]) == x + Join(sep, parts)
  {
    var q := [x + parts[0]] + parts[1..];
    assert q[1..] == parts[1..];
  }

  /** For every non-empty pattern, `s.replace(p, n)` equals `n.join(s.split(p))`: the
      result is made of the pieces of `s` between ALL occurrences of `p`, with `n` in
      place of each. */
  lemma {:induction false} ReplaceAllIsJoinOfSplit(s: string, p: string, n: string)
    requires p != []
    ensures ReplaceAll(s, p, n) == Join(n, Split(s, p))
    decreases |s|
  {
    if s == [] {
    } else if p <= s {
      ReplaceAllIsJoinOfSplit(s[|p|..], p, n);
      var q := [[]] + Split(s[|p|..], p);
      assert q[1..] == Split(s[|p|..], p);
    } else {
      ReplaceAllIsJoinOfSplit(s[1..], p, n);
      JoinExtendFirst(n, [s[0]], Split(s[1..], p));
    }
  }

  /** Joining the pieces back with `p` gives the original string. */
  lemma JoinSplit(s: string, p: string)
    requires p != []
    ensures Join(p, Split(s, p)) == s
  {
    ReplaceAllIsJoinOfSplit(s, p, p);
    ReplaceAllSelf(s, p);
  }

  /** There is one more piece than there are occurrences. */
  lemma {:induction false} SplitCount(s: string, p: string)
    requires p != []
    ensures |Split(s, p)| == Count(s, p) + 1
    decreases |s|
  {
    if s == [] {
    } else if p <= s {
      SplitCount(s[|p|..], p);
    } else {
      SplitCount(s[1..], p);
    }
  }

  /** The first piece is a prefix of the string. */
  lemma {:induction false} SplitFirstIsPrefix(s: string, p: string)
    requires p != []
    ensures Split(s, p)[0] <= s
    decreases |s|
  {
    if s == [] {
    } else if p <= s {
    } else {
      SplitFirstIsPrefix(s[1..], p);
      assert s == [s[0]] + s[1..];
    }
  }

  /** No piece contains the separator: every occurrence was cut out. */
  lemma {:induction false} SplitPiecesFree(s: string, p: string, k: nat)
    requires p != [] && k < |Split(s, p)|
    ensures !Contains(Split(s, p)[k], p)
    decreases |s|
  {
    if s == [] {
    } else if p <= s {
      if k != 0 {
        SplitPiecesFree(s[|p|..], p, k - 1);
      }
    } else {
      var rest := Split(s[1..], p);
      if k == 0 {
        var first := [s[0]] + rest[0];
        SplitPiecesFree(s[1..], p, 0);
        SplitFirstIsPrefix(s[1..], p);
        assert first <= s;
        ContainsTail(first, p);
      } else {
        SplitPiecesFree(s[1..], p, k);
      }
    }
  }

  /** A border-free `p` cannot start inside a short non-empty `t` and end inside `t + p`. */
  lemma NoStraddle(t: string, p: string)
    requires 0 < |t| < |p| && BorderFree(p)
    ensures !(p <= t + p)
  {
    var k := |p| - |t|;
    assert p[..k] != p[|p| - k..];
  }

  lemma TrailingShort(t: string, p: string, n: string)
    requires 0 < |t| < |p| && BorderFree(p)
    requires ReplaceAll(t[1..] + p, p, n) == ReplaceAll(t[1..], p, n) + n
    ensures ReplaceAll(t + p, p, n) == ReplaceAll(t, p, n) + n
  {
    var s := t + p;
    NoStraddle(t, p);
    assert s[1..] == t[1..] + p;
    calc {
      ReplaceAll(s, p, n);
      [s[0]] + ReplaceAll(s[1..], p, n);
      [t[0]] + (ReplaceAll(t[1..], p, n) + n);
      ([t[0]] + ReplaceAll(t[1..], p, n)) + n;
      ReplaceAll(t, p, n) + n;
    }
  }

  lemma UnfoldMatch(s: string, p: string, n: string)
    requires p != [] && |s| >= |p| && p <= s
    ensures ReplaceAll(s, p, n) == n + ReplaceAll(s[|p|..], p, n)
  {
  }

  lemma UnfoldMatchAppended(t: string, p: string, n: string)
    requires p != [] && |t| >= |p| && p <= t
    ensures ReplaceAll(t + p, p, n) == n + ReplaceAll(t[|p|..] + p, p, n)
  {
    var s := t + p;
    assert p == t[..|p|] == s[..|p|];
    assert s[|p|..] == t[|p|..] + p;
  }

  lemma TrailingMatch(t: string, p: string, n: string)
    requires p != [] && |t| >= |p| && p <= t
    requires ReplaceAll(t[|p|..] + p, p, n) == ReplaceAll(t[|p|..], p, n) + n
    ensures ReplaceAll(t + p, p, n) == ReplaceAll(t, p, n) + n
  {
    UnfoldMatchAppended(t, p, n);
    UnfoldMatch(t, p, n);
    AppendAssoc(ReplaceAll(t + p, p, n), ReplaceAll(t[|p|..] + p, p, n), n, ReplaceAll(t[|p|..], p, n));
  }

  lemma AppendAssoc(x: string, y: string, n: string, r: string)
    requires x == n + y && y == r + n
    ensures x == (n + r) + n
  {
  }

  lemma TrailingSkip(t: string, p: string, n: string)
    requires p != [] && |t| >= |p| && !(p <= t)
    requires ReplaceAll(t[1..] + p, p, n) == ReplaceAll(t[1..], p, n) + n
    ensures ReplaceAll(t + p, p, n) == ReplaceAll(t, p, n) + n
  {
    var s := t + p;
    assert !(p <= s) by {
      assert s[..|p|] == t[..|p|];
    }
    assert s[1..] == t[1..] + p;
    calc {
      ReplaceAll(s, p, n);
      [s[0]] + ReplaceAll(s[1..], p, n);
      [t[0]] + (ReplaceAll(t[1..], p, n) + n);
      ([t[0]] + ReplaceAll(t[1..], p, n)) + n;
      ReplaceAll(t, p, n) + n;
    }
  }

  /** Behind a border-free pattern `p` at the very end, the scan replaces that trailing
      `p` and handles what precedes it as if `p` were not there. */
  lemma {:induction false} ReplaceAllTrailing(t: string, p: string, n: string)
    requires p != [] && BorderFree(p)
    ensures ReplaceAll(t + p, p, n) == ReplaceAll(t, p, n) + n
    decreases |t|
  {
    if t == [] {
      assert t + p == p;
      assert p[|p|..] == [];
    } else if |t| < |p| {
      ReplaceAllTrailing(t[1..], p, n);
      TrailingShort(t, p, n);
    } else if p <= t {
      ReplaceAllTrailing(t[|p|..], p, n);
      TrailingMatch(t, p, n);
    } else {
      ReplaceAllTrailing(t[1..], p, n);
      TrailingSkip(t, p, n);
    }
  }

  /** If `p` occurs, the replacement text occurs in the result. */
  lemma ReplaceAllShowsReplacement(s: string, p: string, n: string)
    requires p != [] && Contains(s, p)
    ensures Contains(ReplaceAll(s, p, n), n)
  {
    CountZeroIffAbsent(s, p);
    SplitCount(s, p);
    ReplaceAllIsJoinOfSplit(s, p, n);
    var parts := Split(s, p);
    ContainsInfix(parts[0], n, Join(n, parts[1..]));
  }

  /** A string containing `a + b` contains `b`. */
  lemma ContainsSuffixPart(s: string, a: string, b: string)
    requires Contains(s, a + b)
    ensures Contains(s, b)
  {
    var i :| 0 <= i <= |s| && a + b <= s[i..];
    assert s[i + |a|..][..|b|] == (a + b)[|a|..];
    ContainsAt(s, b, i + |a|);
  }

  /** Replacing `p` by `a + p` with a non-empty `a` keeps `p` in the text and grows it,
      so a second pass changes the text again. */
  lemma ReplaceAllPrependNotIdempotent(s: string, p: string, a: string)
    requires p != [] && a != [] && Contains(s, p)
    ensures Contains(ReplaceAll(s, p, a + p), p)
    ensures ReplaceAll(ReplaceAll(s, p, a + p), p, a + p) != ReplaceAll(s, p, a + p)
  {
    var once := ReplaceAll(s, p, a + p);
    ReplaceAllShowsReplacement(s, p, a + p);
    ContainsSuffixPart(once, a, p);
    CountZeroIffAbsent(once, p);
    ReplaceAllLength(once, p, a + p);
    MulPositive(Count(once, p), |a + p| - |p|);
  }

  lemma MulPositive(c: int, d: int)
    requires c >= 1 && d >= 1
    ensures c * d >= 1
  {
  }
}
