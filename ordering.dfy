/**
  The order Python 2 uses to compare byte strings (character by character,
  a proper prefix first), the `sorted` built-in on a list of strings as an
  insertion sort, and the fact that a strictly ascending listing of a set of
  strings is unique.
*/
module Ordering {
  import opened Tokens

  /** `a < b` on Python strings: lexicographic by character code. A proper
      prefix sorts first, and the first characters are never out of order. */
  predicate Less(a: string, b: string): (before: bool)
    ensures |a| < |b| && a == b[..|a|] ==> before
    ensures before && |a| > 0 ==> |b| > 0 && a[0] <= b[0]
    decreases |a|
  {
    if |a| == 0 then |b| > 0
    else |b| > 0 && (a[0] < b[0] || (a[0] == b[0] && Less(a[1..], b[1..])))
  }

  predicate LessOrEqual(a: string, b: string)
  {
    a == b || Less(a, b)
  }

  lemma {:induction false} LessIrreflexive(a: string)
    ensures !Less(a, a)
    decreases |a|
  {
    if |a| > 0 {
      LessIrreflexive(a[1..]);
    }
  }

  lemma {:induction false} LessTransitive(a: string, b: string, c: string)
    requires Less(a, b) && Less(b, c)
    ensures Less(a, c)
    decreases |a|
  {
    if |a| > 0 && a[0] == b[0] && b[0] == c[0] {
      LessTransitive(a[1..], b[1..], c[1..]);
    }
  }

  lemma {:induction false} LessTotal(a: string, b: string)
    ensures a == b || Less(a, b) || Less(b, a)
    decreases |a|
  {
    if |a| > 0 && |b| > 0 && a[0] == b[0] {
      LessTotal(a[1..], b[1..]);
      assert a == [a[0]] + a[1..] && b == [b[0]] + b[1..];
    }
  }

  lemma LessAsymmetric(a: string, b: string)
    requires Less(a, b)
    ensures !Less(b, a)
  {
    if Less(b, a) {
      LessTransitive(a, b, a);
      LessIrreflexive(a);
    }
  }

  /** Non-decreasing, as the output of `sorted`. */
  predicate Ascending(s: seq<string>)
  {
    forall i, j :: 0 <= i < j < |s| ==> LessOrEqual(s[i], s[j])
  }

  /** Increasing, hence also free of repetitions. */
  predicate StrictlyAscending(s: seq<string>)
  {
    forall i, j :: 0 <= i < j < |s| ==> Less(s[i], s[j])
  }

  /** Places `x` into an ascending list in front of the first element it does
      not exceed. */
  function Insert(x: string, s: seq<string>): (r: seq<string>)
    requires Ascending(s)
    ensures Ascending(r)
    ensures multiset(r) == multiset(s) + multiset{x}
  {
    if s == [] then [x]
    else if LessOrEqual(x, s[0]) then
      InsertAtFront(x, s);
      [x] + s
    else
      LessTotal(x, s[0]);
      var rest := Insert(x, s[1..]);
      assert s == [s[0]] + s[1..];
      InsertBehind(s[0], x, s[1..], rest);
      [s[0]] + rest
  }

  lemma InsertAtFront(x: string, s: seq<string>)
    requires Ascending(s) && s != [] && LessOrEqual(x, s[0])
    ensures Ascending([x] + s)
  {
    var r := [x] + s;
    forall i, j | 0 <= i < j < |r|
      ensures LessOrEqual(r[i], r[j])
    {
      if i == 0 {
        assert r[j] == s[j - 1];
        assert LessOrEqual(s[0], s[j - 1]);
        if x != s[0] && s[0] != s[j - 1] {
          LessTransitive(x, s[0], s[j - 1]);
        }
      } else {
        assert r[i] == s[i - 1] && r[j] == s[j - 1];
      }
    }
  }

  lemma InsertBehind(h: string, x: string, tail: seq<string>, rest: seq<string>)
    requires Less(h, x)
    requires Ascending([h] + tail) && Ascending(rest)
    requires multiset(rest) == multiset(tail) + multiset{x}
    ensures Ascending([h] + rest)
  {
    var r := [h] + rest;
    var s := [h] + tail;
    forall i, j | 0 <= i < j < |r|
      ensures LessOrEqual(r[i], r[j])
    {
      if i == 0 {
        var v := rest[j - 1];
        assert v in multiset(rest);
        if v != x {
          assert v in multiset(tail);
          assert v in tail;
          var m :| 0 <= m < |tail| && tail[m] == v;
          assert s[0] == h && s[m + 1] == v;
        }
      } else {
        assert r[i] == rest[i - 1] && r[j] == rest[j - 1];
      }
    }
  }

  /** Python's `sorted` on a list of strings. */
  function SortStrings(xs: seq<string>): (r: seq<string>)
    ensures Ascending(r)
    ensures multiset(r) == multiset(xs)
  {
    if xs == [] then []
    else
      assert xs == [xs[0]] + xs[1..];
      Insert(xs[0], SortStrings(xs[1..]))
  }

  /** Sorting repetition-free tokens yields a strictly ascending listing of
      the same tokens. */
  lemma SortDistinct(xs: seq<string>)
    requires Distinct(xs)
    ensures StrictlyAscending(SortStrings(xs))
    ensures forall t :: t in SortStrings(xs) <==> t in xs
  {
    var r := SortStrings(xs);
    forall t ensures t in r <==> t in xs {
      assert t in r <==> t in multiset(r);
      assert t in xs <==> t in multiset(xs);
    }
    forall i, j | 0 <= i < j < |r|
      ensures Less(r[i], r[j])
    {
      if r[i] == r[j] {
        var v := r[i];
        assert r == r[..j] + r[j..];
        CountAppend(r[..j], r[j..], v);
        assert r[..j][i] == v && r[j..][0] == v;
        CountIsMultiplicity(r, v);
        CountIsMultiplicity(xs, v);
        DistinctIffCountsAtMostOne(xs);
        assert false;
      }
    }
  }

  /** The first element of a strictly ascending list is below every other. */
  lemma HeadIsLeast(s: seq<string>, t: string)
    requires StrictlyAscending(s) && t in s && t != s[0]
    ensures Less(s[0], t)
  {
    var k :| 0 <= k < |s| && s[k] == t;
  }

  /** A set of strings has only one strictly ascending listing. */
  lemma {:induction false} StrictlyAscendingUnique(a: seq<string>, b: seq<string>)
    requires StrictlyAscending(a) && StrictlyAscending(b)
    requires forall t :: t in a <==> t in b
    ensures a == b
    decreases |a|
  {
    assert a != [] ==> a[0] in b;
    assert b != [] ==> b[0] in a;
    if a != [] && b != [] {
      if a[0] != b[0] {
        HeadIsLeast(a, b[0]);
        HeadIsLeast(b, a[0]);
        LessAsymmetric(a[0], b[0]);
        assert false;
      }
      forall t ensures t in a[1..] <==> t in b[1..] {
        if t in a[1..] {
          var k :| 1 <= k < |a| && a[k] == t;
          LessIrreflexive(a[0]);
          assert Less(a[0], a[k]) && t in b;
          assert b == [b[0]] + b[1..];
        }
        if t in b[1..] {
          var k :| 1 <= k < |b| && b[k] == t;
          LessIrreflexive(b[0]);
          assert Less(b[0], b[k]) && t in a;
          assert a == [a[0]] + a[1..];
        }
      }
      StrictlyAscendingUnique(a[1..], b[1..]);
      assert a == [a[0]] + a[1..] && b == [b[0]] + b[1..];
    }
  }
}
