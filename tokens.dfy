/**
  Splitting a string on a separator character, as Python's `str.split(sep)`
  does, together with its inverse `Join`, and counting how often a token
  occurs in a token list.
*/
module Tokens {

  /** The pieces of `s` between occurrences of `sep`, in order. Like Python's
      `s.split(sep)`, the empty string gives one empty piece and adjacent,
      leading or trailing separators give empty pieces. */
  function Split(s: string, sep: char): (parts: seq<string>)
    ensures |parts| >= 1
    ensures forall i :: 0 <= i < |parts| ==> sep !in parts[i]
    ensures Join(parts, sep) == s
    decreases |s|
  {
    if |s| == 0 then [""]
    else
      var rest := Split(s[1..], sep);
      if s[0] == sep then
        [""] + rest
      else
        assert |rest| > 1 ==> Join(rest, sep) == rest[0] + [sep] + Join(rest[1..], sep);
        [[s[0]] + rest[0]] + rest[1..]
  }

  /** The pieces joined with `sep` between consecutive pieces (Python's
      `sep.join(parts)`). */
  function Join(parts: seq<string>, sep: char): string
    requires |parts| >= 1
  {
    if |parts| == 1 then parts[0] else parts[0] + [sep] + Join(parts[1..], sep)
  }

  /** Splitting a concatenation around one separator splits each side. */
  lemma {:induction false} SplitAround(a: string, sep: char, b: string)
    ensures Split(a + [sep] + b, sep) == Split(a, sep) + Split(b, sep)
    decreases |a|
  {
    var s := a + [sep] + b;
    if |a| == 0 {
      assert s[1..] == b;
    } else {
      assert s[1..] == a[1..] + [sep] + b;
      SplitAround(a[1..], sep, b);
    }
  }

  /** Joining pieces that contain no separator and splitting again gives the
      pieces back. */
  lemma {:induction false} SplitJoin(parts: seq<string>, sep: char)
    requires |parts| >= 1
    requires forall i :: 0 <= i < |parts| ==> sep !in parts[i]
    ensures Split(Join(parts, sep), sep) == parts
    decreases |parts|
  {
    if |parts| == 1 {
      SplitWithoutSeparator(parts[0], sep);
    } else {
      SplitWithoutSeparator(parts[0], sep);
      SplitJoin(parts[1..], sep);
      SplitAround(parts[0], sep, Join(parts[1..], sep));
      assert parts == [parts[0]] + parts[1..];
    }
  }

  /** A string without the separator is a single piece. */
  lemma {:induction false} SplitWithoutSeparator(s: string, sep: char)
    requires sep !in s
    ensures Split(s, sep) == [s]
    decreases |s|
  {
    if |s| > 0 {
      SplitWithoutSeparator(s[1..], sep);
      assert s == [s[0]] + s[1..];
    }
  }

  /** How many times `t` occurs in `xs`. */
  function Count(xs: seq<string>, t: string): (n: nat)
    ensures n <= |xs|
    ensures n > 0 <==> t in xs
  {
    if xs == [] then 0 else (if xs[0] == t then 1 else 0) + Count(xs[1..], t)
  }

  /** Counting distributes over concatenation. */
  lemma {:induction false} CountAppend(xs: seq<string>, ys: seq<string>, t: string)
    ensures Count(xs + ys, t) == Count(xs, t) + Count(ys, t)
  {
    if xs == [] {
      assert xs + ys == ys;
    } else {
      assert (xs + ys)[1..] == xs[1..] + ys;
      CountAppend(xs[1..], ys, t);
    }
  }

  /** The count is the multiplicity in the multiset of the tokens, so it does
      not depend on their order. */
  lemma {:induction false} CountIsMultiplicity(xs: seq<string>, t: string)
    ensures Count(xs, t) == multiset(xs)[t]
  {
    if xs != [] {
      assert xs == [xs[0]] + xs[1..];
      CountIsMultiplicity(xs[1..], t);
    }
  }

  /** No token occurs twice. */
  predicate Distinct(xs: seq<string>)
  {
    forall i, j :: 0 <= i < j < |xs| ==> xs[i] != xs[j]
  }

  /** A token occurs at least twice exactly when it sits at two positions. */
  lemma {:induction false} CountAtLeastTwo(xs: seq<string>, t: string)
    ensures Count(xs, t) >= 2 <==> exists i, j :: 0 <= i < j < |xs| && xs[i] == t && xs[j] == t
  {
    if xs != [] {
      CountAtLeastTwo(xs[1..], t);
      if Count(xs, t) >= 2 {
        if xs[0] == t {
          var j :| 0 <= j < |xs[1..]| && xs[1..][j] == t;
          assert xs[0] == t && xs[j + 1] == t;
        } else {
          var i, j :| 0 <= i < j < |xs[1..]| && xs[1..][i] == t && xs[1..][j] == t;
          assert xs[i + 1] == t && xs[j + 1] == t;
        }
      }
      if exists i, j :: 0 <= i < j < |xs| && xs[i] == t && xs[j] == t {
        var i, j :| 0 <= i < j < |xs| && xs[i] == t && xs[j] == t;
        if i == 0 {
          assert xs[1..][j - 1] == t;
        } else {
          assert xs[1..][i - 1] == t && xs[1..][j - 1] == t;
        }
      }
    }
  }

  /** The tokens are distinct exactly when none is counted twice. */
  lemma DistinctIffCountsAtMostOne(xs: seq<string>)
    ensures Distinct(xs) <==> forall t :: Count(xs, t) <= 1
  {
    forall t ensures Count(xs, t) >= 2 <==> exists i, j :: 0 <= i < j < |xs| && xs[i] == t && xs[j] == t {
      CountAtLeastTwo(xs, t);
    }
    if !Distinct(xs) {
      var i, j :| 0 <= i < j < |xs| && xs[i] == xs[j];
      assert Count(xs, xs[i]) >= 2;
    }
  }
}
