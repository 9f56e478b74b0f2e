/**
 * The orders Python's `sorted` uses on the values of the model, and
 * duplicate-free sorted lists (`sorted(set(xs))`).
 *
 * Strings compare lexicographically by code point.  `pathlib` paths compare
 * part by part; for paths without empty parts that is the lexicographic order
 * in which the separator '/' ranks below every other character.
 */
module Ordering {

  datatype Order = CodePoint | PathParts

  function Rank(o: Order, c: char): int {
    if o == PathParts && c == '/' then -1 else c as int
  }

  lemma RankInjective(o: Order, c: char, d: char)
    requires Rank(o, c) == Rank(o, d)
    ensures c == d
  {
  }

  /** a sorts strictly before b. */
  predicate Less(o: Order, a: string, b: string)
    decreases |a|
  {
    if a == [] then b != []
    else if b == [] then false
    else if a[0] == b[0] then Less(o, a[1..], b[1..])
    else Rank(o, a[0]) < Rank(o, b[0])
  }

  lemma {:induction false} LessIrreflexive(o: Order, a: string)
    ensures !Less(o, a, a)
    decreases |a|
  {
    if a != [] { LessIrreflexive(o, a[1..]); }
  }

  lemma {:induction false} LessTransitive(o: Order, a: string, b: string, c: string)
    requires Less(o, a, b) && Less(o, b, c)
    ensures Less(o, a, c)
    decreases |a|
  {
    if a != [] && b != [] && c != [] && a[0] == b[0] && b[0] == c[0] {
      LessTransitive(o, a[1..], b[1..], c[1..]);
    }
  }

  lemma {:induction false} LessTotal(o: Order, a: string, b: string)
    requires a != b
    ensures Less(o, a, b) || Less(o, b, a)
    decreases |a|
  {
    if a != [] && b != [] {
      if a[0] == b[0] {
        assert a[1..] != b[1..] by { assert a == [a[0]] + a[1..] && b == [b[0]] + b[1..]; }
        LessTotal(o, a[1..], b[1..]);
      } else if Rank(o, a[0]) == Rank(o, b[0]) {
        RankInjective(o, a[0], b[0]);
      }
    }
  }

  lemma LessAsymmetric(o: Order, a: string, b: string)
    requires Less(o, a, b)
    ensures !Less(o, b, a)
  {
    if Less(o, b, a) {
      LessTransitive(o, a, b, a);
      LessIrreflexive(o, a);
    }
  }

  /** Strictly increasing: sorted and free of duplicates. */
  predicate StrictlySorted(o: Order, xs: seq<string>) {
    forall i, j :: 0 <= i < j < |xs| ==> Less(o, xs[i], xs[j])
  }

  /** xs lists exactly the elements of s, in increasing order: `xs == sorted(s)`. */
  ghost predicate SortedListOf(o: Order, xs: seq<string>, s: set<string>) {
    StrictlySorted(o, xs) && (forall x :: x in xs <==> x in s)
  }

  lemma StrictlySortedTail(o: Order, xs: seq<string>)
    requires xs != [] && StrictlySorted(o, xs)
    ensures StrictlySorted(o, xs[1..])
    ensures forall y :: y in xs[1..] ==> Less(o, xs[0], y)
  {
    forall y | y in xs[1..] ensures Less(o, xs[0], y) {
      var j :| 0 <= j < |xs[1..]| && xs[1..][j] == y;
      assert xs[j + 1] == y;
    }
  }

  lemma StrictlySortedCons(o: Order, x: string, xs: seq<string>)
    requires StrictlySorted(o, xs)
    requires forall y :: y in xs ==> Less(o, x, y)
    ensures StrictlySorted(o, [x] + xs)
  {
    var r := [x] + xs;
    forall i, j | 0 <= i < j < |r| ensures Less(o, r[i], r[j]) {
      assert r[j] == xs[j - 1];
      if i > 0 { assert r[i] == xs[i - 1]; }
    }
  }

  /** Inserts x into a strictly increasing list, keeping it so (x already present: unchanged). */
  function Insert(o: Order, x: string, xs: seq<string>): (r: seq<string>)
    requires StrictlySorted(o, xs)
    ensures StrictlySorted(o, r)
    ensures forall y :: y in r <==> y == x || y in xs
    ensures x in xs ==> r == xs
  {
    if xs == [] then [x]
    else if x == xs[0] then xs
    else if Less(o, x, xs[0]) then
      StrictlySortedTail(o, xs);
      forall y | y in xs ensures Less(o, x, y) {
        if y != xs[0] { LessTransitive(o, x, xs[0], y); }
      }
      StrictlySortedCons(o, x, xs);
      LessIrreflexive(o, x);
      [x] + xs
    else
      StrictlySortedTail(o, xs);
      LessTotal(o, x, xs[0]);
      StrictlySortedCons(o, xs[0], Insert(o, x, xs[1..]));
      [xs[0]] + Insert(o, x, xs[1..])
  }

  /** `sorted(set(xs))`. */
  function SortUnique(o: Order, xs: seq<string>): (r: seq<string>)
    ensures SortedListOf(o, r, set x | x in xs)
  {
    if xs == [] then [] else Insert(o, xs[|xs| - 1], SortUnique(o, xs[..|xs| - 1]))
  }

  /** A set has exactly one sorted listing: `sorted` is a function of the set. */
  lemma {:induction false} SortedListUnique(o: Order, xs: seq<string>, ys: seq<string>, s: set<string>)
    requires SortedListOf(o, xs, s) && SortedListOf(o, ys, s)
    ensures xs == ys
    decreases |xs|
  {
    if xs != [] && ys != [] {
      StrictlySortedTail(o, xs);
      StrictlySortedTail(o, ys);
      if xs[0] != ys[0] {
        assert ys[0] in s && xs[0] in s;
        var i :| 0 <= i < |xs| && xs[i] == ys[0];
        var j :| 0 <= j < |ys| && ys[j] == xs[0];
        assert Less(o, xs[0], xs[i]);
        assert Less(o, ys[0], ys[j]);
        LessAsymmetric(o, xs[0], ys[0]);
        assert false;
      }
      var rest := s - {xs[0]};
      forall y ensures y in xs[1..] <==> y in rest {
        if y in xs[1..] { LessIrreflexive(o, y); }
      }
      forall y ensures y in ys[1..] <==> y in rest {
        if y in ys[1..] { LessIrreflexive(o, y); }
      }
      SortedListUnique(o, xs[1..], ys[1..], rest);
      assert xs == [xs[0]] + xs[1..];
      assert ys == [ys[0]] + ys[1..];
    } else if xs != [] {
      HeadIsMember(xs);
      assert false;
    } else if ys != [] {
      HeadIsMember(ys);
      assert false;
    }
  }

  lemma HeadIsMember(xs: seq<string>)
    ensures xs != [] ==> xs[0] in xs
  {
  }

  /** `sorted(s)` for a set, by inserting its elements one at a time. */
  method SortSet(o: Order, s: set<string>) returns (r: seq<string>)
    ensures SortedListOf(o, r, s)
  {
    r := [];
    var rest := s;
    while rest != {}
      invariant rest <= s
      invariant SortedListOf(o, r, s - rest)
      decreases rest
    {
      var x :| x in rest;
      r := Insert(o, x, r);
      rest := rest - {x};
    }
  }
}
