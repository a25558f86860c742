/**
 * Levenshtein edit distance with unit costs for deleting, inserting and substituting a
 * character: the recursive definition on the last characters of both strings, its basic
 * properties, and the single-column dynamic programme the spell checker runs.
 */
module Levenshtein {

  /** The MIN3 macro: compare a with b, then the winner with c. */
  function Min3(a: int, b: int, c: int): (r: int)
    ensures r <= a && r <= b && r <= c
    ensures r == a || r == b || r == c
  {
    if a < b then (if a < c then a else c) else (if b < c then b else c)
  }

  /** Min3 of equal arguments is equal: lets the solver match two unfoldings cheaply. */
  lemma Min3Congruent(a: int, b: int, c: int, a': int, b': int, c': int)
    requires a == a' && b == b' && c == c'
    ensures Min3(a, b, c) == Min3(a', b', c')
  {
  }

  /** The cost of matching the last characters: 0 when they are equal, 1 otherwise. */
  function Cost(x: char, y: char): nat
  {
    if x == y then 0 else 1
  }

  /**
   * The edit distance of `a` and `b`, split on their last characters in the order the
   * dynamic programme takes its three candidates: drop the last character of b, drop the
   * last character of a, or match the two last characters.
   */
  function Distance(a: string, b: string): nat
    decreases |a| + |b|
  {
    if |a| == 0 then |b|
    else if |b| == 0 then |a|
    else Min3(Distance(a, b[..|b| - 1]) + 1,
              Distance(a[..|a| - 1], b) + 1,
              Distance(a[..|a| - 1], b[..|b| - 1]) + Cost(a[|a| - 1], b[|b| - 1]))
  }

  /** The distance does not depend on which string is the first. */
  lemma {:induction false} DistanceSymmetric(a: string, b: string)
    ensures Distance(a, b) == Distance(b, a)
    decreases |a| + |b|
  {
    if |a| > 0 && |b| > 0 {
      var a', b' := a[..|a| - 1], b[..|b| - 1];
      DistanceSymmetric(a, b');
      DistanceSymmetric(a', b);
      DistanceSymmetric(a', b');
    }
  }

  /** The distance lies between the difference and the larger of the two lengths. */
  lemma {:induction false} DistanceBounds(a: string, b: string)
    ensures Distance(a, b) <= if |a| < |b| then |b| else |a|
    ensures Distance(a, b) >= |a| - |b| && Distance(a, b) >= |b| - |a|
    decreases |a| + |b|
  {
    if |a| > 0 && |b| > 0 {
      var a', b' := a[..|a| - 1], b[..|b| - 1];
      DistanceBounds(a, b');
      DistanceBounds(a', b);
      DistanceBounds(a', b');
    }
  }

  /** Distance zero means equal strings, and only then. */
  lemma {:induction false} DistanceZero(a: string, b: string)
    ensures Distance(a, b) == 0 <==> a == b
    decreases |a| + |b|
  {
    if |a| > 0 && |b| > 0 {
      var a', b' := a[..|a| - 1], b[..|b| - 1];
      DistanceZero(a', b');
      if a == b {
        assert a' == b';
      } else if Distance(a, b) == 0 {
        DistanceBounds(a, b');
        DistanceBounds(a', b);
      }
    } else {
      DistanceBounds(a, b);
    }
  }

  /**
   * The distance of s1[..y] and s2[..x] by the same recurrence, on the two lengths: the
   * values the dynamic programme keeps in its column.
   */
  function PrefixDistance(s1: string, s2: string, y: nat, x: nat): nat
    requires y <= |s1| && x <= |s2|
    decreases y + x
  {
    if y == 0 then x
    else if x == 0 then y
    else Min3(PrefixDistance(s1, s2, y, x - 1) + 1,
              PrefixDistance(s1, s2, y - 1, x) + 1,
              PrefixDistance(s1, s2, y - 1, x - 1) + Cost(s1[y - 1], s2[x - 1]))
  }

  /** The length-indexed recurrence and the distance agree on s1[..y] and s2[..x]. */
  ghost predicate Agrees(s1: string, s2: string, y: nat, x: nat)
    requires y <= |s1| && x <= |s2|
  {
    PrefixDistance(s1, s2, y, x) == Distance(s1[..y], s2[..x])
  }

  /** The length-indexed recurrence computes the distance of the two prefixes. */
  lemma {:induction false} PrefixDistanceIsDistance(s1: string, s2: string, y: nat, x: nat)
    requires y <= |s1| && x <= |s2|
    ensures Agrees(s1, s2, y, x)
    decreases y + x
  {
    if y > 0 && x > 0 {
      PrefixDistanceIsDistance(s1, s2, y, x - 1);
      PrefixDistanceIsDistance(s1, s2, y - 1, x);
      PrefixDistanceIsDistance(s1, s2, y - 1, x - 1);
      DistanceStep(s1, s2, y, x);
      var c := Cost(s1[y - 1], s2[x - 1]);
      Min3Congruent(PrefixDistance(s1, s2, y, x - 1) + 1, PrefixDistance(s1, s2, y - 1, x) + 1,
                    PrefixDistance(s1, s2, y - 1, x - 1) + c,
                    Distance(s1[..y], s2[..x - 1]) + 1, Distance(s1[..y - 1], s2[..x]) + 1,
                    Distance(s1[..y - 1], s2[..x - 1]) + c);
    } else {
      assert |s1[..y]| == y && |s2[..x]| == x;
    }
  }

  /** The recurrence of Distance, written for two prefixes. */
  lemma DistanceStep(s1: string, s2: string, y: nat, x: nat)
    requires 0 < y <= |s1| && 0 < x <= |s2|
    ensures Distance(s1[..y], s2[..x]) ==
            Min3(Distance(s1[..y], s2[..x - 1]) + 1,
                 Distance(s1[..y - 1], s2[..x]) + 1,
                 Distance(s1[..y - 1], s2[..x - 1]) + Cost(s1[y - 1], s2[x - 1]))
  {
    var a, b := s1[..y], s2[..x];
    assert a[..y - 1] == s1[..y - 1] && b[..x - 1] == s2[..x - 1];
  }

  /**
   * computeLevenshtein: a single column of the dynamic programme, indexed by the length of
   * a prefix of s1, swept once per character of s2. Two empty strings are excluded: the
   * original then returns column[0] without ever having set it.
   */
  method ComputeLevenshtein(s1: string, s2: string) returns (d: int)
    requires |s1| > 0 || |s2| > 0
    ensures d == Distance(s1, s2)
    ensures |s2| == 0 ==> d == |s1|
    ensures |s1| == 0 ==> d == |s2|
  {
    var column := new int[|s1| + 1];
    var y := 1;
    while y <= |s1|
      invariant 1 <= y <= |s1| + 1
      invariant forall y' :: 1 <= y' < y ==> column[y'] == y'
    {
      column[y] := y;
      y := y + 1;
    }
    var x := 1;
    while x <= |s2|
      invariant 1 <= x <= |s2| + 1
      invariant forall y' {:trigger column[y']} :: 1 <= y' <= |s1| ==> column[y'] == PrefixDistance(s1, s2, y', x - 1)
      invariant x > 1 ==> column[0] == x - 1
    {
      column[0] := x;
      SweepColumn(column, s1, s2, x);
      x := x + 1;
    }
    PrefixDistanceIsDistance(s1, s2, |s1|, |s2|);
    assert Agrees(s1, s2, |s1|, |s2|);
    assert s1[..|s1|] == s1 && s2[..|s2|] == s2;
    if |s1| == 0 {
      assert |s2| > 0;
    }
    d := column[|s1|];
  }

  /**
   * One pass of the outer loop of computeLevenshtein: with column[y] holding the distance
   * of s1[..y] to s2[..x - 1] and column[0] == x, move every column[y] on to s2[..x],
   * carrying the previous row's diagonal value along.
   */
  method SweepColumn(column: array<int>, s1: string, s2: string, x: int)
    requires column.Length == |s1| + 1 && 1 <= x <= |s2|
    requires column[0] == x
    requires forall y' {:trigger column[y']} :: 1 <= y' <= |s1| ==> column[y'] == PrefixDistance(s1, s2, y', x - 1)
    modifies column
    ensures column[0] == x
    ensures forall y' {:trigger column[y']} :: 1 <= y' <= |s1| ==> column[y'] == PrefixDistance(s1, s2, y', x)
  {
    var y := 1;
    var lastdiag := x - 1;
    while y <= |s1|
      invariant 1 <= y <= |s1| + 1
      invariant column[0] == x
      invariant forall y' {:trigger column[y']} :: 1 <= y' < y ==> column[y'] == PrefixDistance(s1, s2, y', x)
      invariant forall y' {:trigger column[y']} :: y <= y' <= |s1| ==> column[y'] == PrefixDistance(s1, s2, y', x - 1)
      invariant lastdiag == PrefixDistance(s1, s2, y - 1, x - 1)
    {
      var olddiag := column[y];
      assert column[y - 1] == PrefixDistance(s1, s2, y - 1, x);
      column[y] := Min3(column[y] + 1, column[y - 1] + 1, lastdiag + Cost(s1[y - 1], s2[x - 1]));
      assert column[y] == PrefixDistance(s1, s2, y, x);
      lastdiag := olddiag;
      y := y + 1;
    }
  }
}
