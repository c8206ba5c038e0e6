/** Vectors, squared distances and the (distance, id) candidates ordered by the two heaps of the index. */
module Candidates {
  import opened Basics

  type Vec = seq<real>

  function Square(x: real): real {
    x * x
  }

  function SquaredUpTo(a: Vec, b: Vec, n: nat): real
    requires n <= |a| && n <= |b|
  {
    if n == 0 then 0.0 else SquaredUpTo(a, b, n - 1) + Square(a[n - 1] - b[n - 1])
  }

  /** Squared Euclidean distance; the index only compares vectors of one dimension. */
  function SquaredDistance(a: Vec, b: Vec): real {
    SquaredUpTo(a, b, Min(|a|, |b|))
  }

  lemma PositiveSquare(x: real)
    requires x > 0.0
    ensures Square(x) > 0.0
  {
    assert Square(x) / x == x;
  }

  lemma OppositeSquare(x: real)
    ensures Square(-x) == Square(x)
  {
  }

  lemma ZeroSquare()
    ensures Square(0.0) == 0.0
  {
  }

  lemma SquareSign(x: real)
    ensures x == 0.0 ==> Square(x) == 0.0
    ensures x != 0.0 ==> Square(x) > 0.0
  {
    hide Square;
    ZeroSquare();
    if x > 0.0 { PositiveSquare(x); }
    if x < 0.0 {
      OppositeSquare(x);
      PositiveSquare(-x);
    }
  }

  lemma {:induction false} SquaredUpToSign(a: Vec, b: Vec, n: nat)
    requires n <= |a| && n <= |b|
    ensures SquaredUpTo(a, b, n) >= 0.0
    ensures SquaredUpTo(a, b, n) == 0.0 <==> forall i :: 0 <= i < n ==> a[i] == b[i]
  {
    hide Square;
    if n > 0 {
      SquaredUpToSign(a, b, n - 1);
      SquareSign(a[n - 1] - b[n - 1]);
    }
  }

  /** A distance is never negative, and zero exactly between equal vectors. */
  lemma DistanceSign(a: Vec, b: Vec)
    requires |a| == |b|
    ensures SquaredDistance(a, b) >= 0.0 && SquaredDistance(a, a) == 0.0
    ensures SquaredDistance(a, b) == 0.0 <==> a == b
  {
    SquaredUpToSign(a, b, |a|);
    SquaredUpToSign(a, a, |a|);
  }

  lemma {:induction false} SquaredUpToCoordinate(a: Vec, b: Vec, i: nat, n: nat)
    requires i < |a| == |b| && n <= |a|
    ensures SquaredUpTo(a, b, n) == SquaredUpTo(a, b[i := a[i]], n) + if i < n then (a[i] - b[i]) * (a[i] - b[i]) else 0.0
  {
    if n > 0 { SquaredUpToCoordinate(a, b, i, n - 1); }
  }

  /** Every coordinate contributes the square of its difference. */
  lemma CoordinateCounts(a: Vec, b: Vec, i: nat)
    requires i < |a| == |b|
    ensures SquaredDistance(a, b) == SquaredDistance(a, b[i := a[i]]) + (a[i] - b[i]) * (a[i] - b[i])
  {
    SquaredUpToCoordinate(a, b, i, |a|);
  }

  method DistanceSq(a: Vec, b: Vec) returns (sum: real)
    requires |a| == |b|
    ensures sum == SquaredDistance(a, b)
  {
    sum := 0.0;
    for i := 0 to |a|
      invariant sum == SquaredUpTo(a, b, i)
    {
      var d := a[i] - b[i];
      sum := sum + d * d;
    }
  }

  /** A pair (squared distance, id), compared like a C++ pair. */
  datatype Cand = Cand(dist: real, id: nat)

  predicate Before(a: Cand, b: Cand) {
    a.dist < b.dist || (a.dist == b.dist && a.id < b.id)
  }

  ghost predicate Ascending(s: seq<Cand>) {
    forall i, j :: 0 <= i < j < |s| ==> Before(s[i], s[j])
  }

  /** Both priority queues are kept as ascending sequences: the min-heap's top is the head, the
      max-heap's top is the last element, and a push inserts in order. */
  function Insert(s: seq<Cand>, x: Cand): (r: seq<Cand>)
    requires Ascending(s) && x !in s
    ensures Ascending(r) && |r| == |s| + 1
    ensures forall c :: c in r <==> c == x || c in s
  {
    if s == [] then [x]
    else if Before(x, s[0]) then [x] + s
    else
      assert s == [s[0]] + s[1..];
      assert Before(s[0], x);
      var rest := Insert(s[1..], x);
      assert forall i :: 0 <= i < |rest| ==> rest[i] in rest;
      assert forall c :: c in s[1..] ==> Before(s[0], c);
      [s[0]] + rest
  }

  /** The order that sorting a scratch list of candidates produces. */
  function Sort(s: seq<Cand>): (r: seq<Cand>)
    requires forall i, j :: 0 <= i < j < |s| ==> s[i] != s[j]
    ensures Ascending(r) && |r| == |s|
    ensures forall c :: c in r <==> c in s
  {
    if s == [] then []
    else
      assert s == DropLast(s) + [Last(s)];
      Insert(Sort(DropLast(s)), Last(s))
  }

  function Ids(s: seq<Cand>): (r: seq<nat>)
    ensures |r| == |s|
    ensures forall i :: 0 <= i < |s| ==> r[i] == s[i].id
  {
    seq(|s|, i requires 0 <= i < |s| => s[i].id)
  }

  lemma {:induction false} DistinctSize<T>(s: seq<T>)
    requires NoDuplicates(s)
    ensures |Elements(s)| == |s|
  {
    if s != [] {
      DistinctSize(DropLast(s));
      assert s == DropLast(s) + [Last(s)];
      assert Elements(s) == Elements(DropLast(s)) + {Last(s)};
    }
  }

  /** In an ascending list whose distances are given by the id, ids are distinct. */
  lemma AscendingIds(s: seq<Cand>, dist: nat -> real)
    requires Ascending(s)
    requires forall c :: c in s ==> c.dist == dist(c.id)
    ensures NoDuplicates(Ids(s))
  {
    forall i, j | 0 <= i < j < |s|
      ensures s[i].id != s[j].id
    {
      assert s[i] in s && s[j] in s && Before(s[i], s[j]);
    }
  }
}
