/** The layered proximity graph as a value: reachability, well-formedness, what a beam search
    returns, and what linking back a new node does to a neighbour list. */
module ProximityGraph {
  import opened Basics
  import opened Candidates

  /** links[x][layer] is the neighbour list of node x on that layer. */
  type Links = seq<seq<seq<nat>>>

  /** The reserved id that no node has. */
  const NO_SKIP: nat := 0xFFFF_FFFF

  function Neighbors(links: Links, x: nat, layer: nat): seq<nat> {
    if x < |links| && layer < |links[x]| then links[x][layer] else []
  }

  function Dist(q: Vec, data: seq<Vec>, x: nat): real {
    if x < |data| then SquaredDistance(q, data[x]) else 0.0
  }

  // ---------- reachability ----------

  ghost predicate Edge(links: Links, layer: nat, skip: nat, x: nat, y: nat) {
    y != skip && y in Neighbors(links, x, layer)
  }

  ghost predicate ReachableIn(links: Links, layer: nat, skip: nat, from: nat, to: nat, steps: nat)
    decreases steps
  {
    if steps == 0 then from == to
    else exists mid: nat :: ReachableIn(links, layer, skip, from, mid, steps - 1) && Edge(links, layer, skip, mid, to)
  }

  ghost predicate Reachable(links: Links, layer: nat, skip: nat, from: nat, to: nat) {
    exists steps: nat :: ReachableIn(links, layer, skip, from, to, steps)
  }

  /** All nodes a walk on this layer can reach without passing through skip. */
  ghost function Component(links: Links, layer: nat, skip: nat, from: nat): set<nat> {
    set x: nat | x < |links| && Reachable(links, layer, skip, from, x)
  }

  lemma ReachableSelf(links: Links, layer: nat, skip: nat, from: nat)
    ensures Reachable(links, layer, skip, from, from)
  {
    assert ReachableIn(links, layer, skip, from, from, 0);
  }

  lemma ReachableStep(links: Links, layer: nat, skip: nat, from: nat, x: nat, y: nat)
    requires Reachable(links, layer, skip, from, x) && Edge(links, layer, skip, x, y)
    ensures Reachable(links, layer, skip, from, y)
  {
    var steps: nat :| ReachableIn(links, layer, skip, from, x, steps);
    assert ReachableIn(links, layer, skip, from, y, steps + 1);
  }

  lemma {:induction false} ClosedContainsWalk(links: Links, layer: nat, skip: nat, from: nat, to: nat, steps: nat, s: set<nat>)
    requires from in s && ReachableIn(links, layer, skip, from, to, steps)
    requires forall x, y :: x in s && Edge(links, layer, skip, x, y) ==> y in s
    ensures to in s
    decreases steps
  {
    if steps != 0 {
      var mid: nat :| ReachableIn(links, layer, skip, from, mid, steps - 1) && Edge(links, layer, skip, mid, to);
      ClosedContainsWalk(links, layer, skip, from, mid, steps - 1, s);
    }
  }

  lemma ClosedContains(links: Links, layer: nat, skip: nat, from: nat, s: set<nat>)
    requires from in s
    requires forall x, y :: x in s && Edge(links, layer, skip, x, y) ==> y in s
    ensures forall to :: Reachable(links, layer, skip, from, to) ==> to in s
  {
    forall to | Reachable(links, layer, skip, from, to)
      ensures to in s
    {
      var steps: nat :| ReachableIn(links, layer, skip, from, to, steps);
      ClosedContainsWalk(links, layer, skip, from, to, steps, s);
    }
  }

  lemma AvoidsSkip(links: Links, layer: nat, skip: nat, from: nat, to: nat)
    requires Reachable(links, layer, skip, from, to) && from != skip
    ensures to != skip
  {
    var steps: nat :| ReachableIn(links, layer, skip, from, to, steps);
  }

  /** Reachability on a layer depends on that layer's neighbour lists only. */
  lemma SameLayerReachable(a: Links, b: Links, layer: nat, skip: nat, from: nat, to: nat)
    requires forall x: nat :: Neighbors(a, x, layer) == Neighbors(b, x, layer)
    ensures Reachable(a, layer, skip, from, to) <==> Reachable(b, layer, skip, from, to)
  {
    if Reachable(a, layer, skip, from, to) { ReachableTransfers(a, b, layer, skip, from, to); }
    if Reachable(b, layer, skip, from, to) { ReachableTransfers(b, a, layer, skip, from, to); }
  }

  lemma ReachableTransfers(a: Links, b: Links, layer: nat, skip: nat, from: nat, to: nat)
    requires forall x: nat :: Neighbors(a, x, layer) == Neighbors(b, x, layer)
    requires Reachable(a, layer, skip, from, to)
    ensures Reachable(b, layer, skip, from, to)
  {
    var steps: nat :| ReachableIn(a, layer, skip, from, to, steps);
    WalkTransfers(a, b, layer, skip, from, to, steps);
  }

  lemma {:induction false} WalkTransfers(a: Links, b: Links, layer: nat, skip: nat, from: nat, to: nat, steps: nat)
    requires forall x: nat :: Neighbors(a, x, layer) == Neighbors(b, x, layer)
    requires ReachableIn(a, layer, skip, from, to, steps)
    ensures ReachableIn(b, layer, skip, from, to, steps)
    decreases steps
  {
    if steps != 0 {
      var mid: nat :| ReachableIn(a, layer, skip, from, mid, steps - 1) && Edge(a, layer, skip, mid, to);
      WalkTransfers(a, b, layer, skip, from, mid, steps - 1);
      assert Edge(b, layer, skip, mid, to);
    }
  }

  // ---------- well-formed graphs ----------

  ghost predicate GoodList(l: seq<nat>, levels: seq<nat>, owner: nat, layer: nat, cap: nat) {
    && |l| <= cap
    && NoDuplicates(l)
    && (forall y :: y in l ==> y < |levels| && y != owner && layer <= levels[y])
  }

  function Cap(m: nat, layer: nat): nat {
    if layer == 0 then 2 * m else m
  }

  ghost predicate WellFormed(links: Links, levels: seq<nat>, m: nat) {
    && |links| == |levels|
    && (forall x :: 0 <= x < |links| ==> |links[x]| == levels[x] + 1)
    && (forall x, layer: nat :: 0 <= x < |links| && layer <= levels[x] ==>
          GoodList(Neighbors(links, x, layer), levels, x, layer, Cap(m, layer)))
  }

  /** Replaces one neighbour list. */
  function SetList(links: Links, x: nat, layer: nat, l: seq<nat>): (r: Links)
    requires x < |links| && layer < |links[x]|
    ensures |r| == |links| && forall y :: 0 <= y < |links| ==> |r[y]| == |links[y]|
    ensures forall y, k :: Neighbors(r, y, k) == if y == x && k == layer then l else Neighbors(links, y, k)
  {
    links[x := links[x][layer := l]]
  }

  lemma SetListWellFormed(links: Links, levels: seq<nat>, m: nat, x: nat, layer: nat, l: seq<nat>)
    requires WellFormed(links, levels, m) && x < |links| && layer <= levels[x]
    requires GoodList(l, levels, x, layer, Cap(m, layer))
    ensures WellFormed(SetList(links, x, layer, l), levels, m)
  {
  }

  lemma ListIsGood(links: Links, levels: seq<nat>, m: nat, x: nat, layer: nat)
    requires WellFormed(links, levels, m) && x < |levels| && layer <= levels[x]
    ensures |links| == |levels| && |links[x]| == levels[x] + 1
    ensures GoodList(Neighbors(links, x, layer), levels, x, layer, Cap(m, layer))
  {
  }

  /** Appending a node without links. */
  lemma AppendNode(links: Links, levels: seq<nat>, m: nat, level: nat)
    requires WellFormed(links, levels, m)
    ensures var after := links + [seq(level + 1, _ => [])];
            WellFormed(after, levels + [level], m) &&
            forall x, l :: Neighbors(after, x, l) == Neighbors(links, x, l)
  {
    var after := links + [seq(level + 1, _ => [])];
    forall x, l: nat | 0 <= x < |after| && l <= (levels + [level])[x]
      ensures GoodList(Neighbors(after, x, l), levels + [level], x, l, Cap(m, l))
    {
      if x < |links| {
        assert GoodList(Neighbors(links, x, l), levels, x, l, Cap(m, l));
      }
    }
  }

  ghost predicate EntryOnTop(levels: seq<nat>, entry: nat, maxLevel: nat) {
    && (levels != [] ==> entry < |levels| && levels[entry] == maxLevel)
    && (forall x :: 0 <= x < |levels| ==> levels[x] <= maxLevel)
  }

  lemma EdgeStaysOnLayer(links: Links, levels: seq<nat>, m: nat, layer: nat, x: nat, y: nat)
    requires WellFormed(links, levels, m) && y in Neighbors(links, x, layer)
    ensures x < |links| && layer <= levels[x]
    ensures y < |links| && y != x && layer <= levels[y]
  {
    assert GoodList(Neighbors(links, x, layer), levels, x, layer, Cap(m, layer));
  }

  lemma {:induction false} WalkStaysOnLayer(links: Links, levels: seq<nat>, m: nat, layer: nat, skip: nat, from: nat, to: nat, steps: nat)
    requires WellFormed(links, levels, m)
    requires from < |links| && layer <= levels[from]
    requires ReachableIn(links, layer, skip, from, to, steps)
    ensures to < |links| && layer <= levels[to]
  {
    if steps != 0 {
      var mid: nat :| ReachableIn(links, layer, skip, from, mid, steps - 1) && Edge(links, layer, skip, mid, to);
      EdgeStaysOnLayer(links, levels, m, layer, mid, to);
    }
  }

  lemma ReachableStaysOnLayer(links: Links, levels: seq<nat>, m: nat, layer: nat, skip: nat, from: nat, to: nat)
    requires WellFormed(links, levels, m)
    requires from < |links| && layer <= levels[from]
    requires Reachable(links, layer, skip, from, to)
    ensures to < |links| && layer <= levels[to]
  {
    var steps: nat :| ReachableIn(links, layer, skip, from, to, steps);
    WalkStaysOnLayer(links, levels, m, layer, skip, from, to, steps);
  }

  // ---------- beam search results ----------

  /** x is in the beam, or the beam is full and x is no closer than its last member. */
  ghost predicate Covered(q: Vec, data: seq<Vec>, ef: nat, found: seq<Cand>, x: nat)
    requires found != []
  {
    Cand(Dist(q, data, x), x) in found || (|found| == ef && Last(found).dist <= Dist(q, data, x))
  }

  /** A locally optimal beam of at most ef reachable nodes in ascending order. */
  ghost predicate Beam(links: Links, data: seq<Vec>, q: Vec, ep: nat, ef: nat, layer: nat, skip: nat, found: seq<Cand>) {
    && 0 < |found| <= ef
    && Ascending(found)
    && (forall c :: c in found ==> c.dist == Dist(q, data, c.id) && Reachable(links, layer, skip, ep, c.id))
    && Covered(q, data, ef, found, ep)
    && (forall c, y :: c in found && Edge(links, layer, skip, c.id, y) ==> Covered(q, data, ef, found, y))
  }

  lemma BeamIdsDistinct(links: Links, data: seq<Vec>, q: Vec, ep: nat, ef: nat, layer: nat, skip: nat, found: seq<Cand>)
    requires Beam(links, data, q, ep, ef, layer, skip, found)
    ensures NoDuplicates(Ids(found))
    ensures |Elements(Ids(found))| == |found|
  {
    AscendingIds(found, (x: nat) => Dist(q, data, x));
    DistinctSize(Ids(found));
  }

  lemma BeamMembers(links: Links, levels: seq<nat>, m: nat, data: seq<Vec>, q: Vec, ep: nat, ef: nat, layer: nat, skip: nat, found: seq<Cand>)
    requires WellFormed(links, levels, m) && ep < |links| && layer <= levels[ep]
    requires Beam(links, data, q, ep, ef, layer, skip, found)
    ensures forall x :: x in Ids(found) ==> x < |links| && layer <= levels[x]
    ensures Elements(Ids(found)) <= Component(links, layer, skip, ep)
  {
    forall x | x in Ids(found)
      ensures x < |links| && layer <= levels[x] && Reachable(links, layer, skip, ep, x)
    {
      var i :| 0 <= i < |found| && Ids(found)[i] == x;
      assert found[i] in found;
      ReachableStaysOnLayer(links, levels, m, layer, skip, ep, x);
    }
  }

  /** A beam that is not full has found everything that can be reached. */
  lemma PartialBeamIsComplete(links: Links, data: seq<Vec>, q: Vec, ep: nat, ef: nat, layer: nat, skip: nat, found: seq<Cand>)
    requires Beam(links, data, q, ep, ef, layer, skip, found)
    requires |found| < ef
    ensures forall x :: Reachable(links, layer, skip, ep, x) ==> x in Ids(found)
  {
    var s := Elements(Ids(found));
    forall x | Cand(Dist(q, data, x), x) in found
      ensures x in s
    {
      var i :| 0 <= i < |found| && found[i] == Cand(Dist(q, data, x), x);
      assert Ids(found)[i] == x;
    }
    forall x, y | x in s && Edge(links, layer, skip, x, y)
      ensures y in s
    {
      var i :| 0 <= i < |found| && Ids(found)[i] == x;
      assert found[i] in found;
      assert Covered(q, data, ef, found, y);
    }
    ClosedContains(links, layer, skip, ep, s);
  }

  /** The beam holds exactly min(ef, reachable) nodes, so with ef at least the number of reachable
      nodes it is exactly that set, in ascending order. */
  lemma BeamSize(links: Links, levels: seq<nat>, m: nat, data: seq<Vec>, q: Vec, ep: nat, ef: nat, layer: nat, skip: nat, found: seq<Cand>)
    requires WellFormed(links, levels, m) && ep < |links| && layer <= levels[ep]
    requires Beam(links, data, q, ep, ef, layer, skip, found)
    ensures |found| == Min(ef, |Component(links, layer, skip, ep)|)
    ensures |Component(links, layer, skip, ep)| <= ef ==> Elements(Ids(found)) == Component(links, layer, skip, ep)
  {
    var all := Component(links, layer, skip, ep);
    BeamIdsDistinct(links, data, q, ep, ef, layer, skip, found);
    BeamMembers(links, levels, m, data, q, ep, ef, layer, skip, found);
    SubsetSize(Elements(Ids(found)), all);
    if |found| < ef {
      PartialBeamIsComplete(links, data, q, ep, ef, layer, skip, found);
      assert all <= Elements(Ids(found));
      assert all == Elements(Ids(found));
    } else if |all| <= ef {
      assert Elements(Ids(found)) == all;
    }
  }

  lemma {:induction false} SubsetSize<T>(a: set<T>, b: set<T>)
    requires a <= b
    ensures |a| <= |b|
    ensures |a| == |b| ==> a == b
  {
    assert b == a + (b - a);
    assert |b| == |a| + |b - a|;
    if |a| == |b| { assert b - a == {}; }
  }

  /** A beam cannot be improved locally: every neighbour of a member is a member too, or the beam has
      ef members and none of them is farther from q than that neighbour. */
  lemma BeamNeighbours(links: Links, data: seq<Vec>, q: Vec, ep: nat, ef: nat, layer: nat, skip: nat, found: seq<Cand>, i: nat, k: nat)
    requires Beam(links, data, q, ep, ef, layer, skip, found) && i < |found|
    requires found[i].id < |links| && layer < |links[found[i].id]| && k < |links[found[i].id][layer]|
    requires var y := links[found[i].id][layer][k]; y != skip && y < |data|
    ensures var y := links[found[i].id][layer][k];
            || (exists j :: 0 <= j < |found| && found[j].id == y)
            || (|found| == ef && forall j :: 0 <= j < |found| ==> found[j].dist <= SquaredDistance(q, data[y]))
  {
    hide SquaredDistance, Reachable;
    var y := links[found[i].id][layer][k];
    assert found[i] in found && Edge(links, layer, skip, found[i].id, y);
    assert Covered(q, data, ef, found, y);
    if Cand(Dist(q, data, y), y) in found {
      var j :| 0 <= j < |found| && found[j] == Cand(Dist(q, data, y), y);
      assert found[j].id == y;
    } else {
      assert forall j :: 0 <= j < |found| - 1 ==> Before(found[j], found[|found| - 1]);
    }
  }

  /** A beam only looks at one layer's lists. */
  lemma SameLayerBeam(a: Links, b: Links, data: seq<Vec>, q: Vec, ep: nat, ef: nat, layer: nat, skip: nat, found: seq<Cand>)
    requires forall x: nat :: Neighbors(a, x, layer) == Neighbors(b, x, layer)
    requires Beam(a, data, q, ep, ef, layer, skip, found)
    ensures Beam(b, data, q, ep, ef, layer, skip, found)
  {
    forall c | c in found
      ensures Reachable(b, layer, skip, ep, c.id)
    {
      SameLayerReachable(a, b, layer, skip, ep, c.id);
    }
  }

  // ---------- offering a candidate to the beam ----------

  function Offer(found: seq<Cand>, ef: nat, c: Cand): (r: seq<Cand>)
    requires 0 < |found| <= ef && Ascending(found) && c !in found
    ensures 0 < |r| <= ef && Ascending(r)
  {
    if |found| < ef || c.dist < Last(found).dist then
      var f := Insert(found, c);
      if |f| > ef then DropLast(f) else f
    else found
  }

  lemma OfferKeepsCovered(q: Vec, data: seq<Vec>, found: seq<Cand>, ef: nat, c: Cand, x: nat)
    requires 0 < |found| <= ef && Ascending(found) && c !in found
    requires c.dist == Dist(q, data, c.id)
    requires x == c.id || Covered(q, data, ef, found, x)
    ensures Covered(q, data, ef, Offer(found, ef, c), x)
    ensures forall d :: d in Offer(found, ef, c) ==> d in found || d == c
  {
    if |found| < ef || c.dist < Last(found).dist {
      var f := Insert(found, c);
      if |f| > ef {
        assert f == DropLast(f) + [Last(f)];
        assert Last(found) in f && c in f;
        var r := DropLast(f);
        assert Last(f) == Last(found) by {
          assert Before(c, Last(found));
          assert forall d :: d in found ==> d == Last(found) || Before(d, Last(found));
          assert Last(f) == c || Last(f) in found;
          var i :| 0 <= i < |f| && f[i] == Last(found);
          assert i < |f| - 1 ==> Before(f[i], Last(f));
        }
        assert Before(Last(r), Last(f));
      }
    }
  }

  // ---------- links back to a new node ----------

  function Scratch(data: seq<Vec>, base: Vec, l: seq<nat>): (r: seq<Cand>)
    ensures |r| == |l|
    ensures forall i :: 0 <= i < |l| ==> r[i] == Cand(Dist(base, data, l[i]), l[i])
  {
    seq(|l|, i requires 0 <= i < |l| => Cand(Dist(base, data, l[i]), l[i]))
  }

  /** The cap nearest members of l, nearest first. */
  function Nearest(data: seq<Vec>, owner: nat, l: seq<nat>, cap: nat): (r: seq<nat>)
    requires owner < |data| && cap <= |l| && NoDuplicates(l)
    ensures |r| == cap
  {
    Ids(Sort(Scratch(data, data[owner], l))[..cap])
  }

  /** A neighbour list after a new node has been appended and, past the cap, the list shrunk. */
  function BackLink(data: seq<Vec>, owner: nat, l: seq<nat>, id: nat, cap: nat): seq<nat>
    requires owner < |data| && |l| <= cap && NoDuplicates(l + [id])
  {
    if |l| + 1 > cap then Nearest(data, owner, l + [id], cap) else l + [id]
  }

  /** Sorting the scratch list keeps every member of l, with its distance. */
  lemma SortedScratch(data: seq<Vec>, owner: nat, l: seq<nat>)
    requires owner < |data| && NoDuplicates(l)
    ensures var sorted := Sort(Scratch(data, data[owner], l));
            && Ascending(sorted) && |sorted| == |l|
            && (forall c :: c in sorted ==> c.id in l && c.dist == Dist(data[owner], data, c.id))
            && (forall y :: y in l ==> Cand(Dist(data[owner], data, y), y) in sorted)
  {
    hide SquaredDistance, Ascending;
    var scratch := Scratch(data, data[owner], l);
    forall y | y in l
      ensures Cand(Dist(data[owner], data, y), y) in scratch
    {
      var k :| 0 <= k < |l| && l[k] == y;
      assert scratch[k] == Cand(Dist(data[owner], data, y), y);
    }
    forall c | c in Sort(scratch)
      ensures c.id in l && c.dist == Dist(data[owner], data, c.id)
    {
      assert c in scratch;
    }
  }

  /** The first cap of an ascending list: their ids are distinct and before all the others. */
  lemma FrontIsClosest(sorted: seq<Cand>, cap: nat, dist: nat -> real)
    requires Ascending(sorted) && cap <= |sorted| && forall c :: c in sorted ==> c.dist == dist(c.id)
    ensures NoDuplicates(Ids(sorted[..cap]))
    ensures forall x :: x in Ids(sorted[..cap]) ==> Cand(dist(x), x) in sorted
    ensures forall x, c :: x in Ids(sorted[..cap]) && c in sorted && c.id !in Ids(sorted[..cap]) ==> Before(Cand(dist(x), x), c)
  {
    var kept := sorted[..cap];
    var r := Ids(kept);
    assert Ascending(kept);
    AscendingIds(kept, dist);
    assert forall j :: 0 <= j < cap ==> r[j] == sorted[j].id && r[j] in r;
    forall x | x in r
      ensures Cand(dist(x), x) in sorted
      ensures forall c :: c in sorted && c.id !in r ==> Before(Cand(dist(x), x), c)
    {
      var i :| 0 <= i < |kept| && r[i] == x;
      assert kept[i] == sorted[i] && sorted[i] in sorted;
      forall c | c in sorted && c.id !in r
        ensures Before(sorted[i], c)
      {
        var j :| 0 <= j < |sorted| && sorted[j] == c;
      }
    }
  }

  lemma NearestKeepsClosest(data: seq<Vec>, owner: nat, l: seq<nat>, cap: nat)
    requires owner < |data| && cap <= |l| && NoDuplicates(l)
    ensures NoDuplicates(Nearest(data, owner, l, cap))
    ensures forall x :: x in Nearest(data, owner, l, cap) ==> x in l
    ensures forall x, y :: x in Nearest(data, owner, l, cap) && y in l && y !in Nearest(data, owner, l, cap) ==>
              Before(Cand(Dist(data[owner], data, x), x), Cand(Dist(data[owner], data, y), y))
  {
    SortedScratch(data, owner, l);
    var dist := (x: nat) => Dist(data[owner], data, x);
    hide SquaredDistance, Dist, Before, Ascending;
    FrontIsClosest(Sort(Scratch(data, data[owner], l)), cap, dist);
  }

  /** Pruning a back-link list: the list stays good, nothing is dropped unless it was full, what is
      dropped is farther than everything kept; so the neighbour links back to the new node unless
      its list is full of closer nodes. */
  lemma BackLinkPrunes(data: seq<Vec>, levels: seq<nat>, owner: nat, l: seq<nat>, id: nat, layer: nat, cap: nat)
    requires owner < |data| && id < |levels| && id != owner && layer <= levels[id] && id !in l
    requires GoodList(l, levels, owner, layer, cap)
    ensures NoDuplicates(l + [id])
    ensures GoodList(BackLink(data, owner, l, id, cap), levels, owner, layer, cap)
    ensures forall x :: x in BackLink(data, owner, l, id, cap) ==> x in l || x == id
    ensures forall x :: x in l + [id] && x !in BackLink(data, owner, l, id, cap) ==>
              |l| == cap && |BackLink(data, owner, l, id, cap)| == cap &&
              forall z :: z in BackLink(data, owner, l, id, cap) ==>
                Before(Cand(Dist(data[owner], data, z), z), Cand(Dist(data[owner], data, x), x))
  {
    if |l| + 1 > cap {
      NearestKeepsClosest(data, owner, l + [id], cap);
    }
  }
}
