/** The layered nearest-neighbour index: in-place graph, visit stamps and tombstones. */
module HnswIndex {
  import opened Basics
  import opened Candidates
  import opened ProximityGraph

  const STAMP_RANGE: nat := 0x1_0000_0000

  function Range(n: nat): (r: set<nat>)
    ensures |r| == n
    ensures forall x: nat :: x in r <==> x < n
  {
    if n == 0 then {} else Range(n - 1) + {n - 1}
  }

  /** How often b occurs in s. */
  function Count(s: seq<bool>, b: bool): nat {
    if s == [] then 0 else Count(DropLast(s), b) + (if Last(s) == b then 1 else 0)
  }

  lemma {:induction false} CountUpdate(s: seq<bool>, i: nat)
    requires i < |s| && !s[i]
    ensures Count(s[i := true], true) == Count(s, true) + 1
  {
    var t := s[i := true];
    if i == |s| - 1 {
      assert DropLast(t) == DropLast(s);
    } else {
      CountUpdate(DropLast(s), i);
      assert DropLast(t) == DropLast(s)[i := true];
    }
  }

  /** No neighbour on the layer is closer to q than x is. */
  ghost predicate LocalMinimum(links: Links, data: seq<Vec>, q: Vec, layer: nat, x: nat) {
    forall y :: y in Neighbors(links, x, layer) ==> Dist(q, data, x) <= Dist(q, data, y)
  }

  lemma SameLayerLocalMinimum(a: Links, b: Links, data: seq<Vec>, q: Vec, layer: nat, x: nat)
    requires UntouchedOn(a, b, layer) && LocalMinimum(b, data, q, layer, x)
    ensures LocalMinimum(a, data, q, layer, x)
  {
    assert Neighbors(a, x, layer) == Neighbors(b, x, layer);
  }

  /** Greedy descent on one layer: a walk along links ends in a local minimum, no farther from q. */
  ghost predicate GreedyWalk(links: Links, data: seq<Vec>, q: Vec, layer: nat, from: nat, to: nat) {
    Reachable(links, layer, NO_SKIP, from, to) && LocalMinimum(links, data, q, layer, to) && Dist(q, data, to) <= Dist(q, data, from)
  }

  /** Greedy descent from start on layer `top`, continued on each layer from where the one above
      ended, down to the layer above target, ends at ep. */
  ghost predicate Descended(links: Links, data: seq<Vec>, q: Vec, start: nat, top: nat, target: nat, ep: nat)
    decreases if top > target then top - target else 0
  {
    if top <= target then ep == start
    else
      var layer := target + 1;
      exists mid: nat :: Descended(links, data, q, start, top, layer, mid) && GreedyWalk(links, data, q, layer, mid, ep)
  }

  lemma DescendOne(links: Links, data: seq<Vec>, q: Vec, start: nat, top: nat, target: nat, mid: nat, ep: nat)
    requires target < top && Descended(links, data, q, start, top, target + 1, mid) && GreedyWalk(links, data, q, target + 1, mid, ep)
    ensures Descended(links, data, q, start, top, target, ep)
  {
  }

  /** The part of a descent on layer l, for every layer above the target: it starts at start on the top
      layer and otherwise where the layer above ended, goes along links of the layer, and ends at a
      node that none of its neighbours there is closer than; the last one ends at ep. */
  lemma {:induction false} DescentOn(links: Links, data: seq<Vec>, q: Vec, start: nat, top: nat, target: nat, ep: nat, l: nat)
    returns (from: nat, to: nat)
    requires target < l <= top && Descended(links, data, q, start, top, target, ep)
    ensures Reachable(links, l, NO_SKIP, from, to) && Dist(q, data, to) <= Dist(q, data, from)
    ensures forall y :: y in Neighbors(links, to, l) ==> Dist(q, data, to) <= Dist(q, data, y)
    ensures Descended(links, data, q, start, top, l, from) && Descended(links, data, q, start, top, l - 1, to)
    ensures (l == top ==> from == start) && (l == target + 1 ==> to == ep)
    decreases top - target
  {
    hide Reachable, Dist;
    var layer := target + 1;
    var mid: nat :| Descended(links, data, q, start, top, layer, mid) && GreedyWalk(links, data, q, layer, mid, ep);
    if l == layer {
      from, to := mid, ep;
    } else {
      from, to := DescentOn(links, data, q, start, top, layer, mid, l);
    }
  }

  /** The descent looks at no layer up to the target. */
  lemma {:induction false} DescendedTransfers(a: Links, b: Links, data: seq<Vec>, q: Vec, start: nat, top: nat, target: nat, ep: nat)
    requires forall l :: target < l ==> UntouchedOn(a, b, l)
    requires Descended(b, data, q, start, top, target, ep)
    ensures Descended(a, data, q, start, top, target, ep)
    decreases if top > target then top - target else 0
  {
    hide SquaredDistance, LocalMinimum, Reachable, UntouchedOn;
    if top > target {
      var mid: nat :| Descended(b, data, q, start, top, target + 1, mid) && GreedyWalk(b, data, q, target + 1, mid, ep);
      DescendedTransfers(a, b, data, q, start, top, target + 1, mid);
      WalkUntouched(a, b, data, q, target + 1, mid, ep);
    }
  }

  lemma WalkUntouched(a: Links, b: Links, data: seq<Vec>, q: Vec, layer: nat, from: nat, to: nat)
    requires UntouchedOn(a, b, layer) && GreedyWalk(b, data, q, layer, from, to)
    ensures GreedyWalk(a, data, q, layer, from, to)
  {
    hide SquaredDistance, Reachable;
    SameLayerReachable(a, b, layer, NO_SKIP, from, to);
    SameLayerLocalMinimum(a, b, data, q, layer, to);
  }

  /** The live members of an ascending beam, in order and cut at k. */
  function LiveCut(found: seq<Cand>, deleted: seq<bool>, k: nat): (r: seq<Cand>)
    ensures |r| <= k
  {
    if found == [] || k == 0 then []
    else if found[0].id < |deleted| && deleted[found[0].id] then LiveCut(found[1..], deleted, k)
    else [found[0]] + LiveCut(found[1..], deleted, k - 1)
  }

  ghost predicate Live(deleted: seq<bool>, x: nat) {
    x < |deleted| ==> !deleted[x]
  }

  ghost function LivePool(found: seq<Cand>, deleted: seq<bool>): set<nat> {
    set c | c in found && Live(deleted, c.id) :: c.id
  }

  /** result is exactly the k members of pool nearest to q, or all of them, nearest first. */
  ghost predicate KNearest(result: seq<Cand>, q: Vec, data: seq<Vec>, pool: set<nat>, k: nat) {
    && Ascending(result) && |result| == Min(k, |pool|)
    && (forall c :: c in result ==> c.id in pool && c.dist == Dist(q, data, c.id))
    && (forall c, x :: c in result && x in pool && Cand(Dist(q, data, x), x) !in result ==> Before(c, Cand(Dist(q, data, x), x)))
  }

  lemma PoolCons(found: seq<Cand>, deleted: seq<bool>, q: Vec, data: seq<Vec>)
    requires found != [] && Ascending(found) && forall c :: c in found ==> c.dist == Dist(q, data, c.id)
    ensures forall x :: x in LivePool(found[1..], deleted) ==> Before(found[0], Cand(Dist(q, data, x), x))
    ensures LivePool(found, deleted) == LivePool(found[1..], deleted) + if Live(deleted, found[0].id) then {found[0].id} else {}
  {
    hide SquaredDistance, Dist;
    var rest := found[1..];
    assert found == [found[0]] + rest;
    forall x | x in LivePool(rest, deleted)
      ensures Before(found[0], Cand(Dist(q, data, x), x))
    {
      var c :| c in rest && c.id == x;
      assert c in found;
    }
  }

  lemma KNearestCons(c: Cand, result: seq<Cand>, q: Vec, data: seq<Vec>, pool: set<nat>, k: nat)
    requires KNearest(result, q, data, pool, k) && c.dist == Dist(q, data, c.id)
    requires forall x :: x in pool ==> Before(c, Cand(Dist(q, data, x), x))
    ensures KNearest([c] + result, q, data, pool + {c.id}, k + 1)
  {
    hide SquaredDistance, Dist;
    assert c.id !in pool;
    assert forall d :: d in result ==> Before(c, d);
  }

  lemma {:induction false} LiveCutIsNearest(found: seq<Cand>, deleted: seq<bool>, k: nat, q: Vec, data: seq<Vec>)
    requires Ascending(found) && forall c :: c in found ==> c.dist == Dist(q, data, c.id)
    ensures KNearest(LiveCut(found, deleted, k), q, data, LivePool(found, deleted), k)
    decreases |found|
  {
    hide SquaredDistance, Dist, LivePool;
    if found == [] {
      assert LivePool(found, deleted) == {} by { PoolEmpty(deleted); }
    } else if k > 0 {
      assert found == [found[0]] + found[1..];
      PoolCons(found, deleted, q, data);
      if Live(deleted, found[0].id) {
        LiveCutIsNearest(found[1..], deleted, k - 1, q, data);
        KNearestCons(found[0], LiveCut(found[1..], deleted, k - 1), q, data, LivePool(found[1..], deleted), k - 1);
      } else {
        LiveCutIsNearest(found[1..], deleted, k, q, data);
      }
    }
  }

  /** In numbers: as many results as the pool has, at most k, each with its distance, and every other
      member of the pool at least as far from q as each of them. */
  lemma NearestInNumbers(result: seq<Cand>, q: Vec, data: seq<Vec>, pool: set<nat>, k: nat)
    requires KNearest(result, q, data, pool, k) && forall x :: x in pool ==> x < |data|
    ensures |result| == if k < |pool| then k else |pool|
    ensures forall i :: 0 <= i < |result| ==> result[i].id in pool && result[i].dist == SquaredDistance(q, data[result[i].id])
    ensures forall i, x :: 0 <= i < |result| && x in pool ==>
              (exists j :: 0 <= j < |result| && result[j].id == x) || result[i].dist <= SquaredDistance(q, data[x])
  {
    hide SquaredDistance;
    assert forall i :: 0 <= i < |result| ==> result[i] in result;
    forall i, x | 0 <= i < |result| && x in pool
      ensures (exists j :: 0 <= j < |result| && result[j].id == x) || result[i].dist <= SquaredDistance(q, data[x])
    {
      var c := Cand(Dist(q, data, x), x);
      if c in result {
        var j :| 0 <= j < |result| && result[j] == c;
        assert result[j].id == x;
      } else {
        assert Before(result[i], c);
      }
    }
  }

  lemma PoolEmpty(deleted: seq<bool>)
    ensures LivePool([], deleted) == {}
  {
  }

  /** With a pool at least as large as what can be reached on the ground layer, the search answers
      exactly: the k nearest live reachable nodes, and no tombstone among them. */
  lemma KnnExact(links: Links, levels: seq<nat>, m: nat, data: seq<Vec>, q: Vec, ep: nat, pool: nat, deleted: seq<bool>, k: nat, beam: seq<Cand>)
    requires WellFormed(links, levels, m) && ep < |links|
    requires Beam(links, data, q, ep, pool, 0, NO_SKIP, beam)
    requires |Component(links, 0, NO_SKIP, ep)| <= pool
    ensures KNearest(LiveCut(beam, deleted, k), q, data,
                     (set x | x in Component(links, 0, NO_SKIP, ep) && Live(deleted, x)), k)
  {
    BeamSize(links, levels, m, data, q, ep, pool, 0, NO_SKIP, beam);
    LiveCutIsNearest(beam, deleted, k, q, data);
    var ids := Ids(beam);
    forall x | x in ids
      ensures exists c :: c in beam && c.id == x
    {
      var i :| 0 <= i < |beam| && ids[i] == x;
      assert beam[i] in beam;
    }
    forall c | c in beam
      ensures c.id in ids
    {
      var i :| 0 <= i < |beam| && beam[i] == c;
      assert ids[i] == c.id;
    }
    assert LivePool(beam, deleted) == set x | x in Component(links, 0, NO_SKIP, ep) && Live(deleted, x) by {
      assert Elements(ids) == Component(links, 0, NO_SKIP, ep);
    }
  }

  /** Whatever the pool, the answer names existing live nodes, each once, with true distances. */
  lemma LiveHits(links: Links, levels: seq<nat>, m: nat, data: seq<Vec>, deleted: seq<bool>, q: Vec, ep: nat, pool: nat, beam: seq<Cand>, k: nat)
    requires WellFormed(links, levels, m) && ep < |levels| == |deleted|
    requires Beam(links, data, q, ep, pool, 0, NO_SKIP, beam)
    ensures var r := LiveCut(beam, deleted, k);
            && Ascending(r) && |r| <= k
            && (forall i :: 0 <= i < |r| ==> r[i].id < |levels| && !deleted[r[i].id] && r[i].dist == Dist(q, data, r[i].id))
            && (forall i, j :: 0 <= i < j < |r| ==> r[i].id != r[j].id)
  {
    hide SquaredDistance, Dist;
    LiveCutIsNearest(beam, deleted, k, q, data);
    BeamMembers(links, levels, m, data, q, ep, pool, 0, NO_SKIP, beam);
    var r := LiveCut(beam, deleted, k);
    forall i | 0 <= i < |r|
      ensures r[i].id < |levels| && !deleted[r[i].id] && r[i].dist == Dist(q, data, r[i].id)
    {
      assert r[i] in r && r[i].id in LivePool(beam, deleted);
      var c :| c in beam && Live(deleted, c.id) && c.id == r[i].id;
      var j :| 0 <= j < |beam| && beam[j] == c;
      assert Ids(beam)[j] == c.id;
    }
    AscendingIds(r, (x: nat) => Dist(q, data, x));
    assert forall i :: 0 <= i < |r| ==> Ids(r)[i] == r[i].id;
  }

  /** The list of x on one layer after the first done of the neighbours have linked back to id. */
  ghost predicate LinkedBack(before: Links, after: Links, data: seq<Vec>, id: nat, layer: nat, x: nat, cap: nat) {
    && x < |data| && |Neighbors(before, x, layer)| <= cap && NoDuplicates(Neighbors(before, x, layer) + [id])
    && Neighbors(after, x, layer) == BackLink(data, x, Neighbors(before, x, layer), id, cap)
  }

  /** Linking node id on one layer: id gets the neighbours, each neighbour in done links back. */
  ghost predicate LayerLinked(before: Links, after: Links, data: seq<Vec>, id: nat, layer: nat, neighbors: seq<nat>, done: seq<nat>, cap: nat) {
    && |after| == |before|
    && (forall x :: 0 <= x < |before| ==> |after[x]| == |before[x]|)
    && (forall x, l :: (l != layer || (x != id && x !in done)) ==> Neighbors(after, x, l) == Neighbors(before, x, l))
    && Neighbors(after, id, layer) == neighbors
    && (forall x :: x in done ==> LinkedBack(before, after, data, id, layer, x, cap))
  }

  /** Node id is linked on layer l: its list is the head of a locally optimal beam over the graph
      before, its neighbours link back and all other lists are as before. */
  ghost predicate LinkedOn(before: Links, after: Links, data: seq<Vec>, id: nat, l: nat, m: nat, efc: nat, ep: nat, beam: seq<Cand>)
    requires id < |data|
  {
    && Beam(before, data, data[id], ep, efc, l, id, beam)
    && Neighbors(after, id, l) == Ids(beam)[..Min(m, |beam|)]
    && (forall x :: x != id && x !in Neighbors(after, id, l) ==> Neighbors(after, x, l) == Neighbors(before, x, l))
    && (forall x :: x in Neighbors(after, id, l) ==> x < id && LinkedBack(before, after, data, id, l, x, Cap(m, l)))
  }

  ghost predicate UntouchedOn(before: Links, after: Links, l: nat) {
    forall x: nat :: Neighbors(after, x, l) == Neighbors(before, x, l)
  }

  /** What adding node id does to the whole graph, when layers from .. top have been linked. */
  ghost predicate NodeLinked(before: Links, after: Links, data: seq<Vec>, id: nat, from: nat, top: int, m: nat, efc: nat,
                             eps: seq<nat>, beams: seq<seq<Cand>>)
    requires id < |data| && |eps| == |beams| == top + 1
  {
    && |after| == id + 1
    && (forall l: nat :: from <= l <= top ==> LinkedOn(before, after, data, id, l, m, efc, eps[l], beams[l]))
    && (forall l: nat :: l < from || l > top ==> UntouchedOn(before, after, l))
    && (forall l :: from <= l < top ==> eps[l] == beams[l + 1][0].id)
  }

  /** Linking one more layer leaves the layers above it linked. */
  lemma LinkNextLayer(before: Links, mid: Links, after: Links, data: seq<Vec>, id: nat, l: nat, top: int, m: nat, efc: nat,
                      eps: seq<nat>, beams: seq<seq<Cand>>, ep: nat, beam: seq<Cand>, neighbors: seq<nat>)
    requires id < |data| && |eps| == |beams| == top + 1 && l <= top
    requires NodeLinked(before, mid, data, id, l + 1, top, m, efc, eps, beams)
    requires Beam(mid, data, data[id], ep, efc, l, id, beam)
    requires neighbors == Ids(beam)[..Min(m, |beam|)] && forall x :: x in neighbors ==> x < id
    requires LayerLinked(mid, after, data, id, l, neighbors, neighbors, Cap(m, l))
    requires l < top ==> ep == beams[l + 1][0].id
    ensures NodeLinked(before, after, data, id, l, top, m, efc, eps[l := ep], beams[l := beam])
  {
    hide Beam, LinkedOn, UntouchedOn, LayerLinked;
    LinkedHere(before, mid, after, data, id, l, m, efc, ep, beam, neighbors);
    assert |after| == |mid| by { LayerFrame(mid, after, data, id, l, neighbors, Cap(m, l), l + 1); }
    forall k: nat | l < k <= top
      ensures LinkedOn(before, after, data, id, k, m, efc, eps[k], beams[k])
    {
      LayerFrame(mid, after, data, id, l, neighbors, Cap(m, l), k);
      LinkedTransfers(before, mid, after, data, id, k, m, efc, eps[k], beams[k]);
    }
    forall k: nat | k < l || k > top
      ensures UntouchedOn(before, after, k)
    {
      LayerFrame(mid, after, data, id, l, neighbors, Cap(m, l), k);
      UntouchedTransfers(before, mid, after, k);
    }
  }

  lemma LayerFrame(before: Links, after: Links, data: seq<Vec>, id: nat, layer: nat, neighbors: seq<nat>, cap: nat, k: nat)
    requires LayerLinked(before, after, data, id, layer, neighbors, neighbors, cap) && k != layer
    ensures |after| == |before| && UntouchedOn(before, after, k)
  {
  }

  lemma UntouchedTransfers(before: Links, mid: Links, after: Links, k: nat)
    requires UntouchedOn(before, mid, k) && UntouchedOn(mid, after, k)
    ensures UntouchedOn(before, after, k)
  {
    forall x: nat
      ensures Neighbors(after, x, k) == Neighbors(before, x, k)
    {
      assert Neighbors(after, x, k) == Neighbors(mid, x, k);
    }
  }

  lemma LinkedHere(before: Links, mid: Links, after: Links, data: seq<Vec>, id: nat, l: nat, m: nat, efc: nat,
                   ep: nat, beam: seq<Cand>, neighbors: seq<nat>)
    requires id < |data| && UntouchedOn(before, mid, l)
    requires Beam(mid, data, data[id], ep, efc, l, id, beam)
    requires neighbors == Ids(beam)[..Min(m, |beam|)] && forall x :: x in neighbors ==> x < id
    requires LayerLinked(mid, after, data, id, l, neighbors, neighbors, Cap(m, l))
    ensures LinkedOn(before, after, data, id, l, m, efc, ep, beam)
  {
    hide SquaredDistance, BackLink;
    SameLayerBeam(mid, before, data, data[id], ep, efc, l, id, beam);
    hide Beam;
    forall x | x in neighbors
      ensures LinkedBack(before, after, data, id, l, x, Cap(m, l))
    {
      assert LinkedBack(mid, after, data, id, l, x, Cap(m, l));
    }
  }

  lemma LinkedTransfers(before: Links, mid: Links, after: Links, data: seq<Vec>, id: nat, k: nat, m: nat, efc: nat, ep: nat, beam: seq<Cand>)
    requires id < |data| && LinkedOn(before, mid, data, id, k, m, efc, ep, beam)
    requires UntouchedOn(mid, after, k)
    ensures LinkedOn(before, after, data, id, k, m, efc, ep, beam)
  {
    hide SquaredDistance, BackLink, Beam;
    forall x | x in Neighbors(after, id, k)
      ensures LinkedBack(before, after, data, id, k, x, Cap(m, k))
    {
      assert LinkedBack(before, mid, data, id, k, x, Cap(m, k));
    }
  }

  /** After adding a node, each of its neighbours links back to it or has a full list of nodes that
      are all closer. */
  lemma LinksBackOrFull(before: Links, after: Links, levels: seq<nat>, data: seq<Vec>, id: nat, l: nat, m: nat, efc: nat,
                        ep: nat, beam: seq<Cand>, x: nat)
    requires id < |data| <= |levels| && WellFormed(before, levels[..id], m) && l <= levels[id]
    requires LinkedOn(before, after, data, id, l, m, efc, ep, beam) && x in Neighbors(after, id, l) && l <= levels[x]
    ensures id in Neighbors(after, x, l)
         || (|Neighbors(after, x, l)| == Cap(m, l)
             && forall z :: z in Neighbors(after, x, l) ==>
                  Before(Cand(Dist(data[x], data, z), z), Cand(Dist(data[x], data, id), id)))
  {
    hide SquaredDistance, Beam, BackLink;
    assert LinkedBack(before, after, data, id, l, x, Cap(m, l));
    var backlinks := Neighbors(before, x, l);
    assert GoodList(backlinks, levels[..id], x, l, Cap(m, l));
    BackLinkPrunes(data, levels, x, backlinks, id, l, Cap(m, l));
  }

  /** A new node on the layers it is linked on: its list is the first m of a beam around where the layer
      above ended, nearest first, or all of it. */
  lemma NewNodeLinks(before: Links, after: Links, data: seq<Vec>, id: nat, from: nat, top: nat, m: nat, efc: nat,
                     eps: seq<nat>, beams: seq<seq<Cand>>, l: nat)
    requires id < |data| && |eps| == |beams| == top + 1 && from <= l <= top
    requires NodeLinked(before, after, data, id, from, top, m, efc, eps, beams)
    ensures var list := Neighbors(after, id, l);
            && |list| == (if m < |beams[l]| then m else |beams[l]|) && (forall i :: 0 <= i < |list| ==> list[i] == beams[l][i].id)
    ensures Beam(before, data, data[id], eps[l], efc, l, id, beams[l])
    ensures l < top ==> beams[l + 1] != [] && eps[l] == beams[l + 1][0].id
    ensures forall k, x :: k > top ==> Neighbors(after, x, k) == Neighbors(before, x, k)
    ensures forall x :: x != id && x !in Neighbors(after, id, l) ==> Neighbors(after, x, l) == Neighbors(before, x, l)
  {
    hide SquaredDistance, BackLink, Reachable, Covered, Ascending;
    assert LinkedOn(before, after, data, id, l, m, efc, eps[l], beams[l]);
    if l < top { assert LinkedOn(before, after, data, id, l + 1, m, efc, eps[l + 1], beams[l + 1]); }
    forall k, x | k > top
      ensures Neighbors(after, x, k) == Neighbors(before, x, k)
    {
      assert UntouchedOn(before, after, k);
    }
  }

  /** No link is dropped from a list with room left: 2 * m on the ground layer, m above. */
  lemma RoomKeepsLinks(before: Links, after: Links, data: seq<Vec>, id: nat, l: nat, m: nat, efc: nat, ep: nat, beam: seq<Cand>, x: nat)
    requires id < |data| && LinkedOn(before, after, data, id, l, m, efc, ep, beam) && x in Neighbors(after, id, l)
    requires |Neighbors(before, x, l)| < if l == 0 then 2 * m else m
    ensures Neighbors(after, x, l) == Neighbors(before, x, l) + [id]
  {
    hide SquaredDistance, Beam, Nearest;
    assert LinkedBack(before, after, data, id, l, x, Cap(m, l));
  }

  // ---------- the loop state of a beam search ----------

  /** A queue holding true distances of seen nodes. */
  ghost predicate Heap(q: Vec, data: seq<Vec>, seen: set<nat>, s: seq<Cand>) {
    forall c :: c in s ==> c.id in seen && c.dist == Dist(q, data, c.id)
  }

  ghost predicate WalkedTo(links: Links, levels: seq<nat>, layer: nat, skip: nat, ep: nat, seen: set<nat>) {
    forall x :: x in seen ==> x < |levels| && layer <= levels[x] && Reachable(links, layer, skip, ep, x)
  }

  ghost predicate AllCovered(q: Vec, data: seq<Vec>, ef: nat, found: seq<Cand>, seen: set<nat>)
    requires found != []
  {
    forall x :: x in seen ==> Covered(q, data, ef, found, x)
  }

  /** Every member of the beam still waits in the min-heap or has been popped from it. */
  ghost predicate Pending(open: seq<Cand>, found: seq<Cand>, expanded: set<nat>) {
    forall c :: c in found ==> c in open || c.id in expanded
  }

  ghost predicate Scanned(links: Links, layer: nat, skip: nat, closed: set<nat>, seen: set<nat>) {
    forall x, y :: x in closed && Edge(links, layer, skip, x, y) ==> y in seen
  }

  /** open are the candidates of the min-heap, seen the nodes carrying this search's stamp, expanded
      those popped and closed those whose lists have been scanned. */
  ghost predicate Searching(links: Links, data: seq<Vec>, levels: seq<nat>, q: Vec, ep: nat, ef: nat, layer: nat, skip: nat,
                            open: seq<Cand>, found: seq<Cand>, seen: set<nat>, expanded: set<nat>, closed: set<nat>)
  {
    && 0 < |found| <= ef && ep in seen && Ascending(open) && Ascending(found)
    && Heap(q, data, seen, open) && Heap(q, data, seen, found)
    && WalkedTo(links, levels, layer, skip, ep, seen)
    && AllCovered(q, data, ef, found, seen)
    && Pending(open, found, expanded)
    && Scanned(links, layer, skip, closed, seen)
  }

  lemma HeapGrows(q: Vec, data: seq<Vec>, seen: set<nat>, s: seq<Cand>, nb: nat)
    requires Ascending(s) && Heap(q, data, seen, s) && nb !in seen
    ensures Heap(q, data, seen + {nb}, s)
    ensures Cand(Dist(q, data, nb), nb) !in s
    ensures Heap(q, data, seen + {nb}, Insert(s, Cand(Dist(q, data, nb), nb)))
  {
  }

  lemma OfferAll(q: Vec, data: seq<Vec>, ef: nat, open: seq<Cand>, found: seq<Cand>, seen: set<nat>, expanded: set<nat>, nb: nat)
    requires 0 < |found| <= ef && nb !in seen && Ascending(open) && Ascending(found)
    requires Heap(q, data, seen, found) && AllCovered(q, data, ef, found, seen)
    requires Heap(q, data, seen, open) && Pending(open, found, expanded)
    ensures var c := Cand(Dist(q, data, nb), nb);
            && c !in open && c !in found
            && Heap(q, data, seen + {nb}, Offer(found, ef, c)) && AllCovered(q, data, ef, Offer(found, ef, c), seen + {nb})
            && Pending(if |found| < ef || c.dist < Last(found).dist then Insert(open, c) else open, Offer(found, ef, c), expanded)
  {
    hide SquaredDistance, Insert;
    var c := Cand(Dist(q, data, nb), nb);
    forall z | z in seen + {nb}
      ensures Covered(q, data, ef, Offer(found, ef, c), z)
    {
      OfferKeepsCovered(q, data, found, ef, c, z);
    }
    OfferKeepsCovered(q, data, found, ef, c, nb);
  }

  /** Discovering an unseen neighbour keeps the loop state, whether or not it enters the beam. */
  lemma Discover(links: Links, data: seq<Vec>, levels: seq<nat>, q: Vec, ep: nat, ef: nat, layer: nat, skip: nat,
                 open: seq<Cand>, found: seq<Cand>, seen: set<nat>, expanded: set<nat>, closed: set<nat>, x: nat, nb: nat)
    requires Searching(links, data, levels, q, ep, ef, layer, skip, open, found, seen, expanded, closed)
    requires x in seen && Edge(links, layer, skip, x, nb) && nb !in seen && nb < |levels| && layer <= levels[nb]
    ensures var c := Cand(Dist(q, data, nb), nb);
            c !in open && c !in found &&
            Searching(links, data, levels, q, ep, ef, layer, skip,
                      if |found| < ef || c.dist < Last(found).dist then Insert(open, c) else open,
                      Offer(found, ef, c), seen + {nb}, expanded, closed)
  {
    hide SquaredDistance, Insert, Ascending, Heap, AllCovered, Pending;
    ReachableStep(links, layer, skip, ep, x, nb);
    HeapGrows(q, data, seen, open, nb);
    OfferAll(q, data, ef, open, found, seen, expanded, nb);
  }

  /** Popping the nearest candidate moves it from open to expanded. */
  lemma PopNearest(links: Links, data: seq<Vec>, levels: seq<nat>, q: Vec, ep: nat, ef: nat, layer: nat, skip: nat,
                   open: seq<Cand>, found: seq<Cand>, seen: set<nat>, closed: set<nat>)
    requires Searching(links, data, levels, q, ep, ef, layer, skip, open, found, seen, closed, closed) && open != []
    ensures open[0].id in seen && open[0].id < |levels| && layer <= levels[open[0].id]
    ensures Searching(links, data, levels, q, ep, ef, layer, skip, open[1..], found, seen, closed + {open[0].id}, closed)
  {
    assert open == [open[0]] + open[1..];
  }

  lemma ScanDone(links: Links, layer: nat, skip: nat, closed: set<nat>, seen: set<nat>, x: nat)
    requires Scanned(links, layer, skip, closed, seen)
    requires forall j :: 0 <= j < |Neighbors(links, x, layer)| && Neighbors(links, x, layer)[j] != skip ==> Neighbors(links, x, layer)[j] in seen
    ensures Scanned(links, layer, skip, closed + {x}, seen)
  {
  }

  /** Whatever is still unvisited at the end is farther than the whole beam, so every member of the
      beam has been expanded. */
  lemma BeamExpanded(links: Links, data: seq<Vec>, levels: seq<nat>, q: Vec, ep: nat, ef: nat, layer: nat, skip: nat,
                     open: seq<Cand>, found: seq<Cand>, seen: set<nat>, closed: set<nat>)
    requires Searching(links, data, levels, q, ep, ef, layer, skip, open, found, seen, closed, closed)
    requires open == [] || open[0].dist > Last(found).dist
    ensures Beam(links, data, q, ep, ef, layer, skip, found)
  {
    forall c | c in found
      ensures c.id in closed
    {
      assert c == Last(found) || Before(c, Last(found));
      assert c in open ==> c == open[0] || Before(open[0], c);
    }
  }

  class Index {
    const dim: nat
    const m: nat
    const efConstruction: nat

    var count: nat
    var deletedCount: nat
    var maxLevel: nat
    var entry: nat

    var data: seq<Vec>
    var links: Links
    var levels: seq<nat>
    var deleted: seq<bool>

    var visited: seq<nat>
    var visitCounter: nat

    /** Shape of the per-node vectors; holds even while a node is being linked in. */
    ghost predicate Shaped()
      reads this
    {
      && 2 <= m && m <= efConstruction
      && |data| == |links| == |levels| == |deleted| == |visited| <= NO_SKIP
      && (forall x :: 0 <= x < |data| ==> |data[x]| == dim)
      && StampsOld()
      && WellFormed(links, levels, m)
    }

    /** Every stored stamp is one that was handed out before. */
    ghost predicate StampsOld()
      reads this
    {
      visitCounter < STAMP_RANGE && forall x :: 0 <= x < |visited| ==> visited[x] <= visitCounter
    }

    ghost predicate Valid()
      reads this
    {
      && Shaped()
      && EntryOnTop(levels, entry, maxLevel)
      && count == |levels|
      && deletedCount == Count(deleted, true)
    }

    /** Every list is in bounds: at most 2 * m links on the ground layer and m above, all different, to
        other existing nodes that reach up to that layer. */
    lemma LinksInBounds(x: nat, l: nat)
      requires Valid() && x < |links| && l < |links[x]|
      ensures |links| == |levels| && |links[x]| == levels[x] + 1 && |links[x][l]| <= if l == 0 then 2 * m else m
      ensures forall i :: 0 <= i < |links[x][l]| ==>
                links[x][l][i] != x && links[x][l][i] < |links| && l < |links[links[x][l][i]]|
      ensures forall i, j :: 0 <= i < j < |links[x][l]| ==> links[x][l][i] != links[x][l][j]
    {
      hide Count;
      var list := links[x][l];
      ListIsGood(links, levels, m, x, l);
      assert Neighbors(links, x, l) == list;
      forall i | 0 <= i < |list|
        ensures list[i] != x && list[i] < |links| && l < |links[list[i]]|
      {
        assert list[i] in list;
      }
    }

    /** The entry node is on the top layer. */
    lemma EntryIsTop(x: nat)
      requires Valid() && x < |links|
      ensures entry < |links| && |links[x]| <= |links[entry]|
    {
      hide Count;
    }

    constructor (dim: nat, m: nat, efConstruction: nat)
      ensures Valid()
      ensures data == [] && links == [] && levels == [] && deleted == []
      ensures this.dim == dim && this.m == Max(m, 2) && this.efConstruction == Max(efConstruction, Max(m, 2))
    {
      this.dim := dim;
      this.m := Max(m, 2);
      this.efConstruction := Max(efConstruction, Max(m, 2));
      count, deletedCount, maxLevel, entry := 0, 0, 0, 0;
      data, links, levels, deleted := [], [], [], [];
      visited, visitCounter := [], 0;
    }

    /** A fresh stamp, different from everything stored, also when the 32-bit counter wraps. */
    method NextVisitStamp() returns (stamp: nat)
      requires StampsOld()
      modifies this`visited, this`visitCounter
      ensures StampsOld() && stamp == visitCounter && |visited| == |old(visited)|
      ensures 0 < stamp < 0x1_0000_0000
      ensures forall x :: 0 <= x < |visited| ==> visited[x] != stamp
      ensures old(visitCounter) + 1 < 0x1_0000_0000 ==> visited == old(visited)
    {
      visitCounter := (visitCounter + 1) % STAMP_RANGE;
      if visitCounter == 0 {
        visited := seq(|visited|, _ => 0);
        visitCounter := 1;
      }
      stamp := visitCounter;
    }

    method EnsureCapacity(id: nat)
      requires StampsOld()
      requires |data| == |links| == |levels| == |deleted| == |visited|
      modifies this`data, this`links, this`levels, this`deleted, this`visited
      ensures |data| == |links| == |levels| == |deleted| == |visited| == Max(|old(levels)|, id + 1)
      ensures old(data) <= data && old(links) <= links && old(levels) <= levels
      ensures old(deleted) <= deleted && old(visited) <= visited
      ensures forall x :: |old(levels)| <= x < |levels| ==>
                |data[x]| == dim && links[x] == [] && levels[x] == 0 && !deleted[x] && visited[x] == 0
      ensures StampsOld()
    {
      var need := id + 1;
      if need <= |levels| { return; }
      var grow := need - |levels|;
      data := data + seq(grow, _ => seq(dim, _ => 0.0));
      links := links + seq(grow, _ => []);
      levels := levels + seq(grow, _ => 0);
      deleted := deleted + seq(grow, _ => false);
      visited := visited + seq(grow, _ => 0);
    }

    method GreedyDescend(q: Vec, start: nat, layer: nat) returns (ep: nat)
      requires Shaped() && |q| == dim
      requires start < |levels| && layer <= levels[start]
      ensures ep < |levels| && layer <= levels[ep]
      ensures GreedyWalk(links, data, q, layer, start, ep)
      ensures forall i :: 0 <= i < |links[ep][layer]| && links[ep][layer][i] < |data| ==>
                SquaredDistance(q, data[ep]) <= SquaredDistance(q, data[links[ep][layer][i]])
    {
      hide SquaredDistance, WellFormed, Reachable;
      ep := start;
      var best := DistanceSq(q, data[ep]);
      var improved := true;
      ReachableSelf(links, layer, NO_SKIP, start);
      while improved
        invariant ep < |levels| && layer <= levels[ep] && best == Dist(q, data, ep)
        invariant best <= Dist(q, data, start)
        invariant Reachable(links, layer, NO_SKIP, start, ep)
        invariant !improved ==> LocalMinimum(links, data, q, layer, ep)
        decreases Closer(q, data, best), improved
      {
        improved := false;
        ListIsGood(links, levels, m, ep, layer);
        var nbs := links[ep][layer];
        ghost var base, baseDist := ep, best;
        for i := 0 to |nbs|
          invariant ep < |levels| && layer <= levels[ep] && best == Dist(q, data, ep)
          invariant best <= baseDist && (improved <==> best < baseDist)
          invariant !improved ==> ep == base
          invariant forall j :: 0 <= j < i ==> best <= Dist(q, data, nbs[j])
          invariant Reachable(links, layer, NO_SKIP, start, ep)
        {
          var nb := nbs[i];
          EdgeStaysOnLayer(links, levels, m, layer, base, nb);
          var d := DistanceSq(q, data[nb]);
          if d < best {
            best, ep, improved := d, nb, true;
            ReachableStep(links, layer, NO_SKIP, start, base, nb);
          }
        }
        if improved { CloserShrinks(q, data, ep, baseDist); }
      }
      ListIsGood(links, levels, m, ep, layer);
      MinimumInNumbers(links, data, q, layer, ep);
    }

    static lemma MinimumInNumbers(links: Links, data: seq<Vec>, q: Vec, layer: nat, x: nat)
      requires LocalMinimum(links, data, q, layer, x) && x < |links| && layer < |links[x]| && x < |data|
      ensures forall i :: 0 <= i < |links[x][layer]| && links[x][layer][i] < |data| ==>
                SquaredDistance(q, data[x]) <= SquaredDistance(q, data[links[x][layer][i]])
    {
      hide SquaredDistance;
      forall i | 0 <= i < |links[x][layer]| && links[x][layer][i] < |data|
        ensures SquaredDistance(q, data[x]) <= SquaredDistance(q, data[links[x][layer][i]])
      {
        assert links[x][layer][i] in Neighbors(links, x, layer);
      }
    }

    /** The nodes strictly closer to q than bound. */
    static ghost function Closer(q: Vec, data: seq<Vec>, bound: real): set<nat> {
      set x: nat | x < |data| && Dist(q, data, x) < bound
    }

    /** Moving to a strictly closer node leaves fewer nodes that are closer still. */
    static lemma CloserShrinks(q: Vec, data: seq<Vec>, ep: nat, bound: real)
      requires ep < |data| && Dist(q, data, ep) < bound
      ensures Closer(q, data, Dist(q, data, ep)) < Closer(q, data, bound)
    {
      assert ep in Closer(q, data, bound) && ep !in Closer(q, data, Dist(q, data, ep));
    }

    method SearchLayer(q: Vec, ep: nat, ef: nat, layer: nat, skip: nat) returns (result: seq<Cand>)
      requires Shaped() && |q| == dim
      requires ep < |levels| && layer <= levels[ep] && 0 < ef
      modifies this`visited, this`visitCounter
      ensures Shaped()
      ensures Beam(links, data, q, ep, ef, layer, skip, result)
    {
      var stamp := NextVisitStamp();
      var d0 := DistanceSq(q, data[ep]);
      var toVisit, found := [Cand(d0, ep)], [Cand(d0, ep)];
      visited := visited[ep := stamp];
      ghost var seen, closed := {ep}, {};
      ReachableSelf(links, layer, skip, ep);
      while toVisit != []
        invariant Shaped() && Stamped(stamp, seen)
        invariant Searching(links, data, levels, q, ep, ef, layer, skip, toVisit, found, seen, closed, closed)
        decreases |levels| - |seen|, |toVisit|
      {
        var cur := toVisit[0];
        if cur.dist > Last(found).dist { break; }
        ghost var seen0 := seen;
        toVisit, found, seen := ScanNeighbors(q, ep, ef, layer, skip, stamp, toVisit, found, seen, closed);
        closed := closed + {cur.id};
        SeenFits(seen);
        if seen != seen0 { SubsetSize(seen0, seen); }
      }
      BeamExpanded(links, data, levels, q, ep, ef, layer, skip, toVisit, found, seen, closed);
      result := Drain(found);
    }

    /** The stamp stands for the set of nodes seen by the running search. */
    ghost predicate Stamped(stamp: nat, seen: set<nat>)
      reads this
    {
      && stamp == visitCounter
      && forall x: nat :: x < |visited| ==> (visited[x] == stamp <==> x in seen)
    }

    /** Pops the nearest candidate and scans its neighbour list. */
    method ScanNeighbors(q: Vec, ep: nat, ef: nat, layer: nat, skip: nat, stamp: nat, open: seq<Cand>, beam: seq<Cand>,
                         ghost seen0: set<nat>, ghost closed: set<nat>)
      returns (toVisit: seq<Cand>, found: seq<Cand>, ghost seen: set<nat>)
      requires Shaped() && |q| == dim && open != [] && Stamped(stamp, seen0)
      requires Searching(links, data, levels, q, ep, ef, layer, skip, open, beam, seen0, closed, closed)
      modifies this`visited
      ensures Shaped() && Stamped(stamp, seen)
      ensures Searching(links, data, levels, q, ep, ef, layer, skip, toVisit, found, seen, closed + {open[0].id}, closed + {open[0].id})
      ensures seen0 <= seen && (seen == seen0 ==> |toVisit| < |open|)
    {
      hide SquaredDistance, Insert, Heap, AllCovered, Pending, WalkedTo, Dist;
      var cur := open[0];
      PopNearest(links, data, levels, q, ep, ef, layer, skip, open, beam, seen0, closed);
      toVisit, found, seen := open[1..], beam, seen0;
      var nbs := links[cur.id][layer];
      for i := 0 to |nbs|
        invariant Shaped() && Stamped(stamp, seen)
        invariant Searching(links, data, levels, q, ep, ef, layer, skip, toVisit, found, seen, closed + {cur.id}, closed)
        invariant forall j :: 0 <= j < i && nbs[j] != skip ==> nbs[j] in seen
        invariant cur.id in seen && seen0 <= seen
        invariant seen == seen0 ==> |toVisit| < |open|
      {
        var nb := nbs[i];
        EdgeStaysOnLayer(links, levels, m, layer, cur.id, nb);
        if nb == skip || visited[nb] == stamp { continue; }
        toVisit, found := Visit(q, ep, ef, layer, skip, stamp, toVisit, found, cur.id, nb, seen, closed + {cur.id}, closed);
        seen := seen + {nb};
      }
      ScanDone(links, layer, skip, closed, seen, cur.id);
    }

    /** Stamps an unseen neighbour and offers it to both heaps. */
    method Visit(q: Vec, ep: nat, ef: nat, layer: nat, skip: nat, stamp: nat, open: seq<Cand>, beam: seq<Cand>, x: nat, nb: nat,
                 ghost seen: set<nat>, ghost expanded: set<nat>, ghost closed: set<nat>)
      returns (toVisit: seq<Cand>, found: seq<Cand>)
      requires Shaped() && |q| == dim && Stamped(stamp, seen)
      requires Searching(links, data, levels, q, ep, ef, layer, skip, open, beam, seen, expanded, closed)
      requires x in seen && Edge(links, layer, skip, x, nb) && nb < |levels| && layer <= levels[nb] && visited[nb] != stamp
      modifies this`visited
      ensures Shaped() && Stamped(stamp, seen + {nb})
      ensures Searching(links, data, levels, q, ep, ef, layer, skip, toVisit, found, seen + {nb}, expanded, closed)
    {
      hide SquaredDistance, Insert, Ascending, Heap, AllCovered, Pending, Scanned, WalkedTo, WellFormed;
      var d := DistanceSq(q, data[nb]);
      var c := Cand(d, nb);
      Discover(links, data, levels, q, ep, ef, layer, skip, open, beam, seen, expanded, closed, x, nb);
      toVisit, found := open, beam;
      visited := visited[nb := stamp];
      if |found| < ef || d < Last(found).dist {
        toVisit := Insert(toVisit, c);
        found := Insert(found, c);
        if |found| > ef { found := DropLast(found); }
      }
      assert found == Offer(beam, ef, c);
    }

    /** Empties the max-heap and turns its descending output round. */
    static method Drain(beam: seq<Cand>) returns (result: seq<Cand>)
      ensures result == beam
    {
      var found := beam;
      result := [];
      while found != []
        invariant |found| <= |beam| && found == beam[..|found|]
        invariant |result| == |beam| - |found|
        invariant forall i :: 0 <= i < |result| ==> result[i] == beam[|beam| - 1 - i]
      {
        result := result + [Last(found)];
        found := DropLast(found);
      }
      result := Reverse(result);
    }

    static function Reverse(s: seq<Cand>): (r: seq<Cand>)
      ensures |r| == |s|
      ensures forall i :: 0 <= i < |s| ==> r[i] == s[|s| - 1 - i]
    {
      seq(|s|, i requires 0 <= i < |s| => s[|s| - 1 - i])
    }

    lemma SeenFits(seen: set<nat>)
      requires forall x :: x in seen ==> x < |levels|
      ensures |seen| <= |levels|
    {
      SubsetSize(seen, Range(|levels|));
    }

    method MarkDeleted(id: nat)
      requires Valid()
      modifies this`deleted, this`deletedCount
      ensures Valid()
      ensures deleted == if id < |old(deleted)| then old(deleted)[id := true] else old(deleted)
    {
      if id < |deleted| && !deleted[id] {
        CountUpdate(deleted, id);
        deleted := deleted[id := true];
        deletedCount := deletedCount + 1;
      }
    }

    // ---------- search ----------

    /** The k nearest live candidates; tombstones route the search but are not returned. */
    method SearchKnn(q: Vec, k: nat, ef: nat) returns (result: seq<Cand>, ghost ep: nat, ghost beam: seq<Cand>)
      requires Valid() && |q| == dim
      modifies this`visited, this`visitCounter
      ensures Valid()
      ensures count == 0 || k == 0 ==> result == []
      ensures count > 0 && k > 0 ==>
                && ep < |levels| && Descended(links, data, q, entry, maxLevel, 0, ep)
                && Beam(links, data, q, ep, Max(k, ef), 0, NO_SKIP, beam)
                && result == LiveCut(beam, deleted, k)
    {
      hide SquaredDistance, Beam, Descended;
      result, ep, beam := [], 0, [];
      if count == 0 || k == 0 { return; }
      var start := Descend(q, entry, maxLevel, 0);
      var pool := Max(k, ef);
      var candidates := SearchLayer(q, start, pool, 0, NO_SKIP);
      ep, beam := start, candidates;
      BeamMembers(links, levels, m, data, q, ep, pool, 0, NO_SKIP, beam);
      forall c | c in candidates
        ensures c.id < |deleted|
      {
        var i :| 0 <= i < |candidates| && candidates[i] == c;
        assert Ids(candidates)[i] == c.id && c.id in Ids(beam);
      }
      result := KeepLive(candidates, k);
    }

    method KeepLive(candidates: seq<Cand>, k: nat) returns (result: seq<Cand>)
      requires 0 < k && forall c :: c in candidates ==> c.id < |deleted|
      ensures result == LiveCut(candidates, deleted, k)
    {
      result := [];
      for i := 0 to |candidates|
        invariant |result| < k
        invariant result + LiveCut(candidates[i..], deleted, k - |result|) == LiveCut(candidates, deleted, k)
      {
        assert candidates[i..][0] == candidates[i] && candidates[i..][1..] == candidates[i + 1..];
        if deleted[candidates[i].id] { continue; }
        assert result + LiveCut(candidates[i..], deleted, k - |result|)
            == (result + [candidates[i]]) + LiveCut(candidates[i + 1..], deleted, k - |result| - 1);
        result := result + [candidates[i]];
        if |result| >= k {
          assert LiveCut(candidates[i + 1..], deleted, k - |result|) == [];
          break;
        }
      }
    }

    // ---------- insertion ----------

    static method TakeNearest(candidates: seq<Cand>, m: nat) returns (out: seq<nat>)
      requires 0 < m
      ensures out == Ids(candidates)[..Min(m, |candidates|)]
    {
      out := [];
      for i := 0 to |candidates|
        invariant i < m && out == Ids(candidates)[..i]
      {
        out := out + [candidates[i].id];
        if |out| >= m { break; }
      }
    }

    method ShrinkLinks(owner: nat, l: seq<nat>, cap: nat) returns (kept: seq<nat>)
      requires Shaped() && owner < |levels| && cap <= |l| && NoDuplicates(l)
      requires forall x :: x in l ==> x < |levels|
      ensures kept == Nearest(data, owner, l, cap)
    {
      hide SquaredDistance, Insert;
      var scratch := [];
      for i := 0 to |l|
        invariant scratch == Scratch(data, data[owner], l)[..i]
      {
        assert l[i] in l;
        var d := DistanceSq(data[owner], data[l[i]]);
        scratch := scratch + [Cand(d, l[i])];
      }
      assert scratch == Scratch(data, data[owner], l);
      var sorted := Sort(scratch);
      kept := [];
      for i := 0 to cap
        invariant kept == Ids(sorted[..cap])[..i]
      {
        kept := kept + [sorted[i].id];
      }
    }

    /** Writes the new node's list on one layer and the links back to it. */
    method LinkLayer(id: nat, layer: nat, neighbors: seq<nat>)
      requires Shaped() && id < |levels| && layer <= levels[id]
      requires GoodList(neighbors, levels, id, layer, Cap(m, layer))
      requires forall x: nat :: id !in Neighbors(links, x, layer)
      modifies this`links
      ensures Shaped()
      ensures LayerLinked(old(links), links, data, id, layer, neighbors, neighbors, Cap(m, layer))
    {
      hide SquaredDistance, BackLink, WellFormed;
      var cap := Cap(m, layer);
      ghost var before := links;
      SetListWellFormed(links, levels, m, id, layer, neighbors);
      links := SetList(links, id, layer, neighbors);
      for i := 0 to |neighbors|
        invariant Shaped()
        invariant LayerLinked(before, links, data, id, layer, neighbors, neighbors[..i], cap)
      {
        var nb := neighbors[i];
        assert nb !in neighbors[..i] && neighbors[..i + 1] == neighbors[..i] + [nb];
        ListIsGood(links, levels, m, nb, layer);
        var back := LinkNode(nb, id, layer, cap);
        SetListWellFormed(links, levels, m, nb, layer, back);
        ghost var mid := links;
        links := SetList(links, nb, layer, back);
        assert LayerLinked(before, links, data, id, layer, neighbors, neighbors[..i + 1], cap) by {
          forall x | x in neighbors[..i + 1]
            ensures LinkedBack(before, links, data, id, layer, x, cap)
          {
            assert x != nb ==> LinkedBack(before, mid, data, id, layer, x, cap);
          }
        }
      }
      assert neighbors[..|neighbors|] == neighbors;
    }

    /** The list of nb with id appended, shrunk when it is over the cap. */
    method LinkNode(nb: nat, id: nat, layer: nat, cap: nat) returns (back: seq<nat>)
      requires Shaped() && nb < |levels| && layer <= levels[nb] && id < |levels| && id != nb && layer <= levels[id]
      requires id !in links[nb][layer] && GoodList(links[nb][layer], levels, nb, layer, cap)
      ensures NoDuplicates(links[nb][layer] + [id])
      ensures back == BackLink(data, nb, links[nb][layer], id, cap)
      ensures GoodList(back, levels, nb, layer, cap)
    {
      hide SquaredDistance, Nearest;
      BackLinkPrunes(data, levels, nb, links[nb][layer], id, layer, cap);
      back := links[nb][layer] + [id];
      if |back| > cap { back := ShrinkLinks(nb, back, cap); }
    }

    /** Adds a point with an arbitrary level; ids are handed out densely. */
    method AddPoint(id: nat, vec: Vec, level: nat) returns (ghost eps: seq<nat>, ghost beams: seq<seq<Cand>>)
      requires Valid() && id == |levels| < NO_SKIP && |vec| == dim
      modifies this
      ensures Valid()
      ensures data == old(data) + [vec] && levels == old(levels) + [level] && deleted == old(deleted) + [false]
      ensures maxLevel == if old(count) == 0 then level else Max(old(maxLevel), level)
      ensures entry == if old(count) == 0 || level > old(maxLevel) then id else old(entry)
      ensures |eps| == |beams| == if old(count) == 0 then 0 else Min(level, old(maxLevel)) + 1
      ensures NodeLinked(old(links), links, data, id, 0, |eps| - 1, m, efConstruction, eps, beams)
      ensures old(count) > 0 ==> Descended(old(links), data, vec, old(entry), old(maxLevel), level, eps[|eps| - 1])
    {
      hide SquaredDistance, Beam, NodeLinked, Descended, WellFormed, Count, EntryOnTop, UntouchedOn;
      ghost var before := links;
      AppendUnlinked(id, vec, level);
      if count == 0 {
        eps, beams := [], [];
        EntryFirst(levels, level);
        entry, maxLevel, count := id, level, 1;
        return;
      }
      EntryAppend(old(levels), level, entry, maxLevel);
      eps, beams := LinkIn(id, level, before);
      if level > maxLevel {
        maxLevel, entry := level, id;
      }
      count := count + 1;
    }

    /** Descends to the new node's level and links it from there down. */
    method LinkIn(id: nat, level: nat, ghost before: Links) returns (ghost eps: seq<nat>, ghost beams: seq<seq<Cand>>)
      requires Shaped() && id + 1 == |levels| && id == |before| && levels[id] == level && entry < id && levels[entry] == maxLevel
      requires forall l :: UntouchedOn(before, links, l)
      requires WellFormed(before, levels[..id], m)
      modifies this`links, this`visited, this`visitCounter
      ensures Shaped()
      ensures |eps| == |beams| == Min(level, maxLevel) + 1
      ensures NodeLinked(before, links, data, id, 0, |eps| - 1, m, efConstruction, eps, beams)
      ensures Descended(before, data, data[id], entry, maxLevel, level, eps[|eps| - 1])
    {
      hide SquaredDistance, Beam, NodeLinked, Descended, GoodList, UntouchedOn;
      var ep := Descend(data[id], entry, maxLevel, level);
      DescendedTransfers(before, links, data, data[id], entry, maxLevel, level, ep);
      eps, beams := LinkLayers(id, ep, Min(level, maxLevel), before);
    }

    /** Stores the new node, still without links. */
    method AppendUnlinked(id: nat, vec: Vec, level: nat)
      requires Valid() && id == |levels| < NO_SKIP && |vec| == dim
      modifies this`data, this`links, this`levels, this`deleted, this`visited
      ensures Shaped() && deletedCount == Count(deleted, true)
      ensures data == old(data) + [vec] && levels == old(levels) + [level] && deleted == old(deleted) + [false]
      ensures forall l :: UntouchedOn(old(links), links, l)
      ensures count == 0 ==> NodeLinked(old(links), links, data, id, 0, -1, m, efConstruction, [], [])
    {
      hide SquaredDistance, WellFormed, Count, LinkedOn, Beam;
      ghost var before := links;
      AppendNode(links, levels, m, level);
      CountAppend(deleted);
      EnsureCapacity(id);
      data := data[id := vec];
      deleted := deleted[id := false];
      levels := levels[id := level];
      links := links[id := seq(level + 1, _ => [])];
      assert links == before + [seq(level + 1, _ => [])];
      assert levels == old(levels) + [level];
      assert data == old(data) + [vec];
      assert deleted == old(deleted) + [false];
    }

    /** Links the new node on every layer from top down to 0; each beam starts at the front of the
        one above. */
    method LinkLayers(id: nat, start: nat, top: nat, ghost before: Links) returns (ghost eps: seq<nat>, ghost beams: seq<seq<Cand>>)
      requires Shaped() && id + 1 == |levels| && id == |before| && start < id && top <= levels[start] && top <= levels[id]
      requires forall l :: UntouchedOn(before, links, l)
      requires WellFormed(before, levels[..id], m)
      modifies this`links, this`visited, this`visitCounter
      ensures Shaped()
      ensures |eps| == |beams| == top + 1 && eps[top] == start
      ensures NodeLinked(before, links, data, id, 0, top, m, efConstruction, eps, beams)
    {
      hide SquaredDistance, Beam, LinkedOn, UntouchedOn, LayerLinked;
      var ep: nat := start;
      eps, beams := seq(top + 1, _ => 0), seq(top + 1, _ => []);
      for lc := top + 1 downto 0
        invariant Shaped()
        invariant ep < id && (lc > 0 ==> lc - 1 <= levels[ep])
        invariant |eps| == |beams| == top + 1
        invariant NodeLinked(before, links, data, id, lc, top, m, efConstruction, eps, beams)
        invariant if lc == top + 1 then ep == start else eps[top] == start && beams[lc] != [] && ep == beams[lc][0].id
      {
        ghost var ep0, links0 := ep, links;
        ghost var beam, neighbors;
        ep, beam, neighbors := LinkOneLayer(id, ep, lc, before);
        LinkNextLayer(before, links0, links, data, id, lc, top, m, efConstruction, eps, beams, ep0, beam, neighbors);
        eps, beams := eps[lc := ep0], beams[lc := beam];
      }
    }

    /** One layer: beam search that skips the new node, the nearest m become its list, links back. */
    method LinkOneLayer(id: nat, ep: nat, lc: nat, ghost before: Links) returns (next: nat, ghost beam: seq<Cand>, ghost nearest: seq<nat>)
      requires Shaped() && id + 1 == |levels| && id == |before| && ep < id && lc <= levels[ep] && lc <= levels[id]
      requires UntouchedOn(before, links, lc) && WellFormed(before, levels[..id], m)
      modifies this`links, this`visited, this`visitCounter
      ensures Shaped()
      ensures Beam(old(links), data, data[id], ep, efConstruction, lc, id, beam)
      ensures nearest == Ids(beam)[..Min(m, |beam|)] && forall x :: x in nearest ==> x < id
      ensures LayerLinked(old(links), links, data, id, lc, nearest, nearest, Cap(m, lc))
      ensures beam != [] && next == beam[0].id && next < id && lc <= levels[next]
    {
      hide SquaredDistance, Beam, LayerLinked, GoodList;
      var candidates := SearchLayer(data[id], ep, efConstruction, lc, id);
      CandidatesOld(candidates, ep, lc, id);
      var neighbors := TakeNearest(candidates, m);
      beam, nearest := candidates, neighbors;
      NewIdUnlinked(before, links, levels, m, id, lc);
      LinkLayer(id, lc, neighbors);
      next := ep;
      if candidates != [] { next := candidates[0].id; }
    }

    static lemma NewIdUnlinked(before: Links, after: Links, levels: seq<nat>, m: nat, id: nat, layer: nat)
      requires id < |levels| && WellFormed(before, levels[..id], m) && UntouchedOn(before, after, layer)
      ensures forall x: nat :: id !in Neighbors(after, x, layer)
    {
      forall x: nat
        ensures id !in Neighbors(after, x, layer)
      {
        assert Neighbors(after, x, layer) == Neighbors(before, x, layer);
        assert WellFormed(before, levels[..id], m) && |levels[..id]| == id;
        if id in Neighbors(before, x, layer) { EdgeStaysOnLayer(before, levels[..id], m, layer, x, id); }
      }
    }

    static lemma EntryFirst(levels: seq<nat>, level: nat)
      requires levels == [level]
      ensures EntryOnTop(levels, 0, level)
    {
    }

    static lemma EntryAppend(levels: seq<nat>, level: nat, entry: nat, maxLevel: nat)
      requires EntryOnTop(levels, entry, maxLevel) && levels != []
      ensures entry < |levels| && levels[entry] == maxLevel
      ensures if level > maxLevel then EntryOnTop(levels + [level], |levels|, level) else EntryOnTop(levels + [level], entry, maxLevel)
    {
    }

    static lemma CountAppend(s: seq<bool>)
      ensures Count(s + [false], true) == Count(s, true)
    {
      assert DropLast(s + [false]) == s;
    }

    /** Greedy descent from the entry through the layers above the target. */
    method Descend(q: Vec, start: nat, from: nat, target: nat) returns (ep: nat)
      requires Shaped() && |q| == dim && start < |levels| && levels[start] >= from
      ensures ep < |levels| && Min(target, from) <= levels[ep] && (from > target ==> levels[ep] > target) && (from <= target ==> ep == start)
      ensures Descended(links, data, q, start, from, target, ep)
    {
      hide SquaredDistance, GreedyWalk, Descended;
      ep := start;
      var lc := from;
      assert Descended(links, data, q, start, from, if from < target then target else from, start) by { DescendNowhere(links, data, q, start, from, target); }
      while lc > target
        invariant ep < |levels| && lc <= levels[ep]
        invariant target <= lc <= from || lc == from <= target
        invariant (lc < from ==> lc + 1 <= levels[ep]) && (lc == from ==> ep == start)
        invariant Descended(links, data, q, start, from, if lc < target then target else lc, ep)
      {
        var mid := ep;
        ep := GreedyDescend(q, ep, lc);
        lc := lc - 1;
        DescendOne(links, data, q, start, from, lc, mid, ep);
      }
    }

    static lemma DescendNowhere(links: Links, data: seq<Vec>, q: Vec, start: nat, from: nat, target: nat)
      ensures Descended(links, data, q, start, from, if from < target then target else from, start)
    {
    }

    /** The beam over the graph without the new node: old nodes of the layer, usable as its list. */
    lemma CandidatesOld(found: seq<Cand>, ep: nat, layer: nat, id: nat)
      requires Shaped() && id == |levels| - 1 && ep < id && layer <= levels[ep] && layer <= levels[id]
      requires Beam(links, data, data[id], ep, efConstruction, layer, id, found)
      ensures found != [] && found[0].id < id && layer <= levels[found[0].id]
      ensures forall x :: x in Ids(found)[..Min(m, |found|)] ==> x < id
      ensures GoodList(Ids(found)[..Min(m, |found|)], levels, id, layer, Cap(m, layer))
    {
      BeamIdsDistinct(links, data, data[id], ep, efConstruction, layer, id, found);
      BeamMembers(links, levels, m, data, data[id], ep, efConstruction, layer, id, found);
      forall x | x in Ids(found)
        ensures x != id
      {
        var i :| 0 <= i < |found| && Ids(found)[i] == x;
        assert found[i] in found;
        AvoidsSkip(links, layer, id, ep, x);
      }
      assert Ids(found)[0] in Ids(found);
    }
  }
}
