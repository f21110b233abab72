/**
 * Walks over the map's neighbour relation: a walk from a coordinate is a sequence of cells, each one
 * a stored, walkable cell adjacent to the one before it. These are the paths FindPathOnMap returns.
 */
module Walks {
  import opened HexMap

  /** Where the walk p from `from` ends (`from` itself for the empty walk). */
  function End(from: Coord, p: seq<Cell>): Coord
  {
    if p == [] then from else KeyOf(p[|p| - 1])
  }

  /** The first cell of p is a step from `from`, and each later cell a step from the one before. */
  ghost predicate IsWalk(m: map<Coord, Cell>, from: Coord, p: seq<Cell>)
  {
    && (p != [] ==> Edge(m, from, p[0]))
    && (forall i, j :: 0 <= i < j < |p| && j == i + 1 ==> Edge(m, KeyOf(p[i]), p[j]))
  }

  /** No coordinate occurs twice in the walk, and the starting coordinate does not occur in it. */
  predicate NoRepeats(from: Coord, p: seq<Cell>)
  {
    && (forall i, j :: 0 <= i < j < |p| ==> KeyOf(p[i]) != KeyOf(p[j]))
    && (forall i :: 0 <= i < |p| ==> KeyOf(p[i]) != from)
  }

  /** Every walk from `from` to `to` takes at least d steps. */
  ghost predicate ShortestBound(m: map<Coord, Cell>, from: Coord, to: Coord, d: nat)
  {
    forall p :: IsWalk(m, from, p) && End(from, p) == to ==> d <= |p|
  }

  /** p is a walk from `from` to `to` that repeats no coordinate and is as short as any such walk. */
  ghost predicate ShortestWalk(m: map<Coord, Cell>, from: Coord, to: Coord, p: seq<Cell>)
  {
    IsWalk(m, from, p) && End(from, p) == to && NoRepeats(from, p) && ShortestBound(m, from, to, |p|)
  }

  /** No walk from `from` ends at `to`. */
  ghost predicate Unreachable(m: map<Coord, Cell>, from: Coord, to: Coord)
  {
    forall p :: IsWalk(m, from, p) ==> End(from, p) != to
  }

  /** The step into position n of a walk. */
  lemma WalkStep(m: map<Coord, Cell>, from: Coord, p: seq<Cell>, n: nat)
    requires IsWalk(m, from, p) && n < |p|
    ensures Edge(m, End(from, p[..n]), p[n])
  {
    if n > 0 {
      assert Edge(m, KeyOf(p[n - 1]), p[n]);
    }
  }

  lemma WalkPrefix(m: map<Coord, Cell>, from: Coord, p: seq<Cell>, n: nat)
    requires IsWalk(m, from, p) && n <= |p|
    ensures IsWalk(m, from, p[..n])
  {
    var q := p[..n];
    forall i, j | 0 <= i < j < |q| && j == i + 1 ensures Edge(m, KeyOf(q[i]), q[j]) {
      assert q[i] == p[i] && q[j] == p[j];
    }
  }

  lemma WalkAppend(m: map<Coord, Cell>, from: Coord, p: seq<Cell>, c: Cell)
    requires IsWalk(m, from, p) && Edge(m, End(from, p), c)
    ensures IsWalk(m, from, p + [c])
    ensures End(from, p + [c]) == KeyOf(c)
  {
    var q := p + [c];
    forall i, j | 0 <= i < j < |q| && j == i + 1 ensures Edge(m, KeyOf(q[i]), q[j]) {
      if j < |p| {
        assert q[i] == p[i] && q[j] == p[j];
      }
    }
  }

  /**
   * A set of coordinates that holds `from` and holds every stored, walkable neighbour of each of
   * its members holds the end of every walk from `from`.
   */
  lemma {:induction false} WalksStayInClosedSet(m: map<Coord, Cell>, s: set<Coord>, from: Coord, p: seq<Cell>)
    requires from in s
    requires forall k, c :: k in s && Edge(m, k, c) ==> KeyOf(c) in s
    requires IsWalk(m, from, p)
    ensures End(from, p) in s
    decreases |p|
  {
    if p != [] {
      var n := |p| - 1;
      WalkPrefix(m, from, p, n);
      WalksStayInClosedSet(m, s, from, p[..n]);
      WalkStep(m, from, p, n);
    }
  }
}
