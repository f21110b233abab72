/**
 * The cost arithmetic of PathFinder.cs: GetDistance, and the float costs of a search node, whose
 * default float.MaxValue absorbs every addition of a distance.
 */
module Costs {
  import opened HexMap
  import opened Walks

  /**
   * A node cost. `Fin(n)` is the whole number n; `Max` is float.MaxValue, the default G cost.
   * In single precision float.MaxValue plus any distance between int coordinates rounds back to
   * float.MaxValue, so `Max` absorbs addition.
   */
  datatype Cost = Fin(n: nat) | Max

  /** Addition of costs as the source's float addition behaves on these operands. */
  function Plus(a: Cost, b: Cost): (r: Cost)
    ensures r == Max <==> a == Max || b == Max
    ensures r.Fin? ==> r.n == a.n + b.n
  {
    if a == Max || b == Max then Max else Fin(a.n + b.n)
  }

  /** The strict float comparison `a < b`. */
  predicate Below(a: Cost, b: Cost)
  {
    match (a, b)
    case (Fin(x), Fin(y)) => x < y
    case (Fin(_), Max) => true
    case (Max, _) => false
  }

  /** `Below` is a strict total order: irreflexive, transitive, and any two distinct costs compare. */
  lemma BelowStrictTotal(a: Cost, b: Cost, c: Cost)
    ensures !Below(a, a)
    ensures Below(a, b) && Below(b, c) ==> Below(a, c)
    ensures a != b ==> Below(a, b) || Below(b, a)
  {
  }

  function Abs(v: int): nat
  {
    if v < 0 then -v else v
  }

  function Min(a: int, b: int): int
  {
    if a < b then a else b
  }

  /** GetDistance: |dx| + |dz| - min(|dx|, |dz|), which is the larger of |dx| and |dz|. */
  function Distance(a: Coord, b: Coord): (d: nat)
    ensures d == if Abs(a.0 - b.0) < Abs(a.1 - b.1) then Abs(a.1 - b.1) else Abs(a.0 - b.0)
  {
    var dx := Abs(a.0 - b.0);
    var dz := Abs(a.1 - b.1);
    dx + dz - Min(dx, dz)
  }

  /** GetDistance is a metric: symmetric, zero exactly on equal coordinates, and triangular. */
  lemma DistanceMetric(a: Coord, b: Coord, c: Coord)
    ensures Distance(a, b) == Distance(b, a)
    ensures Distance(a, b) == 0 <==> a == b
    ensures Distance(a, c) <= Distance(a, b) + Distance(b, c)
  {
  }

  /** Neighbours in either parity table are exactly one apart. */
  lemma DistanceAdjacent(a: Coord, b: Coord)
    requires Adjacent(a, b)
    ensures Distance(a, b) == 1
  {
    assert Delta(a, b) in EvenRowOffsets || Delta(a, b) in OddRowOffsets;
  }

  /**
   * The heuristic never overestimates: every walk from `from` takes at least GetDistance from
   * `from` to where it ends.
   */
  lemma {:induction false} DistanceBoundsWalk(m: map<Coord, Cell>, from: Coord, p: seq<Cell>)
    requires IsWalk(m, from, p)
    ensures Distance(from, End(from, p)) <= |p|
    decreases |p|
  {
    if p != [] {
      var n := |p| - 1;
      var w := End(from, p[..n]);
      WalkPrefix(m, from, p, n);
      DistanceBoundsWalk(m, from, p[..n]);
      WalkStep(m, from, p, n);
      DistanceAdjacent(w, KeyOf(p[n]));
      DistanceMetric(from, w, KeyOf(p[n]));
    }
  }

  /**
   * GetDistance is a lower bound, not the number of steps: (0, 0) and (2, 2) are two apart by it,
   * but no walk between them has fewer than three steps.
   */
  lemma DistanceNotExact(m: map<Coord, Cell>, p: seq<Cell>)
    requires IsWalk(m, (0, 0), p) && End((0, 0), p) == (2, 2)
    ensures Distance((0, 0), (2, 2)) == 2
    ensures |p| >= 3
  {
    assert Delta((0, 0), KeyOf(p[0])) in EvenRowOffsets;
    if |p| >= 2 {
      WalkStep(m, (0, 0), p, 1);
    }
  }
}
