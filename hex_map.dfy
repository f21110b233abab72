/**
 * The hexagonal grid map of Map.cs: a dictionary from offset coordinates (x, z) to cells,
 * the odd-row offset adjacency tables and the neighbour query built on them.
 */
module HexMap {
  import opened Wrappers

  /** An offset-layout coordinate (x, z); also used for an offset (dx, dz). */
  type Coord = (int, int)

  /**
   * The data part of a cell (Cell.cs): its coordinates, whether it can be walked on, and whether
   * its obstacle marker is shown (the source's `Obstacle` game object being active).
   */
  datatype Cell = Cell(x: int, z: int, walkable: bool, obstacleShown: bool)

  /** The dictionary key of a cell; two nodes or cells are "equal" in the source iff their keys are. */
  function KeyOf(c: Cell): Coord
  {
    (c.x, c.z)
  }

  /** Every cell is stored under its own coordinates. */
  ghost predicate WellKeyed(cells: map<Coord, Cell>)
  {
    forall k :: k in cells ==> KeyOf(cells[k]) == k
  }

  /** Neighbour offsets of a cell in an even row, in the order GetNeighbors visits them. */
  const EvenRowOffsets: seq<Coord> := [(1, 0), (0, -1), (-1, -1), (-1, 0), (-1, 1), (0, 1)]

  /** Neighbour offsets of a cell in an odd row, in the order GetNeighbors visits them. */
  const OddRowOffsets: seq<Coord> := [(1, 0), (1, -1), (0, -1), (-1, 0), (0, 1), (1, 1)]

  /**
   * The table chosen by the parity of the row. The source tests `z % 2 == 0` with C#'s truncating
   * remainder; for a zero test that agrees with Dafny's Euclidean remainder, negative rows included.
   */
  function Offsets(z: int): (r: seq<Coord>)
    ensures |r| == 6
    ensures forall i, j :: 0 <= i < j < |r| ==> r[i] != r[j]
    ensures (0, 0) !in r
  {
    if z % 2 == 0 then EvenRowOffsets else OddRowOffsets
  }

  function Shift(a: Coord, d: Coord): Coord
  {
    (a.0 + d.0, a.1 + d.1)
  }

  function Delta(a: Coord, b: Coord): Coord
  {
    (b.0 - a.0, b.1 - a.1)
  }

  /** b lies at one of the offsets of a's row parity. */
  predicate Adjacent(a: Coord, b: Coord)
  {
    Delta(a, b) in Offsets(a.1)
  }

  /** The adjacency tables describe a symmetric relation: the six neighbours of a cell list it back. */
  lemma AdjacentSymmetric(a: Coord, b: Coord)
    requires Adjacent(a, b)
    ensures Adjacent(b, a)
  {
    if a.1 % 2 == 0 {
      assert Delta(a, b) in EvenRowOffsets;
      if b.1 != a.1 {
        assert b.1 % 2 != 0;
      }
    } else {
      assert Delta(a, b) in OddRowOffsets;
      if b.1 != a.1 {
        assert b.1 % 2 == 0;
      }
    }
  }

  /** No cell is its own neighbour. */
  lemma AdjacentIrreflexive(a: Coord)
    ensures !Adjacent(a, a)
  {
  }

  /**
   * The cells that the scan of GetNeighbors collects around `at` from the offsets `offs`, in the
   * order of `offs`: the stored cell at each shifted coordinate, when there is one and it is walkable.
   */
  function Collect(cells: map<Coord, Cell>, at: Coord, offs: seq<Coord>): (r: seq<Cell>)
    ensures |r| <= |offs|
    decreases |offs|
  {
    if offs == [] then []
    else
      var rest := Collect(cells, at, offs[..|offs| - 1]);
      var k := Shift(at, offs[|offs| - 1]);
      if k in cells && cells[k].walkable then rest + [cells[k]] else rest
  }

  /** The result of GetNeighbors for a cell at `at`. */
  function NeighborsOf(cells: map<Coord, Cell>, at: Coord): seq<Cell>
  {
    Collect(cells, at, Offsets(at.1))
  }

  /** c is a stored, walkable cell adjacent to `from`: a step a path may take. */
  predicate Edge(cells: map<Coord, Cell>, from: Coord, c: Cell)
  {
    KeyOf(c) in cells && cells[KeyOf(c)] == c && c.walkable && Adjacent(from, KeyOf(c))
  }

  /** The first position of d in s, |s| when absent. */
  function IndexOf(s: seq<Coord>, d: Coord): (i: nat)
    ensures i <= |s|
    ensures i < |s| ==> s[i] == d
  {
    if s == [] then 0 else if s[0] == d then 0 else 1 + IndexOf(s[1..], d)
  }

  /** The table position of the offset that leads from `at` to c. */
  function Rank(at: Coord, c: Cell): nat
  {
    IndexOf(Offsets(at.1), Delta(at, KeyOf(c)))
  }

  lemma {:induction false} CollectExact(cells: map<Coord, Cell>, at: Coord, offs: seq<Coord>, c: Cell)
    requires WellKeyed(cells)
    ensures c in Collect(cells, at, offs) <==>
              KeyOf(c) in cells && cells[KeyOf(c)] == c && c.walkable && Delta(at, KeyOf(c)) in offs
    decreases |offs|
  {
    if offs != [] {
      var init := offs[..|offs| - 1];
      CollectExact(cells, at, init, c);
      assert offs == init + [offs[|offs| - 1]];
      var k := Shift(at, offs[|offs| - 1]);
      if Delta(at, KeyOf(c)) == offs[|offs| - 1] {
        assert KeyOf(c) == k;
      }
      if k in cells && cells[k].walkable && c == cells[k] {
        assert Delta(at, KeyOf(c)) == offs[|offs| - 1];
      }
    }
  }

  /** The cells of r lie at distinct offsets from `at`, listed in the order of the table offs. */
  predicate InOffsetOrder(at: Coord, offs: seq<Coord>, r: seq<Cell>)
  {
    forall i, j :: 0 <= i < j < |r| ==>
      IndexOf(offs, Delta(at, KeyOf(r[i]))) < IndexOf(offs, Delta(at, KeyOf(r[j]))) < |offs|
  }

  lemma {:induction false} CollectOrdered(cells: map<Coord, Cell>, at: Coord, offs: seq<Coord>)
    requires WellKeyed(cells)
    requires forall i, j :: 0 <= i < j < |offs| ==> offs[i] != offs[j]
    ensures InOffsetOrder(at, offs, Collect(cells, at, offs))
    decreases |offs|
  {
    if offs != [] {
      var n := |offs| - 1;
      var init := offs[..n];
      var rest := Collect(cells, at, init);
      CollectOrdered(cells, at, init);
      forall i | 0 <= i < |rest|
        ensures IndexOf(offs, Delta(at, KeyOf(rest[i]))) == IndexOf(init, Delta(at, KeyOf(rest[i]))) < n
      {
        CollectExact(cells, at, init, rest[i]);
        IndexOfPrefix(offs, n, Delta(at, KeyOf(rest[i])));
      }
      forall i, j | 0 <= i < j < |rest|
        ensures IndexOf(offs, Delta(at, KeyOf(rest[i]))) < IndexOf(offs, Delta(at, KeyOf(rest[j]))) < n
      {
        assert InOffsetOrder(at, init, rest);
      }
      var k := Shift(at, offs[n]);
      var r := Collect(cells, at, offs);
      if k in cells && cells[k].walkable {
        var c := cells[k];
        assert r == rest + [c];
        assert Delta(at, KeyOf(c)) == offs[n];
        IndexOfLast(offs, offs[n]);
        forall i, j | 0 <= i < j < |r|
          ensures IndexOf(offs, Delta(at, KeyOf(r[i]))) < IndexOf(offs, Delta(at, KeyOf(r[j]))) < |offs|
        {
          assert r[i] == rest[i];
          if j < |rest| {
            assert r[j] == rest[j];
          } else {
            assert r[j] == c;
          }
        }
      } else {
        assert r == rest;
      }
    }
  }

  /** The first position of d does not depend on what follows the first n entries when d is among them. */
  lemma {:induction false} IndexOfPrefix(s: seq<Coord>, n: nat, d: Coord)
    requires n <= |s|
    requires d in s[..n]
    ensures IndexOf(s, d) == IndexOf(s[..n], d) < n
    decreases n
  {
    assert s[..n][0] == s[0];
    if s[0] != d {
      assert s[..n][1..] == s[1..][..n - 1];
      IndexOfPrefix(s[1..], n - 1, d);
    }
  }

  /** In a sequence without duplicates, the last entry is found at the last position. */
  lemma {:induction false} IndexOfLast(s: seq<Coord>, d: Coord)
    requires |s| > 0 && s[|s| - 1] == d
    requires forall i, j :: 0 <= i < j < |s| ==> s[i] != s[j]
    ensures IndexOf(s, d) == |s| - 1
    decreases |s|
  {
    if |s| > 1 {
      assert s[0] != d;
      assert s[1..][|s| - 2] == d;
      IndexOfLast(s[1..], d);
    }
  }

  /** A cell is returned by GetNeighbors exactly when it is a stored, walkable, adjacent cell. */
  lemma NeighborsExact(cells: map<Coord, Cell>, at: Coord, c: Cell)
    requires WellKeyed(cells)
    ensures c in NeighborsOf(cells, at) <==> Edge(cells, at, c)
  {
    CollectExact(cells, at, Offsets(at.1), c);
  }

  /**
   * GetNeighbors returns at most six cells, in the order of the parity-selected table; hence no
   * coordinate twice.
   */
  lemma NeighborsOrdered(cells: map<Coord, Cell>, at: Coord)
    requires WellKeyed(cells)
    ensures |NeighborsOf(cells, at)| <= 6
    ensures var r := NeighborsOf(cells, at);
            forall i, j :: 0 <= i < j < |r| ==> Rank(at, r[i]) < Rank(at, r[j]) < 6
    ensures var r := NeighborsOf(cells, at);
            forall i, j :: 0 <= i < j < |r| ==> KeyOf(r[i]) != KeyOf(r[j])
  {
    var offs := Offsets(at.1);
    CollectOrdered(cells, at, offs);
    var r := NeighborsOf(cells, at);
    assert r == Collect(cells, at, offs);
    forall i, j | 0 <= i < j < |r| ensures Rank(at, r[i]) < Rank(at, r[j]) < 6 {
      assert IndexOf(offs, Delta(at, KeyOf(r[i]))) < IndexOf(offs, Delta(at, KeyOf(r[j]))) < |offs|;
    }
  }

  /** A cell with its walkability restored and its obstacle marker hidden. */
  function Cleared(c: Cell): (r: Cell)
    ensures r.walkable && !r.obstacleShown
    ensures KeyOf(r) == KeyOf(c)
  {
    c.(walkable := true, obstacleShown := false)
  }

  /** The map of Map.cs: the cell dictionary and the neighbour list it reuses on every query. */
  class Map {
    var cells: map<Coord, Cell>
    var neighbors: seq<Cell>

    ghost predicate Valid()
      reads this
    {
      WellKeyed(cells)
    }

    constructor ()
      ensures Valid()
      ensures cells == map[] && neighbors == []
    {
      cells := map[];
      neighbors := [];
    }

    /** Stores c under its own coordinates, replacing any cell already there. */
    method AddCell(c: Cell)
      requires Valid()
      modifies this`cells
      ensures Valid()
      ensures cells == old(cells)[KeyOf(c) := c]
    {
      cells := cells[KeyOf(c) := c];
    }

    /** The cell stored at (x, z), or None; a lookup never fails. */
    function GetCell(x: int, z: int): (r: Option<Cell>)
      reads this
      ensures r.Some? <==> (x, z) in cells
      ensures r.Some? ==> r.value == cells[(x, z)]
      ensures Valid() && r.Some? ==> r.value.x == x && r.value.z == z
    {
      if (x, z) in cells then Some(cells[(x, z)]) else None
    }

    /** Makes every stored cell walkable and hides its obstacle; no cell is added or removed. */
    method SetAllCellsWalkable()
      requires Valid()
      modifies this`cells
      ensures Valid()
      ensures cells.Keys == old(cells).Keys
      ensures forall k :: k in cells ==> cells[k] == Cleared(old(cells)[k])
    {
      var pending := cells.Keys;
      while pending != {}
        invariant pending <= cells.Keys
        invariant cells.Keys == old(cells).Keys
        invariant forall k :: k in cells ==>
                    cells[k] == if k in pending then old(cells)[k] else Cleared(old(cells)[k])
        decreases pending
      {
        var k :| k in pending;
        cells := cells[k := Cleared(cells[k])];
        pending := pending - {k};
      }
    }

    /**
     * Clears the reusable list and refills it with the stored, walkable cells at the six offsets
     * of c's row parity, in table order; the list is also the result. The dictionary is untouched.
     */
    method GetNeighbors(c: Cell) returns (r: seq<Cell>)
      modifies this`neighbors
      ensures cells == old(cells)
      ensures r == neighbors == NeighborsOf(cells, KeyOf(c))
    {
      neighbors := [];
      var offsets := if c.z % 2 == 0 then EvenRowOffsets else OddRowOffsets;
      for i := 0 to |offsets|
        invariant neighbors == Collect(cells, KeyOf(c), offsets[..i])
      {
        assert offsets[..i + 1][..i] == offsets[..i];
        var neighbor := GetCell(c.x + offsets[i].0, c.z + offsets[i].1);
        if neighbor.Some? && neighbor.value.walkable {
          neighbors := neighbors + [neighbor.value];
        }
      }
      assert offsets[..|offsets|] == offsets;
      r := neighbors;
    }
  }
}
