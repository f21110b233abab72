/**
 * PathFinder.cs: the search loop FindPathOnMap and RetracePath. The map is a parameter (the source
 * reads it from a global instead of using its argument).
 */
module PathFinder {
  import opened Wrappers
  import opened HexMap
  import opened Walks
  import opened Costs
  import opened SearchNodes
  import opened PriorityQueues
  import opened SearchInvariant

  /** `List.Reverse`: the same elements, last first. */
  function Reverse<T>(s: seq<T>): (r: seq<T>)
    ensures |r| == |s|
    ensures forall i :: 0 <= i < |s| ==> r[i] == s[|s| - 1 - i]
    decreases |s|
  {
    if s == [] then [] else [s[|s| - 1]] + Reverse(s[..|s| - 1])
  }

  /**
   * Follows parent links from endNode, collecting cells, until it meets the coordinates of
   * startNode (not collected), then reverses the list.
   */
  method RetracePath(startNode: Node, endNode: Node) returns (path: seq<Cell>)
    requires ReachesKey(endNode, KeyOf(startNode.cell))
    ensures path == TrailTo(endNode, KeyOf(startNode.cell))
  {
    var s := KeyOf(startNode.cell);
    path := [];
    var currentNode := endNode;
    while KeyOf(currentNode.cell) != s
      invariant ReachesKey(currentNode, s)
      invariant TrailTo(endNode, s) == TrailTo(currentNode, s) + Reverse(path)
      decreases currentNode
    {
      ghost var before := path;
      path := path + [currentNode.cell];
      assert Reverse(path) == [currentNode.cell] + Reverse(before);
      currentNode := currentNode.parent.value;
    }
    path := Reverse(path);
  }

  /**
   * The search of FindPathOnMap. On success the result is a walk from the start cell to the end
   * cell's coordinates that leaves out the start cell, repeats no coordinate and is as short as any
   * walk between them; it is empty when start and end coincide. None means no walk reaches the end.
   * `expansions` counts the cells taken from the open queue.
   */
  method FindPathOnMap(cellStart: Cell, cellEnd: Cell, hexMap: Map) returns (result: Option<seq<Cell>>, ghost expansions: nat)
    requires hexMap.Valid()
    modifies hexMap`neighbors
    ensures hexMap.cells == old(hexMap.cells)
    ensures expansions <= |hexMap.cells| + 1
    ensures KeyOf(cellStart) == KeyOf(cellEnd) ==> result == Some([])
    ensures result.Some? ==> ShortestWalk(hexMap.cells, KeyOf(cellStart), KeyOf(cellEnd), result.value)
    ensures result.None? ==> Unreachable(hexMap.cells, KeyOf(cellStart), KeyOf(cellEnd))
  {
    ghost var m := hexMap.cells;
    ghost var s := KeyOf(cellStart);
    ghost var e := KeyOf(cellEnd);

    var openSet := new PriorityQueue();
    var closedSet: set<Coord> := {};
    var startNode := NewNode(cellStart);
    var endNode := NewNode(cellEnd);
    openSet.Enqueue(startNode, startNode.FCost());
    InitialState(m, s, e, cellStart);
    expansions := 0;

    while openSet.Count() > 0
      invariant hexMap.cells == m
      invariant SearchState(m, s, e, closedSet, openSet.elements)
      invariant expansions == |closedSet| <= |m| + 1
      decreases (m.Keys + {s}) - closedSet
    {
      ghost var es := openSet.elements;
      FrontIsNext(m, s, e, closedSet, es);
      var currentNode := openSet.Dequeue();
      assert openSet.elements == es[1..];
      expansions := expansions + 1;

      if KeyOf(currentNode.cell) == KeyOf(endNode.cell) {
        GoalReached(m, s, e, closedSet, es);
        var path := RetracePath(startNode, currentNode);
        return Some(path), expansions;
      }

      ghost var closedOld := closedSet;
      closedSet := closedSet + {KeyOf(currentNode.cell)};
      var neighbors := hexMap.GetNeighbors(currentNode.cell);
      ExpandNeighbors(m, s, e, closedOld, es, currentNode, endNode, closedSet, neighbors, openSet);
    }

    Exhausted(m, s, e, closedSet);
    return None, expansions;
  }

  /**
   * The node the neighbour loop builds for a neighbour c of u: parent u, G the tentative cost
   * u.G + GetDistance(u, c), and H the distance from c to the end coordinate.
   */
  function ChildNode(u: Node, c: Cell, endKey: Coord): (n: Node)
    ensures n.cell == c && n.parent == Some(u)
    ensures u.g == Max ==> n.g == Max && n.FCost() == Max
  {
    Node(c, Some(u), Plus(u.g, Fin(Distance(KeyOf(u.cell), KeyOf(c)))), Fin(Distance(KeyOf(c), endKey)))
  }

  /**
   * The open queue after the neighbour loop has handled nbrs, starting from the queue `start`: a
   * neighbour whose coordinates are closed, or already queued, is passed over; any other gets an
   * entry for its child node at the end of the queue, in the order of nbrs.
   */
  function Expansion(closed: set<Coord>, start: seq<Entry>, u: Node, endKey: Coord, nbrs: seq<Cell>): (r: seq<Entry>)
    ensures |start| <= |r| <= |start| + |nbrs| && r[..|start|] == start
    ensures forall j :: |start| <= j < |r| ==>
              && r[j].item == ChildNode(u, r[j].item.cell, endKey)
              && r[j].priority == r[j].item.FCost()
              && r[j].item.cell in nbrs
              && KeyOf(r[j].item.cell) !in closed
    decreases |nbrs|
  {
    if nbrs == [] then start
    else
      var q := Expansion(closed, start, u, endKey, nbrs[..|nbrs| - 1]);
      var c := nbrs[|nbrs| - 1];
      if KeyOf(c) in closed || AnyEquals(q, NewNode(c)) then q
      else q + [Entry(ChildNode(u, c, endKey), ChildNode(u, c, endKey).FCost())]
  }

  /** After the loop, every neighbour that is not closed has an entry in the open queue. */
  lemma {:induction false} ExpansionCoversNeighbors(closed: set<Coord>, start: seq<Entry>, u: Node, endKey: Coord,
                                                    nbrs: seq<Cell>, c: Cell)
    requires c in nbrs && KeyOf(c) !in closed
    ensures exists j :: 0 <= j < |Expansion(closed, start, u, endKey, nbrs)| &&
              KeyOf(Expansion(closed, start, u, endKey, nbrs)[j].item.cell) == KeyOf(c)
    decreases |nbrs|
  {
    var init := nbrs[..|nbrs| - 1];
    var q := Expansion(closed, start, u, endKey, init);
    var r := Expansion(closed, start, u, endKey, nbrs);
    assert r[..|q|] == q by {
      var last := nbrs[|nbrs| - 1];
      if !(KeyOf(last) in closed || AnyEquals(q, NewNode(last))) {
        assert r == q + [Entry(ChildNode(u, last, endKey), ChildNode(u, last, endKey).FCost())];
      }
    }
    if c in init {
      ExpansionCoversNeighbors(closed, start, u, endKey, init, c);
      var j :| 0 <= j < |q| && KeyOf(q[j].item.cell) == KeyOf(c);
      assert r[j] == r[..|q|][j];
    } else {
      assert c == nbrs[|nbrs| - 1];
      if AnyEquals(q, NewNode(c)) {
        var j :| 0 <= j < |q| && q[j].item.Equals(NewNode(c));
        assert r[j] == r[..|q|][j];
      } else {
        assert r[|q|].item.cell == c;
      }
    }
  }

  /**
   * The inner `foreach` of FindPathOnMap: every neighbour that is neither closed nor already in
   * the open queue gets currentNode as parent and is enqueued, in the order of `neighbors`.
   */
  method ExpandNeighbors(ghost m: map<Coord, Cell>, ghost s: Coord, ghost e: Coord, ghost closedOld: set<Coord>,
                         ghost es: seq<Entry>, currentNode: Node, endNode: Node, closedSet: set<Coord>,
                         neighbors: seq<Cell>, openSet: PriorityQueue)
    requires SearchState(m, s, e, closedOld, es)
    requires es != [] && currentNode == es[0].item && KeyOf(currentNode.cell) != e
    requires closedSet == closedOld + {KeyOf(currentNode.cell)}
    requires neighbors == NeighborsOf(m, KeyOf(currentNode.cell))
    requires openSet.elements == es[1..]
    modifies openSet
    ensures openSet.elements == Expansion(closedSet, es[1..], currentNode, KeyOf(endNode.cell), neighbors)
    ensures SearchState(m, s, e, closedSet, openSet.elements)
  {
    BeginExpand(m, s, e, closedOld, es, neighbors);
    ghost var endKey := KeyOf(endNode.cell);
    for i := 0 to |neighbors|
      invariant openSet.elements == Expansion(closedSet, es[1..], currentNode, endKey, neighbors[..i])
      invariant ExpandState(m, s, e, closedOld, currentNode, openSet.elements, neighbors, i)
    {
      assert neighbors[..i + 1][..i] == neighbors[..i];
      var neighborNode := NewNode(neighbors[i]);
      if KeyOf(neighborNode.cell) in closedSet {
        SkipNeighbor(m, s, e, closedOld, currentNode, openSet.elements, neighbors, i);
        continue;
      }
      var tentativeGCost := Plus(currentNode.g, Fin(Distance(KeyOf(currentNode.cell), KeyOf(neighborNode.cell))));
      if Below(tentativeGCost, neighborNode.g) || !openSet.Contains(neighborNode) {
        neighborNode := neighborNode.(g := tentativeGCost,
                                      h := Fin(Distance(KeyOf(neighborNode.cell), KeyOf(endNode.cell))),
                                      parent := Some(currentNode));
        assert neighborNode == ChildNode(currentNode, neighbors[i], endKey);
        if !openSet.Contains(neighborNode) {
          EnqueueNeighbor(m, s, e, closedOld, currentNode, openSet.elements, neighbors, i, neighborNode);
          openSet.Enqueue(neighborNode, neighborNode.FCost());
        }
      } else {
        SkipNeighbor(m, s, e, closedOld, currentNode, openSet.elements, neighbors, i);
      }
    }
    assert neighbors[..|neighbors|] == neighbors;
    FinishExpand(m, s, e, closedOld, currentNode, openSet.elements, neighbors);
  }
}
