/**
 * The search node of PathFinder.cs (its nested class Node): a cell, the node it was reached from,
 * and its G and H costs. A node is never changed once it is in the open queue (each neighbour
 * node is built fresh and filled in before it is enqueued), so nodes are values here and the
 * parent links form a chain ending at the start node.
 */
module SearchNodes {
  import opened Wrappers
  import opened HexMap
  import opened Walks
  import opened Costs

  datatype Node = Node(cell: Cell, parent: Option<Node>, g: Cost, h: Cost)
  {
    /** F = G + H. */
    function FCost(): Cost
    {
      Plus(g, h)
    }

    /** Node.Equals: same coordinates, whatever the costs and parents. */
    predicate Equals(other: Node)
    {
      cell.x == other.cell.x && cell.z == other.cell.z
    }
  }

  /** `new Node(cell)`: no parent, G = float.MaxValue and H = 0, so F = float.MaxValue. */
  function NewNode(c: Cell): (n: Node)
    ensures n.cell == c && n.parent == None
    ensures n.FCost() == Max
  {
    Node(c, None, Max, Fin(0))
  }

  /** Node equality is an equivalence that coincides with equal dictionary keys (and hash codes). */
  lemma EqualsIsKeyEquality(a: Node, b: Node, c: Node)
    ensures a.Equals(b) <==> KeyOf(a.cell) == KeyOf(b.cell)
    ensures a.Equals(a)
    ensures a.Equals(b) ==> b.Equals(a)
    ensures a.Equals(b) && b.Equals(c) ==> a.Equals(c)
  {
  }

  /** The number of parent links from n to the end of its chain. */
  function Depth(n: Node): nat
    decreases n
  {
    match n.parent
    case None => 0
    case Some(p) => Depth(p) + 1
  }

  /** The coordinates of all strict ancestors of n. */
  function AncestorKeys(n: Node): set<Coord>
    decreases n
  {
    match n.parent
    case None => {}
    case Some(p) => {KeyOf(p.cell)} + AncestorKeys(p)
  }

  /** Following parent links from n meets a node at coordinate s. */
  predicate ReachesKey(n: Node, s: Coord)
    decreases n
  {
    KeyOf(n.cell) == s || (n.parent.Some? && ReachesKey(n.parent.value, s))
  }

  /**
   * The cells RetracePath collects: those on the parent chain from the first node at s (excluded)
   * down to n (included), in start-to-end order.
   */
  function TrailTo(n: Node, s: Coord): (t: seq<Cell>)
    requires ReachesKey(n, s)
    ensures t == [] <==> KeyOf(n.cell) == s
    ensures t != [] ==> t[|t| - 1] == n.cell
    decreases n
  {
    if KeyOf(n.cell) == s then [] else TrailTo(n.parent.value, s) + [n.cell]
  }

  /**
   * The chain of n is a chain the search builds from a start node at s: the root sits at s, and each
   * other node's cell is a stored, walkable neighbour of its parent's cell, at a coordinate that
   * none of its ancestors has.
   */
  ghost predicate Linked(m: map<Coord, Cell>, s: Coord, n: Node)
    decreases n
  {
    match n.parent
    case None => KeyOf(n.cell) == s
    case Some(p) =>
      && Edge(m, KeyOf(p.cell), n.cell)
      && KeyOf(n.cell) !in AncestorKeys(n)
      && Linked(m, s, p)
  }

  lemma {:induction false} RootKeyIsAncestor(m: map<Coord, Cell>, s: Coord, n: Node)
    requires Linked(m, s, n)
    ensures ReachesKey(n, s)
    ensures n.parent.Some? ==> s in AncestorKeys(n) && KeyOf(n.cell) != s
    ensures n.parent.None? ==> KeyOf(n.cell) == s
    decreases n
  {
    match n.parent
    case None =>
    case Some(p) =>
      RootKeyIsAncestor(m, s, p);
  }

  lemma {:induction false} TrailIsWalk(m: map<Coord, Cell>, s: Coord, n: Node)
    requires Linked(m, s, n)
    ensures ReachesKey(n, s)
    ensures var t := TrailTo(n, s);
            IsWalk(m, s, t) && End(s, t) == KeyOf(n.cell) && |t| == Depth(n)
    decreases n
  {
    RootKeyIsAncestor(m, s, n);
    match n.parent
    case None =>
    case Some(p) =>
      TrailIsWalk(m, s, p);
      var tp := TrailTo(p, s);
      assert TrailTo(n, s) == tp + [n.cell];
      WalkAppend(m, s, tp, n.cell);
  }

  lemma {:induction false} TrailKeys(m: map<Coord, Cell>, s: Coord, n: Node)
    requires Linked(m, s, n)
    ensures ReachesKey(n, s)
    ensures var t := TrailTo(n, s);
            && NoRepeats(s, t)
            && (forall i :: 0 <= i < |t| ==> KeyOf(t[i]) in AncestorKeys(n) + {KeyOf(n.cell)})
    decreases n
  {
    RootKeyIsAncestor(m, s, n);
    match n.parent
    case None =>
    case Some(p) =>
      TrailKeys(m, s, p);
      var tp := TrailTo(p, s);
      var t := TrailTo(n, s);
      assert t == tp + [n.cell];
      forall i | 0 <= i < |tp| ensures KeyOf(tp[i]) != KeyOf(n.cell) {
        assert KeyOf(tp[i]) in AncestorKeys(n);
      }
      forall i | 0 <= i < |t| ensures KeyOf(t[i]) in AncestorKeys(n) + {KeyOf(n.cell)} {
        if i < |tp| {
          assert t[i] == tp[i];
        }
      }
  }

  /**
   * What RetracePath returns for a chain the search built: a walk from s to n's cell, as long as
   * the chain, that repeats no coordinate and does not contain s.
   */
  lemma LinkedTrail(m: map<Coord, Cell>, s: Coord, n: Node)
    requires Linked(m, s, n)
    ensures ReachesKey(n, s)
    ensures var t := TrailTo(n, s);
            && IsWalk(m, s, t) && End(s, t) == KeyOf(n.cell)
            && |t| == Depth(n)
            && NoRepeats(s, t)
  {
    TrailIsWalk(m, s, n);
    TrailKeys(m, s, n);
  }
}
