/**
 * The invariant of FindPathOnMap's loops and the lemmas that carry it across one step. Because
 * every priority is float.MaxValue the open queue is first-in first-out, so the search visits cells
 * breadth-first: the invariant says that each queued node's parent chain is a walk of the fewest
 * possible steps, and that every cell next to an expanded cell has been discovered.
 */
module SearchInvariant {
  import opened Wrappers
  import opened HexMap
  import opened Walks
  import opened Costs
  import opened SearchNodes
  import opened PriorityQueues

  ghost predicate InQueue(es: seq<Entry>, k: Coord)
  {
    exists i :: 0 <= i < |es| && KeyOf(es[i].item.cell) == k
  }

  /** k is in the closed set or has an entry in the open queue. */
  ghost predicate Discovered(closed: set<Coord>, es: seq<Entry>, k: Coord)
  {
    k in closed || InQueue(es, k)
  }

  /**
   * An open entry: its chain is a chain from s, its costs are float.MaxValue, it is not closed but
   * all its ancestors are, it lies on the map or at s, and its chain is as short as any walk to it.
   */
  ghost predicate EntryOk(m: map<Coord, Cell>, s: Coord, closed: set<Coord>, en: Entry)
  {
    && Linked(m, s, en.item)
    && en.item.g == Max && en.priority == Max
    && KeyOf(en.item.cell) !in closed
    && AncestorKeys(en.item) <= closed
    && KeyOf(en.item.cell) in m.Keys + {s}
    && ShortestBound(m, s, KeyOf(en.item.cell), Depth(en.item))
  }

  ghost predicate QueueOk(m: map<Coord, Cell>, s: Coord, closed: set<Coord>, es: seq<Entry>)
  {
    forall i :: 0 <= i < |es| ==> EntryOk(m, s, closed, es[i])
  }

  /** At most one open entry per coordinate. */
  ghost predicate KeysDistinct(es: seq<Entry>)
  {
    forall i, j :: 0 <= i < j < |es| ==> KeyOf(es[i].item.cell) != KeyOf(es[j].item.cell)
  }

  /** Chain lengths along the queue never decrease and differ by at most one. */
  ghost predicate Layered(es: seq<Entry>)
  {
    forall i, j :: 0 <= i < j < |es| ==> Depth(es[i].item) <= Depth(es[j].item) <= Depth(es[i].item) + 1
  }

  /** Every stored, walkable neighbour of a coordinate in `full` has been discovered. */
  ghost predicate Expanded(m: map<Coord, Cell>, full: set<Coord>, closed: set<Coord>, es: seq<Entry>)
  {
    forall k, c :: k in full && Edge(m, k, c) ==> Discovered(closed, es, KeyOf(c))
  }

  /** The invariant at the head of the main loop. */
  ghost predicate SearchState(m: map<Coord, Cell>, s: Coord, e: Coord, closed: set<Coord>, es: seq<Entry>)
  {
    && WellKeyed(m)
    && QueueOk(m, s, closed, es) && KeysDistinct(es) && Layered(es)
    && Expanded(m, closed, closed, es)
    && closed <= m.Keys + {s}
    && e !in closed
    && Discovered(closed, es, s)
  }

  /**
   * Node u, taken from the queue, is being expanded: `closedOld` is the closed set before u was added
   * to it, u's chain is a shortest walk from s, and all of u's ancestors are closed.
   */
  ghost predicate Expanding(m: map<Coord, Cell>, s: Coord, closedOld: set<Coord>, u: Node)
  {
    var uk := KeyOf(u.cell);
    && WellKeyed(m)
    && Linked(m, s, u) && u.g == Max
    && AncestorKeys(u) <= closedOld && uk !in closedOld && uk in m.Keys + {s}
    && ShortestBound(m, s, uk, Depth(u))
    && closedOld <= m.Keys + {s}
  }

  /**
   * The open queue while u is expanded: well formed against the closed set that includes u, every
   * entry as deep as u or one deeper, and every neighbour of an earlier closed coordinate discovered.
   */
  ghost predicate OpenAround(m: map<Coord, Cell>, s: Coord, closedOld: set<Coord>, u: Node, es: seq<Entry>)
  {
    var closed := closedOld + {KeyOf(u.cell)};
    && QueueOk(m, s, closed, es) && KeysDistinct(es) && Layered(es)
    && (forall j :: 0 <= j < |es| ==> Depth(u) <= Depth(es[j].item) <= Depth(u) + 1)
    && Expanded(m, closedOld, closed, es)
    && Discovered(closed, es, s)
  }

  /**
   * The invariant of the neighbour loop while node u is expanded: `es` is the open queue and the
   * first i neighbours of u have been handled.
   */
  ghost predicate ExpandState(m: map<Coord, Cell>, s: Coord, e: Coord, closedOld: set<Coord>, u: Node,
                              es: seq<Entry>, nbrs: seq<Cell>, i: nat)
  {
    var uk := KeyOf(u.cell);
    && Expanding(m, s, closedOld, u)
    && i <= |nbrs| && nbrs == NeighborsOf(m, uk)
    && OpenAround(m, s, closedOld, u, es)
    && (forall j :: 0 <= j < i ==> Discovered(closedOld + {uk}, es, KeyOf(nbrs[j])))
    && e !in closedOld + {uk}
  }

  /** The state after the start node is enqueued. */
  lemma InitialState(m: map<Coord, Cell>, s: Coord, e: Coord, start: Cell)
    requires WellKeyed(m) && KeyOf(start) == s
    ensures SearchState(m, s, e, {}, [Entry(NewNode(start), NewNode(start).FCost())])
  {
    var es := [Entry(NewNode(start), NewNode(start).FCost())];
    assert InQueue(es, s) by {
      assert KeyOf(es[0].item.cell) == s;
    }
  }

  /**
   * A walk from s to a coordinate not yet discovered is longer than u's chain. Here u is the node
   * being expanded, every other closed coordinate has all its neighbours discovered, and every open
   * entry is at least as deep as u and as short as any walk to it.
   */
  lemma {:induction false} UndiscoveredIsFar(m: map<Coord, Cell>, s: Coord, closedOld: set<Coord>, u: Node,
                                             es: seq<Entry>, p: seq<Cell>)
    requires Discovered(closedOld + {KeyOf(u.cell)}, es, s)
    requires Expanded(m, closedOld, closedOld + {KeyOf(u.cell)}, es)
    requires ShortestBound(m, s, KeyOf(u.cell), Depth(u))
    requires forall j :: 0 <= j < |es| ==>
               ShortestBound(m, s, KeyOf(es[j].item.cell), Depth(es[j].item)) && Depth(u) <= Depth(es[j].item)
    requires IsWalk(m, s, p)
    requires !Discovered(closedOld + {KeyOf(u.cell)}, es, End(s, p))
    ensures Depth(u) + 1 <= |p|
    decreases |p|
  {
    var closed := closedOld + {KeyOf(u.cell)};
    if p != [] {
      var n := |p| - 1;
      var q := p[..n];
      WalkPrefix(m, s, p, n);
      var w := End(s, q);
      assert End(s, p) == KeyOf(p[n]);
      WalkStep(m, s, p, n);
      if !Discovered(closed, es, w) {
        UndiscoveredIsFar(m, s, closedOld, u, es, q);
      } else if w == KeyOf(u.cell) {
        assert IsWalk(m, s, q) && End(s, q) == KeyOf(u.cell);
      } else if w in closedOld {
        assert false;
      } else {
        var j :| 0 <= j < |es| && KeyOf(es[j].item.cell) == w;
        assert ShortestBound(m, s, w, Depth(es[j].item));
        assert IsWalk(m, s, q) && End(s, q) == w;
      }
    }
  }

  /**
   * Every priority in the queue is float.MaxValue, so Dequeue takes the front entry; its coordinate
   * is not closed yet and lies on the map or at s.
   */
  lemma FrontIsNext(m: map<Coord, Cell>, s: Coord, e: Coord, closed: set<Coord>, es: seq<Entry>)
    requires SearchState(m, s, e, closed, es)
    requires es != []
    ensures MinIndex(es) == 0
    ensures KeyOf(es[0].item.cell) !in closed
    ensures closed + {KeyOf(es[0].item.cell)} <= m.Keys + {s}
    ensures |closed + {KeyOf(es[0].item.cell)}| == |closed| + 1 <= |m| + 1
  {
    forall i | 0 <= i < |es| ensures es[i].priority == Max {
      assert EntryOk(m, s, closed, es[i]);
    }
    SaturatedQueuePopsFront(es);
    assert EntryOk(m, s, closed, es[0]);
    ClosedCount(m, s, closed + {KeyOf(es[0].item.cell)});
  }

  /** Dequeuing the front entry u (not the goal) and closing it starts the neighbour loop. */
  lemma BeginExpand(m: map<Coord, Cell>, s: Coord, e: Coord, closed: set<Coord>, es: seq<Entry>, nbrs: seq<Cell>)
    requires SearchState(m, s, e, closed, es)
    requires es != [] && KeyOf(es[0].item.cell) != e
    requires nbrs == NeighborsOf(m, KeyOf(es[0].item.cell))
    ensures ExpandState(m, s, e, closed, es[0].item, es[1..], nbrs, 0)
  {
    var u := es[0].item;
    var uk := KeyOf(u.cell);
    var rest := es[1..];
    var closed' := closed + {uk};
    assert EntryOk(m, s, closed, es[0]);
    forall i | 0 <= i < |rest| ensures EntryOk(m, s, closed', rest[i]) && Depth(u) <= Depth(rest[i].item) <= Depth(u) + 1 {
      assert rest[i] == es[i + 1];
      assert EntryOk(m, s, closed, es[i + 1]);
    }
    forall k | Discovered(closed, es, k) ensures Discovered(closed', rest, k) {
      if k !in closed {
        var i :| 0 <= i < |es| && KeyOf(es[i].item.cell) == k;
        if i > 0 {
          assert KeyOf(rest[i - 1].item.cell) == k;
        }
      }
    }
  }

  /** A neighbour that is already closed or queued is passed over. */
  lemma SkipNeighbor(m: map<Coord, Cell>, s: Coord, e: Coord, closedOld: set<Coord>, u: Node,
                     es: seq<Entry>, nbrs: seq<Cell>, i: nat)
    requires ExpandState(m, s, e, closedOld, u, es, nbrs, i)
    requires i < |nbrs|
    requires Discovered(closedOld + {KeyOf(u.cell)}, es, KeyOf(nbrs[i]))
    ensures ExpandState(m, s, e, closedOld, u, es, nbrs, i + 1)
  {
  }

  /** A neighbour seen for the first time is enqueued with u as its parent. */
  lemma EnqueueNeighbor(m: map<Coord, Cell>, s: Coord, e: Coord, closedOld: set<Coord>, u: Node,
                        es: seq<Entry>, nbrs: seq<Cell>, i: nat, child: Node)
    requires ExpandState(m, s, e, closedOld, u, es, nbrs, i)
    requires i < |nbrs|
    requires child.cell == nbrs[i] && child.parent == Some(u) && child.g == Max
    requires !Discovered(closedOld + {KeyOf(u.cell)}, es, KeyOf(nbrs[i]))
    ensures ExpandState(m, s, e, closedOld, u, es + [Entry(child, Max)], nbrs, i + 1)
  {
    var uk := KeyOf(u.cell);
    assert nbrs[i] in NeighborsOf(m, uk);
    NeighborsExact(m, uk, nbrs[i]);
    EnqueueChild(m, s, closedOld, u, es, child);
  }

  /** Enqueuing an undiscovered neighbour of u, with u as its parent, keeps the open queue well formed. */
  lemma EnqueueChild(m: map<Coord, Cell>, s: Coord, closedOld: set<Coord>, u: Node, es: seq<Entry>, child: Node)
    requires Expanding(m, s, closedOld, u) && OpenAround(m, s, closedOld, u, es)
    requires Edge(m, KeyOf(u.cell), child.cell) && child.parent == Some(u) && child.g == Max
    requires !Discovered(closedOld + {KeyOf(u.cell)}, es, KeyOf(child.cell))
    ensures OpenAround(m, s, closedOld, u, es + [Entry(child, Max)])
    ensures forall k :: Discovered(closedOld + {KeyOf(u.cell)}, es, k) ==>
              Discovered(closedOld + {KeyOf(u.cell)}, es + [Entry(child, Max)], k)
    ensures InQueue(es + [Entry(child, Max)], KeyOf(child.cell))
  {
    var closed := closedOld + {KeyOf(u.cell)};
    assert Linked(m, s, child);
    ChildIsShortest(m, s, closedOld, u, es, child);
    assert EntryOk(m, s, closed, Entry(child, Max));
    AppendEntry(m, s, closed, es, Entry(child, Max));
    AppendDeeper(es, Entry(child, Max), Depth(u));
  }

  /** Appending an entry for a coordinate not yet queued keeps the queue well formed and loses nothing. */
  lemma AppendEntry(m: map<Coord, Cell>, s: Coord, closed: set<Coord>, es: seq<Entry>, en: Entry)
    requires QueueOk(m, s, closed, es) && KeysDistinct(es)
    requires EntryOk(m, s, closed, en) && !InQueue(es, KeyOf(en.item.cell))
    ensures QueueOk(m, s, closed, es + [en]) && KeysDistinct(es + [en])
    ensures forall k :: Discovered(closed, es, k) ==> Discovered(closed, es + [en], k)
    ensures InQueue(es + [en], KeyOf(en.item.cell))
  {
    var es' := es + [en];
    forall j | 0 <= j < |es'| ensures EntryOk(m, s, closed, es'[j]) {
      if j < |es| {
        assert es'[j] == es[j];
      }
    }
    forall k | Discovered(closed, es, k) ensures Discovered(closed, es', k) {
      if k !in closed {
        var j :| 0 <= j < |es| && KeyOf(es[j].item.cell) == k;
        assert KeyOf(es'[j].item.cell) == k;
      }
    }
    assert KeyOf(es'[|es|].item.cell) == KeyOf(en.item.cell);
  }

  /** Appending an entry one deeper than d to a queue whose depths are d or d + 1 keeps it layered. */
  lemma AppendDeeper(es: seq<Entry>, en: Entry, d: nat)
    requires Layered(es)
    requires forall j :: 0 <= j < |es| ==> d <= Depth(es[j].item) <= d + 1
    requires Depth(en.item) == d + 1
    ensures Layered(es + [en])
    ensures forall j :: 0 <= j < |es + [en]| ==> d <= Depth((es + [en])[j].item) <= d + 1
  {
    var es' := es + [en];
    forall j | 0 <= j < |es'| ensures d <= Depth(es'[j].item) <= d + 1 {
      if j < |es| {
        assert es'[j] == es[j];
      }
    }
  }

  /** A newly discovered neighbour of u is one step deeper than u, and no walk reaches it in fewer steps. */
  lemma ChildIsShortest(m: map<Coord, Cell>, s: Coord, closedOld: set<Coord>, u: Node, es: seq<Entry>, child: Node)
    requires Discovered(closedOld + {KeyOf(u.cell)}, es, s)
    requires Expanded(m, closedOld, closedOld + {KeyOf(u.cell)}, es)
    requires ShortestBound(m, s, KeyOf(u.cell), Depth(u))
    requires QueueOk(m, s, closedOld + {KeyOf(u.cell)}, es)
    requires forall j :: 0 <= j < |es| ==> Depth(u) <= Depth(es[j].item) <= Depth(u) + 1
    requires child.parent == Some(u)
    requires !Discovered(closedOld + {KeyOf(u.cell)}, es, KeyOf(child.cell))
    ensures ShortestBound(m, s, KeyOf(child.cell), Depth(child))
  {
    forall j | 0 <= j < |es|
      ensures ShortestBound(m, s, KeyOf(es[j].item.cell), Depth(es[j].item)) && Depth(u) <= Depth(es[j].item)
    {
      assert EntryOk(m, s, closedOld + {KeyOf(u.cell)}, es[j]);
    }
    forall p | IsWalk(m, s, p) && End(s, p) == KeyOf(child.cell) ensures Depth(child) <= |p| {
      UndiscoveredIsFar(m, s, closedOld, u, es, p);
    }
  }

  /** Once all of u's neighbours are handled, u is fully expanded and the main invariant holds again. */
  lemma FinishExpand(m: map<Coord, Cell>, s: Coord, e: Coord, closedOld: set<Coord>, u: Node,
                     es: seq<Entry>, nbrs: seq<Cell>)
    requires ExpandState(m, s, e, closedOld, u, es, nbrs, |nbrs|)
    ensures SearchState(m, s, e, closedOld + {KeyOf(u.cell)}, es)
  {
    var uk := KeyOf(u.cell);
    var closed := closedOld + {uk};
    forall k, c | k in closed && Edge(m, k, c) ensures Discovered(closed, es, KeyOf(c)) {
      if k == uk {
        NeighborsExact(m, uk, c);
        var j :| 0 <= j < |nbrs| && nbrs[j] == c;
      }
    }
  }

  /** An empty open queue means the closed set is shut under the neighbour relation: no walk reaches e. */
  lemma Exhausted(m: map<Coord, Cell>, s: Coord, e: Coord, closed: set<Coord>)
    requires SearchState(m, s, e, closed, [])
    ensures Unreachable(m, s, e)
    ensures s != e
  {
    assert IsWalk(m, s, []) && End(s, []) == s;
    forall p | IsWalk(m, s, p) ensures End(s, p) != e {
      WalksStayInClosedSet(m, closed, s, p);
    }
  }

  /** Dequeuing a node at e: its chain gives a shortest walk from s to e that repeats nothing. */
  lemma GoalReached(m: map<Coord, Cell>, s: Coord, e: Coord, closed: set<Coord>, es: seq<Entry>)
    requires SearchState(m, s, e, closed, es)
    requires es != [] && KeyOf(es[0].item.cell) == e
    ensures ReachesKey(es[0].item, s)
    ensures ShortestWalk(m, s, e, TrailTo(es[0].item, s))
  {
    assert EntryOk(m, s, closed, es[0]);
    LinkedTrail(m, s, es[0].item);
  }

  /** A set of coordinates drawn from the map's keys and the start has at most |map| + 1 members. */
  lemma ClosedCount(m: map<Coord, Cell>, s: Coord, closed: set<Coord>)
    requires closed <= m.Keys + {s}
    ensures |closed| <= |m| + 1
  {
    SubsetCardinality(closed, m.Keys + {s});
    assert |m.Keys + {s}| <= |m.Keys| + 1;
  }

  lemma {:induction false} SubsetCardinality<T>(a: set<T>, b: set<T>)
    requires a <= b
    ensures |a| <= |b|
    decreases |b|
  {
    if a != {} {
      var x :| x in a;
      SubsetCardinality(a - {x}, b - {x});
    }
  }
}
