# Hexagonal-grid path finding, modelled in Dafny

This project models the path-finding core of a Unity hexagonal-grid demo. There are two parts.

- `Map` (`Assets/Scripts/Map.cs`) holds a dictionary from offset coordinates `(x, z)` to cells. Cells
  are added, looked up and reset to walkable. A neighbour query walks the six offsets of the row's
  parity: one table for even rows and one for odd rows.
- `PathFinder` (`Assets/Scripts/PathFinder.cs`) runs a best-first search (`FindPathOnMap`) over those
  neighbours. It uses a list-based priority queue with a linear-scan extract-min, a closed set of
  node coordinates, and `RetracePath`, which follows parent links back to the start.

The model follows the code where the code and its own comments or documentation disagree:

- A new node's G cost is `float.MaxValue`, and the start node's G cost is never set to 0. So every
  tentative cost `G + distance` is again `float.MaxValue`. Every enqueued F cost is
  `float.MaxValue`, and the strict `<` of `Dequeue` always keeps the oldest entry. The search is
  therefore a breadth-first search, not an A* search guided by `GetDistance`. The model keeps the
  source's costs (`Costs.Cost`, where `Max` absorbs addition). It proves the consequence: the queue
  is first-in first-out (`PriorityQueues.SaturatedQueuePopsFront`). It also proves that the path
  found has the fewest possible steps.
- A neighbour already in the open queue is never re-prioritised or enqueued twice, whatever the
  costs. The loop builds a fresh node for each neighbour (`PathFinder.cs:48`), and the cost and
  parent updates at lines 63-65 change only that fresh node, never the entry already queued. The
  guard at line 68 then refuses a second entry for the same coordinates.
- When the start and end cells coincide, the result is the empty list, not a one-cell list.
  `RetracePath` never collects the start cell.
- `GetDistance` computes `|dx| + |dz| - min(|dx|, |dz|)`, which is `max(|dx|, |dz|)`. On this
  offset layout that is a lower bound on the number of steps, not the number of steps
  (`Costs.DistanceNotExact`).
- `FindPathOnMap` ignores its map argument and reads the global map. In the model the map is an
  ordinary parameter.

Module layout: `Wrappers` (Option), `HexMap` (cells, offset tables, adjacency, the `Map` class),
`Walks` (walks over the neighbour relation, shortest walks), `Costs` (costs and `GetDistance`),
`SearchNodes` (the nested `Node`), `PriorityQueues` (the nested `PriorityQueue`), `SearchInvariant`
(the loop invariant of the search and the lemmas that carry it) and `PathFinder` (`RetracePath`,
`FindPathOnMap`). A *walk* from a coordinate is a sequence of cells. Each cell in it is stored in the
map, is walkable, and is adjacent to the cell before it. A *chain* is the list of parent links of a node.

## Model

| member | source | states |
|---|---|---|
| HexMap.Offsets | Assets/Scripts/Map.cs:59-80 | the even-row or odd-row table, by the parity of z: six distinct offsets, none of them (0, 0) |
| HexMap.AdjacentSymmetric | Assets/Scripts/Map.cs:59-80 | b is a neighbour offset of a exactly when a is one of b, for both parities |
| HexMap.AdjacentIrreflexive | Assets/Scripts/Map.cs:59-80 | no coordinate is its own neighbour |
| HexMap.Collect | Assets/Scripts/Map.cs:82-93 | filtering the offsets yields at most one cell per offset |
| HexMap.CollectExact | Assets/Scripts/Map.cs:82-93 | a cell is collected iff it is stored under its key, walkable, and at one of the scanned offsets |
| HexMap.CollectOrdered | Assets/Scripts/Map.cs:82-93 | collected cells appear in the order of the offset table, at distinct offsets |
| HexMap.NeighborsExact | Assets/Scripts/Map.cs:53-96 | a cell is a neighbour of a coordinate iff it is stored, walkable and adjacent (sound and complete) |
| HexMap.NeighborsOrdered | Assets/Scripts/Map.cs:53-96 | at most six neighbours, in offset-table order, with no coordinate twice |
| HexMap.Cleared | Assets/Scripts/Map.cs:43-44 | a reset cell is walkable, its obstacle is hidden, and its coordinates are unchanged |
| HexMap.Map.constructor | Assets/Scripts/Map.cs:8-10 | a new map has no cells and an empty neighbour list |
| HexMap.Map.AddCell | Assets/Scripts/Map.cs:19-22 | the cell is stored under its own coordinates, replacing any earlier cell there; other keys are kept |
| HexMap.Map.GetCell | Assets/Scripts/Map.cs:30-34 | returns the stored cell iff its key is present, and None (null) otherwise; a hit has the asked coordinates |
| HexMap.Map.SetAllCellsWalkable | Assets/Scripts/Map.cs:39-46 | every cell becomes walkable with its obstacle hidden; the set of keys is unchanged |
| HexMap.Map.GetNeighbors | Assets/Scripts/Map.cs:53-96 | the reusable list is cleared and refilled with the neighbours, the result is that list, and the dictionary is unchanged |
| Walks.WalkStep | Assets/Scripts/PathFinder.cs:46-65 | each cell of a walk is a neighbour of the cell before it |
| Walks.WalkPrefix | Assets/Scripts/PathFinder.cs:46-65 | a prefix of a walk is a walk |
| Walks.WalkAppend | Assets/Scripts/PathFinder.cs:46-65 | extending a walk by a neighbour of its end is a walk ending there |
| Walks.WalksStayInClosedSet | Assets/Scripts/PathFinder.cs:31-77 | a walk cannot leave a set of coordinates that contains its start and all neighbours of its members |
| Costs.Plus | Assets/Scripts/PathFinder.cs:57 | a sum is float.MaxValue iff an operand is; otherwise it is the exact sum |
| Costs.BelowStrictTotal | Assets/Scripts/PathFinder.cs:60 | the cost comparison is irreflexive, transitive and total on distinct costs |
| Costs.Distance | Assets/Scripts/PathFinder.cs:81-86 | GetDistance equals the larger of abs(dx) and abs(dz) |
| Costs.DistanceMetric | Assets/Scripts/PathFinder.cs:81-86 | GetDistance is symmetric, is zero iff the coordinates are equal, and obeys the triangle inequality |
| Costs.DistanceAdjacent | Assets/Scripts/PathFinder.cs:81-86 | neighbours are at distance 1 under either table |
| Costs.DistanceBoundsWalk | Assets/Scripts/PathFinder.cs:81-86 | no walk is shorter than GetDistance from its start to its end, so the heuristic is admissible |
| Costs.DistanceNotExact | Assets/Scripts/PathFinder.cs:81-86 | (0,0) to (2,2) has distance 2, but every walk between them has at least 3 steps |
| SearchNodes.NewNode | Assets/Scripts/PathFinder.cs:107-119 | a new node has no parent, and its F cost is float.MaxValue |
| SearchNodes.EqualsIsKeyEquality | Assets/Scripts/PathFinder.cs:122-131 | node equality is an equivalence, and it holds iff the coordinates (the hash key) are equal |
| SearchNodes.TrailTo | Assets/Scripts/PathFinder.cs:89-103 | the retraced cells are empty iff the node is at the start coordinate, and otherwise end with the node's cell |
| SearchNodes.RootKeyIsAncestor | Assets/Scripts/PathFinder.cs:95-99 | a chain built by the search reaches the start, and only its root sits at the start coordinate |
| SearchNodes.TrailIsWalk | Assets/Scripts/PathFinder.cs:89-103 | the retraced cells of such a chain form a walk from the start to the node, one step per parent link |
| SearchNodes.TrailKeys | Assets/Scripts/PathFinder.cs:89-103 | the retraced cells repeat no coordinate and do not include the start |
| SearchNodes.LinkedTrail | Assets/Scripts/PathFinder.cs:89-103 | the retraced cells form a walk to the node that repeats nothing |
| PriorityQueues.MinIndex | Assets/Scripts/PathFinder.cs:149-158 | the scan picks an entry of least priority, and the earliest among equals |
| PriorityQueues.SaturatedQueuePopsFront | Assets/Scripts/PathFinder.cs:111-113 | when all priorities are float.MaxValue, the front entry is taken (FIFO order) |
| PriorityQueues.AnyEquals | Assets/Scripts/PathFinder.cs:168 | true iff some entry's item equals the given node |
| PriorityQueues.PriorityQueue.constructor | Assets/Scripts/PathFinder.cs:137 | a new queue is empty |
| PriorityQueues.PriorityQueue.Count | Assets/Scripts/PathFinder.cs:140 | the count is zero iff the queue is empty |
| PriorityQueues.PriorityQueue.Enqueue | Assets/Scripts/PathFinder.cs:143-146 | one entry is appended at the end and the count grows by one |
| PriorityQueues.PriorityQueue.Dequeue | Assets/Scripts/PathFinder.cs:149-163 | returns the item of the earliest least-priority entry and removes that entry alone, keeping the order of the rest |
| PriorityQueues.PriorityQueue.Contains | Assets/Scripts/PathFinder.cs:166-169 | true iff some queued node has the same (X, Z) |
| SearchInvariant.InitialState | Assets/Scripts/PathFinder.cs:21-28 | after the start node is enqueued, the search invariant holds |
| SearchInvariant.FrontIsNext | Assets/Scripts/PathFinder.cs:31-34 | Dequeue takes the front entry; its coordinate is not closed; the closed set grows by one and stays within the map's keys and the start |
| SearchInvariant.BeginExpand | Assets/Scripts/PathFinder.cs:34-46 | closing the dequeued node starts the neighbour loop with its invariant |
| SearchInvariant.SkipNeighbor | Assets/Scripts/PathFinder.cs:51-54 | a closed or already-queued neighbour is passed over and the invariant is kept |
| SearchInvariant.EnqueueNeighbor | Assets/Scripts/PathFinder.cs:60-71 | an undiscovered neighbour is enqueued with the current node as parent, and the invariant is kept |
| SearchInvariant.EnqueueChild | Assets/Scripts/PathFinder.cs:62-71 | the enqueued neighbour keeps at most one open entry per coordinate and none closed, with queue depths layered |
| SearchInvariant.AppendEntry | Assets/Scripts/PathFinder.cs:68-71 | appending an entry for an unqueued coordinate keeps the queue well formed and loses no discovered coordinate |
| SearchInvariant.AppendDeeper | Assets/Scripts/PathFinder.cs:68-71 | appending a node one level deeper keeps the queue in breadth-first layers |
| SearchInvariant.UndiscoveredIsFar | Assets/Scripts/PathFinder.cs:31-73 | every walk to an undiscovered coordinate is longer than the current node's chain |
| SearchInvariant.ChildIsShortest | Assets/Scripts/PathFinder.cs:62-65 | a newly discovered neighbour's chain is as short as any walk to it |
| SearchInvariant.FinishExpand | Assets/Scripts/PathFinder.cs:46-73 | after all neighbours are handled, the main loop invariant holds with the node closed |
| SearchInvariant.Exhausted | Assets/Scripts/PathFinder.cs:31-77 | once the open queue is empty, no walk from the start reaches the end, and the two differ |
| SearchInvariant.GoalReached | Assets/Scripts/PathFinder.cs:37-39 | a dequeued node at the end yields a shortest walk from the start that repeats nothing |
| SearchInvariant.ClosedCount | Assets/Scripts/PathFinder.cs:43 | a closed set drawn from the map's keys and the start has at most the map's size plus one members |
| SearchInvariant.SubsetCardinality | Assets/Scripts/PathFinder.cs:43 | a subset is no larger than its superset |
| PathFinder.Reverse | Assets/Scripts/PathFinder.cs:102 | the reversed list has the same length, and the same elements last-first |
| PathFinder.RetracePath | Assets/Scripts/PathFinder.cs:89-103 | the path returned is the chain's cells from just after the start to the end node, in start-to-end order |
| PathFinder.ChildNode | Assets/Scripts/PathFinder.cs:48-65 | the node built for a neighbour has that cell and the current node as parent; when the parent's G is float.MaxValue, so are its G and F |
| PathFinder.Expansion | Assets/Scripts/PathFinder.cs:46-73 | the queue after the neighbour loop: the old queue unchanged at the front, then at most one child entry per neighbour, each for a neighbour that is not closed, with the child node and its F cost as priority |
| PathFinder.ExpansionCoversNeighbors | Assets/Scripts/PathFinder.cs:46-73 | after the loop, every neighbour that is not closed has an entry in the open queue |
| PathFinder.ExpandNeighbors | Assets/Scripts/PathFinder.cs:46-73 | the open queue becomes exactly `Expansion` of the queue left after Dequeue, and the main loop invariant holds again with the dequeued node closed |
| PathFinder.FindPathOnMap | Assets/Scripts/PathFinder.cs:16-78 | the map's cells are unchanged; at most the map's size plus one nodes are expanded; start = end gives the empty path; a path found is a shortest walk to the end that repeats nothing and excludes the start; null means no walk reaches the end |

## Left out

- HexMap.Map: `StartCell` and `EndCell` are left out. They are plain properties that the UI sets.
- HexMap.Cell: cells are values, not shared objects. Changes made through `SetAllCellsWalkable` are
  seen through the dictionary only. Aliasing with the UI's copies of a cell is not modelled.
- HexMap.Map.SetAllCellsWalkable: `Obstacle.SetActive(false)` is modelled as a boolean field of the
  cell. The game object itself is not modelled.
- PathFinder.FindPathOnMap: the global `GridManager.Instance.MapInterface` that the source reads is
  replaced by the map parameter.
- PathFinder.FindPathOnMap: the goal test compares cells by coordinates. The source compares cell
  references. These agree because the callers pass cells stored in the map (`Cell.cs` sets
  `StartCell` and `EndCell` to itself).
- PathFinder.FindPathOnMap: null start or end cells are not modelled. The cells are values that are
  always present.
- PathFinder.FindPathOnMap: the closed `HashSet<Node>` is a set of coordinates. That is what its
  equality and hash code compare.
- PathFinder.RetracePath: the loop stops at the first node with the start's coordinates. The source
  stops at the start node's reference. `SearchNodes.RootKeyIsAncestor` shows that on chains built by
  the search, only the root has the start's coordinates.
- PriorityQueues.PriorityQueue: the generic `PriorityQueue<T>` is specialised to nodes, its only use.
- Costs.Plus: costs are exact whole numbers or float.MaxValue. Single-precision rounding of large
  finite costs is not modelled. Finite G costs never occur, because the start's G cost is never
  lowered from float.MaxValue. `Plus(Max, Max)` is `Max`, while in single precision
  `float.MaxValue + float.MaxValue` is infinity. The source never adds these two: the right operand
  at lines 57 and 113 is always a distance.
- HexMap.Map.GetNeighbors: coordinates are unbounded integers. The 32-bit wrap-around of
  `cell.X + offset[0]` and `cell.Z + offset[1]` (`Map.cs:84-85`) is not modelled.
- Costs.Distance: coordinates are unbounded integers. The 32-bit overflow of `cellA.X - cellB.X` and
  of `dx + dz` is not modelled. `Mathf.Abs(int.MinValue)` throws an exception rather than wrapping,
  and that exception is not modelled either.
- Rendering, input, camera and UI code (`GridManager.cs`, `Cell.cs`, `UIManager.cs`,
  `AspectRatioCamera.cs`) is not part of this model.
