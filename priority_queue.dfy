/**
 * The nested PriorityQueue of PathFinder.cs: a list of (item, priority) entries with append,
 * linear-scan extract-min and a membership test by node equality. Its one use holds nodes, so the
 * model holds nodes.
 */
module PriorityQueues {
  import opened HexMap
  import opened Costs
  import opened SearchNodes

  datatype Entry = Entry(item: Node, priority: Cost)

  /**
   * The index Dequeue's scan settles on: an entry with the least priority, and among those the
   * earliest, because the scan only moves on a strictly smaller priority.
   */
  function MinIndex(es: seq<Entry>): (k: nat)
    requires es != []
    ensures k < |es|
    ensures forall j :: 0 <= j < |es| ==> !Below(es[j].priority, es[k].priority)
    ensures forall j :: 0 <= j < k ==> Below(es[k].priority, es[j].priority)
    decreases |es|
  {
    if |es| == 1 then 0
    else
      var b := MinIndex(es[..|es| - 1]);
      if Below(es[|es| - 1].priority, es[b].priority) then |es| - 1 else b
  }

  /** When every priority is float.MaxValue, extract-min takes the oldest entry: the queue is FIFO. */
  lemma SaturatedQueuePopsFront(es: seq<Entry>)
    requires es != []
    requires forall i :: 0 <= i < |es| ==> es[i].priority == Max
    ensures MinIndex(es) == 0
  {
  }

  /** `elements.Any(e => e.item.Equals(item))`. */
  function AnyEquals(es: seq<Entry>, item: Node): (b: bool)
    ensures b <==> exists i :: 0 <= i < |es| && es[i].item.Equals(item)
  {
    if es == [] then false else es[0].item.Equals(item) || AnyEquals(es[1..], item)
  }

  class PriorityQueue {
    var elements: seq<Entry>

    constructor ()
      ensures elements == []
    {
      elements := [];
    }

    function Count(): (n: nat)
      reads this
      ensures n == 0 <==> elements == []
    {
      |elements|
    }

    /** Appends one entry; nothing else changes. */
    method Enqueue(item: Node, priority: Cost)
      modifies this
      ensures elements == old(elements) + [Entry(item, priority)]
      ensures Count() == old(Count()) + 1
    {
      elements := elements + [Entry(item, priority)];
    }

    /**
     * Removes and returns the earliest entry of least priority; the other entries stay, in their
     * order.
     */
    method Dequeue() returns (item: Node)
      requires elements != []
      modifies this
      ensures var k := MinIndex(old(elements));
              && item == old(elements)[k].item
              && elements == old(elements)[..k] + old(elements)[k + 1..]
      ensures Count() == old(Count()) - 1
    {
      var bestIndex := 0;
      for i := 0 to |elements|
        invariant bestIndex < |elements|
        invariant bestIndex == if i == 0 then 0 else MinIndex(elements[..i])
      {
        assert elements[..i + 1][..i] == elements[..i];
        if Below(elements[i].priority, elements[bestIndex].priority) {
          bestIndex := i;
        }
      }
      assert elements[..|elements|] == elements;
      item := elements[bestIndex].item;
      elements := elements[..bestIndex] + elements[bestIndex + 1..];
    }

    /** Some entry's item has the same coordinates as `item`. */
    function Contains(item: Node): (b: bool)
      reads this
      ensures b <==> exists i :: 0 <= i < |elements| && KeyOf(elements[i].item.cell) == KeyOf(item.cell)
    {
      AnyEquals(elements, item)
    }
  }
}
