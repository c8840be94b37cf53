/** Page descriptors, and how lists of page indices map to circles of list nodes. */
module PageLists {
  import opened Lists

  class Page {
    const lru: ListHead
    /** The top bits of `flags`: which zone the page belongs to. */
    var zoneId: nat
    /** PG_private and PG_reserved. */
    var hasPrivate: bool
    var isReserved: bool
    /** `private`: the order of the block, where PG_private is set. */
    var order: nat
    /** `_count`: one less than the number of references. */
    var count: int

    constructor (pfn: nat)
      ensures fresh(lru) && lru.entry == pfn
      ensures zoneId == 0 && !hasPrivate && !isReserved && order == 0 && count == 0
    {
      lru := new ListHead(pfn);
      zoneId, hasPrivate, isReserved, order, count := 0, false, false, 0, 0;
    }

    function Count(): int
      reads this
    {
      count + 1
    }
  }

  ghost predicate Indices(list: seq<nat>, n: nat)
  {
    forall i :: 0 <= i < |list| ==> list[i] < n
  }

  /** The circle of nodes for a head and a list of page indices. */
  ghost function NodesOf(head: ListHead, pages: seq<Page>, list: seq<nat>): (ring: seq<ListHead>)
    requires Indices(list, |pages|)
    ensures |ring| == 1 + |list| && ring[0] == head
    ensures forall i :: 0 <= i < |list| ==> ring[i + 1] == pages[list[i]].lru
  {
    [head] + seq(|list|, i requires 0 <= i < |list| => pages[list[i]].lru)
  }

  ghost predicate AllIndices(lists: seq<seq<nat>>, n: nat)
  {
    forall o :: 0 <= o < |lists| ==> Indices(lists[o], n)
  }

  ghost function RingsOf(heads: seq<ListHead>, pages: seq<Page>, lists: seq<seq<nat>>): (rings: seq<seq<ListHead>>)
    requires |heads| == |lists| && AllIndices(lists, |pages|)
    ensures |rings| == |lists|
    ensures forall o :: 0 <= o < |lists| ==> rings[o] == NodesOf(heads[o], pages, lists[o])
  {
    seq(|lists|, o requires 0 <= o < |lists| => NodesOf(heads[o], pages, lists[o]))
  }

  ghost function Without(list: seq<nat>, k: nat): seq<nat>
    requires k < |list|
  {
    list[..k] + list[k + 1..]
  }

  lemma NotAmongNodes(head: ListHead, pages: seq<Page>, list: seq<nat>, node: ListHead)
    requires Indices(list, |pages|)
    requires head.entry != node.entry && forall b :: b in list ==> pages[b].lru.entry != node.entry
    ensures node !in NodesOf(head, pages, list)
  {
    var ring := NodesOf(head, pages, list);
    forall i | 0 <= i < |ring|
      ensures ring[i] != node
    {
      assert i > 0 ==> list[i - 1] in list;
    }
  }

  lemma OffRingsOf(heads: seq<ListHead>, pages: seq<Page>, lists: seq<seq<nat>>, base: nat, b: nat)
    requires |heads| == |lists| && AllIndices(lists, |pages|) && b < |pages|
    requires forall o :: 0 <= o < |heads| ==> heads[o].entry == -1 - o
    requires forall i :: 0 <= i < |pages| ==> pages[i].lru.entry == base + i
    requires forall o :: 0 <= o < |lists| ==> b !in lists[o]
    ensures OffRings(pages[b].lru, RingsOf(heads, pages, lists))
  {
    forall o | 0 <= o < |lists|
      ensures pages[b].lru !in RingsOf(heads, pages, lists)[o]
    {
      NotAmongNodes(heads[o], pages, lists[o], pages[b].lru);
    }
  }

  lemma OneListChanged(heads: seq<ListHead>, pages: seq<Page>, lists: seq<seq<nat>>, o: nat, list: seq<nat>)
    requires |heads| == |lists| && AllIndices(lists, |pages|) && o < |lists| && Indices(list, |pages|)
    ensures AllIndices(lists[o := list], |pages|)
    ensures RingsOf(heads, pages, lists[o := list]) == RingsOf(heads, pages, lists)[o := NodesOf(heads[o], pages, list)]
  {
  }

  lemma NodesPushed(head: ListHead, pages: seq<Page>, list: seq<nat>, b: nat)
    requires Indices(list, |pages|) && b < |pages|
    ensures Indices([b] + list, |pages|)
    ensures NodesOf(head, pages, [b] + list) == [head, pages[b].lru] + NodesOf(head, pages, list)[1..]
  {
  }

  lemma NodesAppended(head: ListHead, pages: seq<Page>, list: seq<nat>, b: nat)
    requires Indices(list, |pages|) && b < |pages|
    ensures Indices(list + [b], |pages|)
    ensures NodesOf(head, pages, list + [b]) == NodesOf(head, pages, list) + [pages[b].lru]
  {
  }

  lemma NodesWithout(head: ListHead, pages: seq<Page>, list: seq<nat>, k: nat)
    requires Indices(list, |pages|) && k < |list|
    ensures Indices(Without(list, k), |pages|)
    ensures var ring := NodesOf(head, pages, list);
            NodesOf(head, pages, Without(list, k)) == ring[..k + 1] + ring[k + 2..]
  {
    var ring, cut := NodesOf(head, pages, list), NodesOf(head, pages, Without(list, k));
    assert |cut| == |list|;
    forall i | 0 <= i < |cut|
      ensures cut[i] == if i <= k then ring[i] else ring[i + 1]
    {
      assert i > 0 ==> cut[i] == pages[Without(list, k)[i - 1]].lru;
    }
  }
}
