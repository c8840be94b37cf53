/** The kernel's intrusive circular lists: nodes embedded in other records, linked
    both ways, with the list head itself a node of the circle. */
module Lists {

  class ListHead {
    var prev: ListHead?
    var next: ListHead?
    /** The record this node is embedded in: what subtracting the member's offset finds. */
    const entry: int

    constructor (entry: int)
      ensures this.entry == entry && prev == null && next == null
    {
      this.entry := entry;
      prev, next := null, null;
    }
  }

  /** The nodes of `ring`, in order, form one circle in both directions. */
  ghost predicate Ring(ring: seq<ListHead>)
    reads ring
  {
    && |ring| > 0
    && (forall i, j :: 0 <= i < j < |ring| ==> ring[i] != ring[j])
    && (forall i :: 0 <= i < |ring| ==> ring[i].next == ring[if i + 1 == |ring| then 0 else i + 1])
    && (forall i :: 0 <= i < |ring| ==> ring[i].prev == ring[if i == 0 then |ring| - 1 else i - 1])
  }

  // ----- several lists side by side -----

  ghost predicate Apart(r: seq<ListHead>, q: seq<ListHead>)
  {
    forall i, j :: 0 <= i < |r| && 0 <= j < |q| ==> r[i] != q[j]
  }

  /** Every entry is a circle and no node lies on two of them. */
  ghost predicate Rings(rings: seq<seq<ListHead>>)
    reads set o, i | 0 <= o < |rings| && 0 <= i < |rings[o]| :: rings[o][i]
  {
    && (forall o :: 0 <= o < |rings| ==> Ring(rings[o]))
    && (forall o, p :: 0 <= o < p < |rings| ==> Apart(rings[o], rings[p]))
  }

  ghost predicate OffRings(node: ListHead, rings: seq<seq<ListHead>>)
  {
    forall o :: 0 <= o < |rings| ==> node !in rings[o]
  }

  lemma KeepOthers(rings: seq<seq<ListHead>>, o: nat, ring: seq<ListHead>, node: ListHead)
    requires o < |rings|
    requires forall p :: 0 <= p < |rings| && p != o ==> Ring(rings[p])
    requires forall p, q :: 0 <= p < q < |rings| ==> Apart(rings[p], rings[q])
    requires Ring(ring) && (forall p :: 0 <= p < |rings| && p != o ==> node !in rings[p])
    requires forall i :: 0 <= i < |ring| ==> ring[i] == node || ring[i] in rings[o]
    ensures Rings(rings[o := ring])
  {
  }

  method InitList(head: ListHead)
    modifies head`prev, head`next
    ensures Ring([head])
  {
    head.prev := head;
    head.next := head;
  }

  method LinkBetween(node: ListHead, prev: ListHead, next: ListHead)
    requires node != prev && node != next
    modifies {node, prev, next}`prev, {node, prev, next}`next
    ensures node.prev == prev && node.next == next && prev.next == node && next.prev == node
    ensures prev != next ==> prev.prev == old(prev.prev) && next.next == old(next.next)
  {
    prev.next := node;
    next.prev := node;
    node.next := next;
    node.prev := prev;
  }

  /** Insert right after the head. */
  method ListAdd(head: ListHead, node: ListHead, ghost rings: seq<seq<ListHead>>, ghost o: nat)
    requires Rings(rings) && o < |rings| && OffRings(node, rings) && rings[o][0] == head
    modifies {node, head, head.next}`prev, {node, head, head.next}`next
    ensures Rings(rings[o := [head, node] + rings[o][1..]])
  {
    ghost var ring := rings[o];
    assert ring[0].next == ring[if |ring| == 1 then 0 else 1];
    LinkBetween(node, head, head.next);
    KeepOthers(rings, o, [head, node] + ring[1..], node);
  }

  /** Insert right before the head, that is, at the end. */
  method ListAddTail(head: ListHead, node: ListHead, ghost rings: seq<seq<ListHead>>, ghost o: nat)
    requires Rings(rings) && o < |rings| && OffRings(node, rings) && rings[o][0] == head
    modifies {node, head, head.prev}`prev, {node, head, head.prev}`next
    ensures Rings(rings[o := rings[o] + [node]])
  {
    ghost var ring := rings[o];
    assert ring[0].prev == ring[|ring| - 1];
    LinkBetween(node, head.prev, head);
    KeepOthers(rings, o, ring + [node], node);
  }

  /** Unlink a node knowing nothing but the node. */
  method ListDel(it: ListHead, ghost rings: seq<seq<ListHead>>, ghost o: nat, ghost k: nat)
    requires Rings(rings) && o < |rings| && 0 < k < |rings[o]| && rings[o][k] == it
    modifies {it.next, it.prev}`prev, {it.next, it.prev}`next
    ensures Rings(rings[o := rings[o][..k] + rings[o][k + 1..]])
  {
    ghost var ring := rings[o];
    assert ring[k].prev == ring[k - 1];
    assert ring[k].next == ring[if k + 1 == |ring| then 0 else k + 1];
    it.next.prev := it.prev;
    it.prev.next := it.next;
    ghost var cut := ring[..k] + ring[k + 1..];
    assert forall i :: 0 <= i < |cut| ==> cut[i] == ring[if i < k then i else i + 1];
    assert Ring(cut);
    KeepOthers(rings, o, cut, it);
  }

  predicate ListEmpty(head: ListHead)
    reads head
  {
    head.prev == head && head.next == head
  }

  /** The emptiness test is right on every well-formed list. */
  lemma ListEmptyExact(ring: seq<ListHead>)
    requires Ring(ring)
    ensures ListEmpty(ring[0]) <==> |ring| == 1
  {
    if |ring| > 1 {
      assert ring[0].next == ring[1];
    }
  }
}
