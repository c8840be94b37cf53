/** The buddy allocator of one zone: free_area lists, `__free_pages`, `__rmqueue` and `expand`. */
module PageAlloc {
  import opened Bits
  import opened Blocks
  import opened BuddyTheory
  import opened Lists
  import opened PageLists
  import opened Wrappers

  /** `page_is_buddy`. */
  predicate PageIsBuddy(page: Page, order: nat)
    reads page
  {
    page.hasPrivate && page.order == order && !page.isReserved && page.Count() == 0
  }

  /** The descriptor behind the last one of a zone of n pages does not look like a free block of the
      one order at which it can be probed. */
  ghost predicate QuietAt(past: Page, n: nat)
    reads past
  {
    forall o :: Boundary(n, o) ==> !PageIsBuddy(past, o)
  }

  /** A zone: its slice of the page array and its free_area lists. */
  class Zone {
    const heads: seq<ListHead>
    var pages: seq<Page>
    /** Index of the zone's first page in the global page array. */
    var base: nat
    var nrFree: seq<int>
    /** The page indices on each list, in list order. */
    ghost var lists: seq<seq<nat>>
    /** The free pages, and the order of each block in use. */
    ghost var free: set<nat>
    ghost var held: map<nat, nat>

    ghost predicate Layout()
      reads `pages, `base, `nrFree, `lists
    {
      && |heads| == |nrFree| == |lists| == MAX_ORDER
      && (forall o :: 0 <= o < MAX_ORDER ==> heads[o].entry == -1 - o)
      && (forall i :: 0 <= i < |pages| ==> pages[i].lru.entry == base + i)
      && AllIndices(lists, |pages|)
    }

    ghost function Links(): set<ListHead>
      reads `pages
    {
      (set h | h in heads) + (set p | p in pages :: p.lru)
    }

    ghost function AllRings(): (rings: seq<seq<ListHead>>)
      requires Layout()
      reads `pages, `base, `nrFree, `lists
      ensures |rings| == MAX_ORDER
      ensures forall o, i :: 0 <= o < MAX_ORDER && 0 <= i < |rings[o]| ==> rings[o][i] in Links()
    {
      RingsOf(heads, pages, lists)
    }

    ghost predicate WellFormed()
      reads `pages, `base, `nrFree, `lists, Links()
    {
      && Layout()
      && Rings(AllRings())
      && (forall o :: 0 <= o < MAX_ORDER ==> nrFree[o] == |lists[o]|)
    }

    constructor ()
      ensures |heads| == MAX_ORDER && fresh(heads)
      ensures forall o :: 0 <= o < MAX_ORDER ==> heads[o].entry == -1 - o
      ensures pages == []
    {
      var hs: seq<ListHead> := [];
      while |hs| < MAX_ORDER
        invariant |hs| <= MAX_ORDER && fresh(hs)
        invariant forall o :: 0 <= o < |hs| ==> hs[o].entry == -1 - o
      {
        var h := new ListHead(-1 - |hs|);
        hs := hs + [h];
      }
      heads := hs;
      pages, base, nrFree, lists, free, held := [], 0, [], [], {}, map[];
    }

    ghost predicate ListsEmpty()
      reads `nrFree, `lists, heads
    {
      && |heads| == |nrFree| == |lists| == MAX_ORDER
      && (forall o :: 0 <= o < MAX_ORDER ==> heads[o].entry == -1 - o)
      && (forall o :: 0 <= o < MAX_ORDER ==> nrFree[o] == 0 && lists[o] == [] && Ring([heads[o]]))
    }

    /** Make all lists empty. */
    method InitFreeLists()
      requires |heads| == MAX_ORDER
      requires forall o :: 0 <= o < MAX_ORDER ==> heads[o].entry == -1 - o
      modifies this`nrFree, this`lists, heads`prev, heads`next
      ensures ListsEmpty()
    {
      nrFree := [];
      lists := [];
      while |nrFree| < MAX_ORDER
        invariant |nrFree| == |lists| <= MAX_ORDER
        invariant forall o :: 0 <= o < |lists| ==> nrFree[o] == 0 && lists[o] == [] && Ring([heads[o]])
      {
        var o := |nrFree|;
        InitList(heads[o]);
        nrFree := nrFree + [0];
        lists := lists + [[]];
      }
    }

    lemma EmptyWellFormed()
      requires ListsEmpty()
      requires forall i :: 0 <= i < |pages| ==> pages[i].lru.entry == base + i
      ensures WellFormed()
    {
      assert forall o :: 0 <= o < MAX_ORDER ==> NodesOf(heads[o], pages, lists[o]) == [heads[o]];
    }

    /** Before any page is given back, every page counts as a block in use of order 0. */
    lemma FreshValid()
      requires ListsEmpty()
      requires forall i :: 0 <= i < |pages| ==> pages[i].lru.entry == base + i && !pages[i].hasPrivate
      requires free == {} && held == Singles(|pages|)
      ensures Valid()
    {
      EmptyWellFormed();
      FreshConsistent(|pages|);
      assert Tags() == map[];
      forall o, b: nat | 0 <= o < MAX_ORDER
        ensures b in lists[o] <==> Maximal(free, b, o)
      {
        NoneMaximal(b, o);
      }
    }

    /** No page is on two lists, or twice on one. */
    lemma ListedOnce(o: nat, i: nat, p: nat, j: nat)
      requires WellFormed() && o < MAX_ORDER && p < MAX_ORDER && i < |lists[o]| && j < |lists[p]|
      ensures lists[o][i] == lists[p][j] ==> o == p && i == j
    {
      var rings := AllRings();
      if lists[o][i] == lists[p][j] {
        assert rings[o][i + 1] == rings[p][j + 1];
        assert Ring(rings[o]);
      }
    }

    ghost predicate Unlisted(b: nat)
      reads this
    {
      forall o :: 0 <= o < |lists| ==> b !in lists[o]
    }

    /** `list_del` of a page's node, and one block less on its list. */
    method Unlink(b: nat, o: nat)
      requires WellFormed() && o < MAX_ORDER && b in lists[o]
      modifies this`nrFree, this`lists, Links()`prev, Links()`next
      ensures WellFormed() && lists == old(lists)[o := Except(old(lists[o]), {b})]
      ensures forall x :: x in lists[o] <==> x in old(lists[o]) && x != b
    {
      hide Except, Ring, Apart, Rings, Without;
      ghost var k := Position(b, o);
      NodesWithout(heads[o], pages, lists[o], k);
      OneListChanged(heads, pages, lists, o, Without(lists[o], k));
      ghost var rings := AllRings();
      lists := lists[o := Without(lists[o], k)];
      nrFree := nrFree[o := nrFree[o] - 1];
      ListDel(pages[b].lru, rings, o, k + 1);
    }

    /** Where a page stands on its list, and what removing it there leaves. */
    lemma Position(b: nat, o: nat) returns (k: nat)
      requires WellFormed() && o < MAX_ORDER && b in lists[o]
      ensures k < |lists[o]| && lists[o][k] == b && AllRings()[o][k + 1] == pages[b].lru
      ensures pages[b].lru.next in Links() && pages[b].lru.prev in Links()
      ensures Without(lists[o], k) == Except(lists[o], {b})
      ensures forall x :: x in Without(lists[o], k) <==> x in lists[o] && x != b
    {
      k :| 0 <= k < |lists[o]| && lists[o][k] == b;
      forall i, j | 0 <= i < j < |lists[o]|
        ensures lists[o][i] != lists[o][j]
      {
        ListedOnce(o, i, o, j);
      }
      WithoutMembers(lists[o], k);
      StandsOnce(lists[o], k);
      ExceptOne(lists[o], k);
      DelInLinks(b, o, k);
    }

    lemma StandsOnce(list: seq<nat>, k: nat)
      requires k < |list| && forall i, j :: 0 <= i < j < |list| ==> list[i] != list[j]
      ensures list[k] !in list[..k] && list[k] !in list[k + 1..]
    {
    }

    lemma DelInLinks(b: nat, o: nat, k: nat)
      requires WellFormed() && o < MAX_ORDER && k < |lists[o]| && lists[o][k] == b
      ensures pages[b].lru.next in Links() && pages[b].lru.prev in Links()
    {
      var ring := AllRings()[o];
      assert Ring(ring);
      assert ring[k + 1].prev == ring[k];
      assert ring[k + 1].next == ring[if k + 2 == |ring| then 0 else k + 2];
    }

    lemma WithoutMembers(list: seq<nat>, k: nat)
      requires k < |list|
      requires forall i, j :: 0 <= i < j < |list| ==> list[i] != list[j]
      ensures forall x :: x in Without(list, k) <==> x in list && x != list[k]
    {
      forall x | x in list && x != list[k]
        ensures x in Without(list, k)
      {
        var i :| 0 <= i < |list| && list[i] == x;
        assert Without(list, k)[if i < k then i else i - 1] == x;
      }
    }

    lemma HeadInLinks(o: nat)
      requires WellFormed() && o < MAX_ORDER
      ensures heads[o].next in Links() && heads[o].prev in Links()
    {
      var ring := AllRings()[o];
      assert Ring(ring);
      assert ring[0].next == ring[if |ring| == 1 then 0 else 1];
      assert ring[0].prev == ring[|ring| - 1];
    }

    /** `list_add` of a page's node, and one block more on the list. */
    method LinkFront(b: nat, o: nat)
      requires WellFormed() && o < MAX_ORDER && b < |pages| && Unlisted(b)
      modifies this`nrFree, this`lists, Links()`prev, Links()`next
      ensures WellFormed()
      ensures lists == old(lists)[o := [b] + old(lists)[o]]
    {
      hide Ring, Apart, Rings;
      ghost var rings := AllRings();
      OffRingsOf(heads, pages, lists, base, b);
      HeadInLinks(o);
      NodesPushed(heads[o], pages, lists[o], b);
      OneListChanged(heads, pages, lists, o, [b] + lists[o]);
      lists := lists[o := [b] + lists[o]];
      nrFree := nrFree[o := nrFree[o] + 1];
      ListAdd(heads[o], pages[b].lru, rings, o);
    }

    /** `list_add_tail` of a page's node, and one block more on the list. */
    method LinkBack(b: nat, o: nat)
      requires WellFormed() && o < MAX_ORDER && b < |pages| && Unlisted(b)
      modifies this`nrFree, this`lists, Links()`prev, Links()`next
      ensures WellFormed()
      ensures lists == old(lists)[o := old(lists)[o] + [b]]
    {
      hide Ring, Apart, Rings;
      ghost var rings := AllRings();
      OffRingsOf(heads, pages, lists, base, b);
      HeadInLinks(o);
      NodesAppended(heads[o], pages, lists[o], b);
      OneListChanged(heads, pages, lists, o, lists[o] + [b]);
      lists := lists[o := lists[o] + [b]];
      nrFree := nrFree[o := nrFree[o] + 1];
      ListAddTail(heads[o], pages[b].lru, rings, o);
    }

    /** The first page on a list, found through the head's `next` and `list_entry`. */
    method First(o: nat) returns (b: nat)
      requires WellFormed() && o < MAX_ORDER && lists[o] != []
      ensures b in lists[o] && b == lists[o][0] && b < |pages| && |lists| == MAX_ORDER
    {
      ghost var ring := AllRings()[o];
      assert Ring(ring);
      assert ring[0].next == ring[1];
      b := heads[o].next.entry - base;
    }

    /** A list without its first page. */
    lemma WithoutFirst(o: nat)
      requires WellFormed() && o < MAX_ORDER && lists[o] != []
      ensures Except(lists[o], {lists[o][0]}) == lists[o][1..]
    {
      forall i, j | 0 <= i < j < |lists[o]|
        ensures lists[o][i] != lists[o][j]
      {
        ListedOnce(o, i, o, j);
      }
      StandsOnce(lists[o], 0);
      ExceptOne(lists[o], 0);
    }

    lemma ListCount()
      requires WellFormed()
      ensures |heads| == |lists| == MAX_ORDER
    {
    }

    lemma EmptyExact(o: nat)
      requires WellFormed() && o < MAX_ORDER
      ensures |heads| == |lists| && (ListEmpty(heads[o]) <==> lists[o] == [])
    {
      assert Ring(AllRings()[o]);
      ListEmptyExact(AllRings()[o]);
    }

    // ----- the state of the allocator -----

    /** Pages whose PG_private is set, with the order stored there. */
    ghost function Tags(): map<nat, nat>
      reads `pages, pages`hasPrivate, pages`order
    {
      map p: nat | p < |pages| && pages[p].hasPrivate :: pages[p].order
    }

    ghost function Snap(): Snapshot
      reads `pages, `free, `held, pages`hasPrivate, pages`order
    {
      Snapshot(|pages|, free, held, Tags())
    }

    /** The pages a block may be made of: not reserved, and nobody refers to them. */
    ghost predicate Usable(s: set<nat>)
      reads `pages, pages`isReserved, pages`count
    {
      forall z :: z in s ==> z < |pages| && !pages[z].isReserved && pages[z].count == -1
    }

    ghost predicate Sound()
      reads `pages, `free, `held, pages`hasPrivate, pages`order, pages`isReserved, pages`count
    {
      Consistent(Snap()) && Usable(free)
    }

    /** The lists hold exactly the maximal free blocks, and free pages and blocks in use
        partition the zone. */
    ghost predicate Valid()
      reads this, Links(), pages
    {
      && WellFormed()
      && Listing(lists, free)
      && Consistent(Snap())
      && Usable(free)
    }

    lemma ValidParts()
      requires Valid()
      ensures WellFormed() && Sound() && Listing(lists, free)
      ensures |heads| == |lists| == MAX_ORDER
    {
    }

    lemma UsablePart(s: set<nat>, t: set<nat>)
      requires Usable(s) && t <= s
      ensures Usable(t)
    {
    }

    /** Take t as the state, once lists and tags agree with it. */
    ghost method Record(t: Snapshot)
      requires WellFormed() && Listing(lists, t.free) && Consistent(t) && Usable(t.free)
      requires t.n == |pages| && t.tag == Tags()
      modifies this`free, this`held
      ensures Valid() && free == t.free && held == t.held && Snap() == t
    {
      hide Consistent, Listing, Usable;
      free := t.free;
      held := t.held;
    }

    // ----- giving blocks back -----

    /** `not_in_zone`, which lets the index just past the zone through. */
    predicate NotInZone(p: int)
      reads this
    {
      p < 0 || p > |pages|
    }

    /** Set PG_private and `private`; every other tag stays as it is. */
    method SetPageOrder(pg: Page, q: nat, order: nat)
      requires WellFormed() && q < |pages| && pages[q] == pg
      modifies pg`hasPrivate, pg`order
      ensures WellFormed() && Tags() == old(Tags())[q := order]
    {
      pg.order := order;
      pg.hasPrivate := true;
      OtherPages(q);
    }

    method ClearPagePrivate(pg: Page, q: nat)
      requires WellFormed() && q < |pages| && pages[q] == pg
      modifies pg`hasPrivate
      ensures WellFormed() && Tags() == old(Tags()) - {q}
    {
      pg.hasPrivate := false;
      OtherPages(q);
    }

    lemma EntryOf(q: nat)
      requires WellFormed() && q < |pages|
      ensures pages[q].lru.entry - base == q
    {
    }

    lemma OtherPages(q: nat)
      requires WellFormed() && q < |pages|
      ensures forall i :: 0 <= i < |pages| && i != q ==> pages[i] != pages[q]
    {
      forall i | 0 <= i < |pages| && i != q
        ensures pages[i] != pages[q]
      {
        assert pages[i].lru.entry != pages[q].lru.entry;
      }
    }

    /** While the block in use at p0 is being given back and has grown to (q, o), the test of the
        buddy's flags, order and count decides whether that page heads a free block of order o. */
    lemma ProbeExact(p0: nat, q: nat, o: nat)
      requires Sound() && p0 in held && held[p0] <= o < MAX_ORDER - 1
      requires q < |pages| && Aligned(q, o) && Together(p0, q, o)
      ensures Buddy(q, o) < |pages| ==> (PageIsBuddy(pages[Buddy(q, o)], o) <==> Maximal(free, Buddy(q, o), o))
      ensures Buddy(q, o) >= |pages| ==> !Maximal(free, Buddy(q, o), o)
    {
      var y := Buddy(q, o);
      BuddyTest(Snap(), p0, q, o);
      assert Maximal(free, y, o) ==> Together(y, y, o) && y in free && y < |pages|;
      hide Consistent;
      assert y < |pages| ==> (Tagged(Snap(), y, o) <==> pages[y].hasPrivate && pages[y].order == o);
    }

    /** Probe the buddy of (q, order) and, if it is free, take it off its list. `past` is the
        descriptor behind the zone's last one, which the bounds check lets through. */
    method TakeBuddy(ghost p0: nat, q: nat, order: nat, past: Page, ghost before: seq<seq<nat>>)
      returns (merged: bool, grown: nat)
      requires WellFormed() && Sound() && QuietAt(past, |pages|)
      requires Growing(Snap(), lists, p0, q, order) && order < MAX_ORDER - 1
      requires Listing(before, free) && Swallowed(before, lists, q, order)
      modifies this`nrFree, this`lists, Links()`prev, Links()`next
      ensures WellFormed()
      ensures merged ==> Growing(Snap(), lists, p0, grown, order + 1) && Swallowed(before, lists, grown, order + 1)
      ensures !merged ==> lists == old(lists) && GrownFully(Snap(), p0, q, order)
    {
      hide Consistent, Growing, GrownFully, Maximal, WellFormed, Listing, Swallowed, Except;
      var buddy := Xor(q, Pow2(order));
      GrowProbe(Snap(), lists, p0, q, order);
      ProbeExact(p0, q, order);
      if NotInZone(buddy) || !PageIsBuddy(if buddy == |pages| then past else pages[buddy], order) {
        return false, q;
      }
      ghost var whole := lists;
      Unlink(buddy, order);
      GrowStep(Snap(), whole, lists, p0, q, order);
      SwallowStep(free, before, whole, lists, q, order);
      return true, And(q, buddy);
    }

    /** `set_page_order` and `list_add` of the page that heads a block. */
    method TagAndLink(pg: Page, q: nat, order: nat)
      requires WellFormed() && q < |pages| && pages[q] == pg && order < MAX_ORDER && Unlisted(q)
      modifies this`nrFree, this`lists, Links()`prev, Links()`next, pg`hasPrivate, pg`order
      ensures WellFormed()
      ensures lists == old(lists)[order := [q] + old(lists)[order]]
      ensures Tags() == old(Tags())[q := order]
    {
      hide WellFormed;
      SetPageOrder(pg, q, order);
      LinkFront(q, order);
    }

    /** The last step of giving a block back: tag it, list it, and take the new state as valid. */
    method Settle(pg: Page, q: nat, order: nat, ghost t: Snapshot)
      requires WellFormed() && q < |pages| && pages[q] == pg && order < MAX_ORDER && Unlisted(q)
      requires t.n == |pages| && t.tag == Tags()[q := order]
      requires Consistent(t) && Listing(lists[order := [q] + lists[order]], t.free) && Usable(t.free)
      modifies this`nrFree, this`lists, this`free, this`held, Links()`prev, Links()`next, pg`hasPrivate, pg`order
      ensures Valid() && Snap() == t && lists == old(lists)[order := [q] + old(lists)[order]]
    {
      hide Consistent, Listing, WellFormed;
      TagAndLink(pg, q, order);
      Record(t);
    }

    /** The end of giving a block back: the block it has grown to goes to the front of its list. */
    method Relist(ghost p0: nat, q: nat, order: nat, ghost before: seq<seq<nat>>)
      requires WellFormed() && Sound() && p0 in held && Usable(Block(p0, held[p0]))
      requires Growing(Snap(), lists, p0, q, order) && GrownFully(Snap(), p0, q, order)
      requires Swallowed(before, lists, q, order)
      modifies this`nrFree, this`lists, this`free, this`held, Links()`prev, Links()`next, pages`hasPrivate, pages`order
      ensures Valid()
      ensures free == old(free) + Block(p0, old(held)[p0]) && held == old(held) - {p0}
      ensures order < MAX_ORDER == |lists| == |before| && InRange(p0, q, order)
      ensures forall k :: 0 <= k < MAX_ORDER ==>
                lists[k] == (if k == order then [q] else []) + Except(before[k], Block(q, order))
    {
      hide Consistent, Growing, GrownFully, Maximal, Listing, WellFormed, Block, Swallowed, Except;
      GrowEnd(Snap(), lists, p0, q, order);
      SwallowEnd(Snap(), before, lists, p0, q, order);
      Settle(pages[q], q, order, Released(Snap(), p0, q, order));
    }

    /** Give back the block in use at page p0, merging it with free neighbours. The merged block
        (head, order) becomes the first of its list; all lists lose the blocks it swallowed, and keep
        the others in their order. `past` is the descriptor behind the zone's last one. */
    method FreePages(p0: nat, order0: nat, past: Page) returns (ghost head: nat, ghost order: nat)
      requires Valid() && QuietAt(past, |pages|)
      requires p0 in held && held[p0] == order0
      requires Usable(Block(p0, order0))
      modifies this`nrFree, this`lists, this`free, this`held, Links()`prev, Links()`next, pages`hasPrivate, pages`order
      ensures Valid()
      ensures free == old(free) + Block(p0, order0)
      ensures held == old(held) - {p0}
      ensures order < MAX_ORDER == |lists| == |old(lists)| && InRange(p0, head, order)
      ensures forall k :: 0 <= k < MAX_ORDER ==>
                lists[k] == (if k == order then [head] else []) + Except(old(lists)[k], Block(head, order))
    {
      hide Consistent, Growing, GrownFully, Maximal, Listing, WellFormed, Block;
      hide Swallowed, Except, Valid, Sound, Usable;
      ValidParts();
      var o: nat, q: nat := order0, p0;
      ghost var s := Snap();
      GrowStart(s, lists, p0);
      SwallowStart(s, lists, p0);
      while o < MAX_ORDER - 1
        invariant WellFormed() && Sound()
        invariant Growing(s, lists, p0, q, o) && Swallowed(old(lists), lists, q, o)
        modifies this`nrFree, this`lists, Links()`prev, Links()`next
      {
        var merged, grown := TakeBuddy(p0, q, o, past, old(lists));
        if !merged {
          break;
        }
        o, q := o + 1, grown;
      }
      if o >= MAX_ORDER - 1 {
        GrowTop(s, lists, p0, q, o);
      }
      head, order := q, o;
      Relist(p0, q, o, old(lists));
    }

    /** Set the flags and count of a page that heads a block in use; nothing else moves. */
    method SetUpPage(p: nat, pg: Page, reserve: bool, count: int)
      requires Valid() && p in held && p < |pages| && pages[p] == pg
      modifies pg`order, pg`isReserved, pg`count
      ensures Valid() && Tags() == old(Tags())
      ensures pg.count == count && pg.isReserved == (reserve || old(pg.isReserved))
    {
      hide Consistent, Listing;
      HeldUntagged(Snap(), p);
      OtherPages(p);
      pg.order := 0;
      if reserve {
        pg.isReserved := true;
      }
      pg.count := count;
      assert Tags() == old(Tags());
    }

    // ----- taking blocks out -----

    /** `list_add_tail` and `set_page_order` of the page that heads a block. */
    method LinkAndTag(pg: Page, q: nat, order: nat)
      requires WellFormed() && q < |pages| && pages[q] == pg && order < MAX_ORDER && Unlisted(q)
      modifies this`nrFree, this`lists, Links()`prev, Links()`next, pg`hasPrivate, pg`order
      ensures WellFormed()
      ensures lists == old(lists)[order := old(lists)[order] + [q]]
      ensures Tags() == old(Tags())[q := order]
    {
      hide WellFormed;
      LinkBack(q, order);
      SetPageOrder(pg, q, order);
    }

    /** `list_del` of a block's head and the clearing of its PG_private. */
    method UnlinkAndClear(pg: Page, b: nat, o: nat)
      requires WellFormed() && b < |pages| && pages[b] == pg && o < MAX_ORDER && b in lists[o]
      modifies this`nrFree, this`lists, Links()`prev, Links()`next, pg`hasPrivate
      ensures WellFormed() && lists == old(lists)[o := Except(old(lists[o]), {b})]
      ensures forall x :: x in lists[o] <==> x in old(lists[o]) && x != b
      ensures Tags() == old(Tags()) - {b}
    {
      hide WellFormed;
      Unlink(b, o);
      ClearPagePrivate(pg, b);
    }

    lemma HalfSize(h: nat)
      requires h > 0
      ensures Pow2(h) / 2 == Pow2(h - 1)
    {
    }

    /** Put the upper half of the block in use at b on the list of order h, at the end. */
    method AddUpperHalf(b: nat, h: nat, size: nat)
      requires Valid() && b in held && held[b] == h + 1 && size == Pow2(h)
      requires Usable(Block(b, h + 1))
      modifies this`nrFree, this`lists, this`free, this`held, Links()`prev, Links()`next, pages`hasPrivate, pages`order
      ensures Valid() && Usable(Block(b, h))
      ensures free == old(free) + Block(b + Pow2(h), h) && held == old(held)[b := h]
      ensures |old(lists)| == MAX_ORDER > h && lists == old(lists)[h := old(lists)[h] + [b + size]]
    {
      hide Consistent, Listing, WellFormed, Block;
      ghost var t := Split(Snap(), b, h);
      ListCount();
      SplitStep(Snap(), lists, b, h);
      SplitBlock(b, h);
      LinkAndTag(pages[b + size], b + size, h);
      Record(t);
    }

    /** Split the block in use at pg from order `high` down to order `low`. */
    method Expand(pg: nat, low: nat, high: nat)
      requires Valid() && pg in held && held[pg] == high && low <= high
      requires Usable(Block(pg, high))
      modifies this`nrFree, this`lists, this`free, this`held, Links()`prev, Links()`next, pages`hasPrivate, pages`order
      ensures Valid() && Usable(Block(pg, low))
      ensures free == old(free) + (Block(pg, high) - Block(pg, low))
      ensures held == old(held)[pg := low]
      ensures Block(pg, low) <= Block(pg, high)
      ensures |lists| == |old(lists)| == MAX_ORDER
      ensures forall k: nat :: k < MAX_ORDER ==>
                lists[k] == old(lists)[k] + if low <= k < high then [pg + Pow2(k)] else []
    {
      hide Consistent, Listing, WellFormed, Block, Valid, Usable, Pow2;
      var h, size := high, Pow2(high);
      ValidParts();
      while h > low
        invariant low <= h <= high && size == Pow2(h)
        invariant Valid() && Usable(Block(pg, h)) && Block(pg, h) <= Block(pg, high)
        invariant free == old(free) + (Block(pg, high) - Block(pg, h))
        invariant held == old(held)[pg := h]
        invariant |lists| == |old(lists)| == MAX_ORDER
        invariant forall k: nat :: k < MAX_ORDER ==>
                    lists[k] == old(lists)[k] + if h <= k < high then [pg + Pow2(k)] else []
      {
        HalfSize(h);
        h, size := h - 1, size / 2;
        SplitBlock(pg, h);
        AddUpperHalf(pg, h, size);
      }
    }

    /** Take the first block off the list of order o, clearing its PG_private. */
    method TakeFirst(o: nat) returns (b: nat)
      requires Valid() && o < MAX_ORDER && lists[o] != []
      modifies this`nrFree, this`lists, this`free, this`held, Links()`prev, Links()`next, pages`hasPrivate, pages`order
      ensures Valid() && Usable(Block(b, o))
      ensures Aligned(b, o) && Block(b, o) <= old(free) && b !in old(held) && b == old(lists[o])[0]
      ensures free == old(free) - Block(b, o) && held == old(held)[b := o]
      ensures |old(lists)| == MAX_ORDER && lists == old(lists)[o := old(lists[o])[1..]]
    {
      hide Consistent, Listing, Block, WellFormed, Except, Usable;
      b := First(o);
      WithoutFirst(o);
      ghost var s := Snap();
      ghost var before := lists;
      UnlinkAndClear(pages[b], b, o);
      TakeStep(s, before, lists, b, o);
      UsablePart(free, Block(b, o));
      UsablePart(free, free - Block(b, o));
      Record(Taken(s, b, o));
    }

    /** Allocate a block of the given order, splitting the smallest block that is large enough. */
    method RmQueue(order: nat) returns (r: Option<nat>, ghost found: nat)
      requires Valid()
      modifies this`nrFree, this`lists, this`free, this`held, Links()`prev, Links()`next, pages`hasPrivate, pages`order
      ensures Valid()
      ensures r.None? ==> free == old(free) && held == old(held)
      ensures r.None? <==> order >= MAX_ORDER || forall b: nat :: Aligned(b, order) ==> !Whole(old(free), b, order)
      ensures r.Some? ==>
                && order < MAX_ORDER && Aligned(r.value, order)
                && Block(r.value, order) <= old(free) && Usable(Block(r.value, order))
                && free == old(free) - Block(r.value, order)
                && r.value !in old(held) && held == old(held)[r.value := order]
      ensures r.Some? ==>
                && order <= found < MAX_ORDER && |old(lists)| == MAX_ORDER && old(lists[found]) != []
                && r.value == old(lists[found])[0]
                && forall p :: order <= p < found ==> old(lists[p]) == []
      ensures r.None? ==> lists == old(lists)
      ensures r.Some? ==>
                && |lists| == MAX_ORDER
                && forall k: nat :: k < MAX_ORDER ==>
                     lists[k] == (if k == found then old(lists[k])[1..]
                                  else if order <= k < found then [r.value + Pow2(k)] else old(lists[k]))
    {
      hide Consistent, Block, WellFormed, Listing, Whole, Valid, Usable;
      var o := order;
      ValidParts();
      while o < MAX_ORDER
        invariant |heads| == |lists| == MAX_ORDER && WellFormed()
        invariant order <= o && Valid() && free == old(free) && held == old(held) && lists == old(lists)
        invariant forall p :: order <= p < o && p < MAX_ORDER ==> lists[p] == []
      {
        EmptyExact(o);
        if !ListEmpty(heads[o]) {
          var b := TakeFirst(o);
          BlockPrefix(old(free), b, order, o);
          Expand(b, order, o);
          return Some(b), o;
        }
        o := o + 1;
      }
      ValidParts();
      NothingFits(lists, free, order);
      return None, o;
    }
  }
}
