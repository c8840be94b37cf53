/** Boot-time hand-over of memory to the buddy allocator: the page array is divided among
    the zones, and every page the kernel does not occupy is given back once. */
module MemInit {
  import opened Bits
  import opened Blocks
  import opened BuddyTheory
  import opened Lists
  import opened PageLists
  import opened PageAlloc
  import BuddyResults

  const MAX_NR_ZONES: nat := 3

  /** Pages the boot loop keeps: those below the end of the kernel image, and those from just
      above 16 MiB to the end of the page tables and page descriptors. */
  predicate Kept(i: nat, kernelEnd: nat, descriptorEnd: nat)
  {
    (i <= descriptorEnd && i > 0x01000000 / 4096) || i < kernelEnd
  }

  /** The condition on which the boot loop gives a page below `limit` of the page array back, and the
      one on which it reserves it. */
  lemma KeptExactly(i: nat, limit: nat, kernelEnd: nat, descriptorEnd: nat)
    ensures i < limit && !Kept(i, kernelEnd, descriptorEnd)
            <==> kernelEnd <= i < limit && (i <= 4096 || descriptorEnd < i)
    ensures i < limit && Kept(i, kernelEnd, descriptorEnd)
            <==> i < limit && (i < kernelEnd || 4096 < i <= descriptorEnd)
  {
  }

  /** The boot tables and page descriptors start at page 4096 (16 MiB). The strict comparison
      leaves out the first of their pages, so all are kept exactly if the kernel image reaches
      beyond that page. */
  lemma KeptTables(kernelEnd: nat, descriptorEnd: nat)
    requires 4096 <= descriptorEnd
    ensures (forall i :: 4096 <= i <= descriptorEnd ==> Kept(i, kernelEnd, descriptorEnd)) <==> kernelEnd > 4096
  {
    assert Kept(4096, kernelEnd, descriptorEnd) <==> kernelEnd > 4096;
  }

  /** Where zone k starts. */
  function Start(sizes: seq<nat>, k: nat): nat
    requires k <= |sizes|
  {
    if k == 0 then 0 else Start(sizes, k - 1) + sizes[k - 1]
  }

  /** A descriptor without a tag looks free to nobody. */
  lemma CleanQuiet(past: Page, n: nat)
    requires !past.hasPrivate
    ensures QuietAt(past, n)
  {
  }

  /** Every page below the end of the first n zones is in one of them. */
  lemma ZoneOf(sizes: seq<nat>, i: nat, n: nat) returns (k: nat)
    requires n <= |sizes| && i < Start(sizes, n)
    ensures k < n && Start(sizes, k) <= i < Start(sizes, k + 1)
  {
    if i >= Start(sizes, n - 1) {
      k := n - 1;
    } else {
      k := ZoneOf(sizes, i, n - 1);
    }
  }

  lemma StartMonotone(sizes: seq<nat>, j: nat, k: nat)
    requires j <= k <= |sizes|
    ensures Start(sizes, j) <= Start(sizes, k)
  {
  }

  /** A page behind zone k is in a later zone. */
  lemma ZoneAfter(sizes: seq<nat>, k: nat, i: nat, n: nat) returns (j: nat)
    requires k < n <= |sizes| && Start(sizes, k + 1) <= i < Start(sizes, n)
    ensures k < j < n && Start(sizes, j) <= i < Start(sizes, j + 1)
  {
    j := ZoneOf(sizes, i, n);
    if j <= k {
      StartMonotone(sizes, j + 1, k + 1);
    }
  }

  class Node {
    const memMap: seq<Page>
    const zones: seq<Zone>

    constructor (memMap: seq<Page>, zones: seq<Zone>)
      ensures this.memMap == memMap && this.zones == zones
    {
      this.memMap, this.zones := memMap, zones;
    }

    /** Zones are distinct objects, with list heads of their own. */
    ghost predicate OwnHeads()
    {
      && |zones| == MAX_NR_ZONES
      && (forall k :: 0 <= k < |zones| ==> |zones[k].heads| == MAX_ORDER)
      && (forall k, o :: 0 <= k < |zones| && 0 <= o < MAX_ORDER ==> zones[k].heads[o].entry == -1 - o)
      && (forall j, k :: 0 <= j < k < |zones| ==> zones[j] != zones[k])
      && (forall j, k, h :: 0 <= j < k < |zones| && h in zones[j].heads ==> h !in zones[k].heads)
      && (forall i :: 0 <= i < |memMap| ==> memMap[i].lru.entry == i)
    }

    /** Zone k is the slice [start, start + size) of the page array. */
    ghost predicate Spans(k: nat, start: nat, size: nat)
      requires k < |zones|
      reads zones`base, zones`pages
    {
      start + size <= |memMap| && zones[k].base == start && zones[k].pages == memMap[start..start + size]
    }

    /** The slices follow one another. */
    ghost predicate Laid(sizes: seq<nat>)
      reads zones`base, zones`pages
    {
      && OwnHeads()
      && |sizes| == |zones|
      && Start(sizes, MAX_NR_ZONES) == |memMap|
      && forall k :: 0 <= k < |zones| ==> Spans(k, Start(sizes, k), sizes[k])
    }

    /** A page descriptor as the boot code leaves it before anything is given back. */
    ghost predicate Clean(i: nat)
      requires i < |memMap|
      reads memMap[i]
    {
      !memMap[i].hasPrivate && !memMap[i].isReserved && memMap[i].order == 0 && memMap[i].count == 0
    }

    ghost predicate Tagged(sizes: seq<nat>, k: nat)
      requires |sizes| == MAX_NR_ZONES && k < MAX_NR_ZONES
      reads memMap
    {
      forall i :: Start(sizes, k) <= i < Start(sizes, k + 1) && i < |memMap| ==> Clean(i) && memMap[i].zoneId == k
    }

    /** Zero the descriptors of zone k's slice and set their zone. */
    method TagSlice(sizes: seq<nat>, k: nat, limit: nat) returns (count: nat)
      requires OwnHeads() && k < MAX_NR_ZONES == |sizes| && limit == Start(sizes, k + 1) <= |memMap|
      modifies memMap
      ensures count == limit
      ensures Tagged(sizes, k)
      ensures forall j :: 0 <= j < k && old(Tagged(sizes, j)) ==> Tagged(sizes, j)
    {
      DistinctPages();
      count := Start(sizes, k);
      while count < limit
        invariant Start(sizes, k) <= count <= limit
        invariant forall i :: Start(sizes, k) <= i < count ==> Clean(i) && memMap[i].zoneId == k
        invariant forall i :: 0 <= i < Start(sizes, k) ==> unchanged(memMap[i])
      {
        var pg := memMap[count];
        pg.hasPrivate, pg.isReserved, pg.order, pg.count := false, false, 0, 0;
        pg.zoneId := k;
        count := count + 1;
      }
      forall j | 0 <= j < k && old(Tagged(sizes, j))
        ensures Tagged(sizes, j)
      {
        StartMonotone(sizes, j + 1, k);
      }
    }

    /** Make zone k the slice that starts at `base`. */
    method PlaceZone(sizes: seq<nat>, k: nat, base: nat)
      requires OwnHeads() && k < MAX_NR_ZONES == |sizes| && base == Start(sizes, k) && base + sizes[k] <= |memMap|
      modifies zones`base, zones`pages
      ensures forall j :: 0 <= j < k && old(Spans(j, Start(sizes, j), sizes[j])) ==> Spans(j, Start(sizes, j), sizes[j])
      ensures Spans(k, base, sizes[k])
    {
      zones[k].base := base;
      zones[k].pages := memMap[base..base + sizes[k]];
    }

    /** Zero the descriptors, set each one's zone, and make each zone a slice of the array. */
    method DivideAmongZones(sizes: seq<nat>)
      requires OwnHeads() && |sizes| == MAX_NR_ZONES && Start(sizes, MAX_NR_ZONES) == |memMap|
      modifies zones`base, zones`pages, memMap
      ensures Laid(sizes)
      ensures forall k :: 0 <= k < MAX_NR_ZONES ==> Tagged(sizes, k)
    {
      hide Tagged, Spans;
      var count, limit := 0, 0;
      for k := 0 to MAX_NR_ZONES
        invariant count == limit == Start(sizes, k) <= |memMap|
        invariant forall j :: 0 <= j < k ==> Spans(j, Start(sizes, j), sizes[j])
        invariant forall j :: 0 <= j < k ==> Tagged(sizes, j)
      {
        StartMonotone(sizes, k + 1, MAX_NR_ZONES);
        PlaceZone(sizes, k, count);
        limit := limit + sizes[k];
        count := TagSlice(sizes, k, limit);
      }
    }

    lemma DistinctPages()
      requires OwnHeads()
      ensures forall i, j :: 0 <= i < j < |memMap| ==> memMap[i] != memMap[j]
    {
      forall i, j | 0 <= i < j < |memMap|
        ensures memMap[i] != memMap[j]
      {
        assert memMap[i].lru.entry != memMap[j].lru.entry;
      }
    }

    /** Two zones share neither list nodes nor pages. */
    lemma ZonesApart(sizes: seq<nat>, j: nat, k: nat)
      requires Laid(sizes) && j < MAX_NR_ZONES && k < MAX_NR_ZONES && j != k
      ensures zones[j].Links() !! zones[k].Links()
      ensures forall p :: p in zones[j].pages ==> p !in zones[k].pages
    {
      LinkEntries(sizes, j);
      LinkEntries(sizes, k);
      StartMonotone(sizes, if j < k then j + 1 else k + 1, if j < k then k else j);
    }

    /** The entry of a list node tells a list head from a page, and which slice the page is in. */
    lemma LinkEntries(sizes: seq<nat>, k: nat)
      requires Laid(sizes) && k < MAX_NR_ZONES
      ensures forall p :: p in zones[k].pages ==> Start(sizes, k) <= p.lru.entry < Start(sizes, k + 1)
      ensures forall n :: n in zones[k].Links() ==>
                (n in zones[k].heads && n.entry < 0) || Start(sizes, k) <= n.entry < Start(sizes, k + 1)
    {
      assert Spans(k, Start(sizes, k), sizes[k]);
      forall i | 0 <= i < sizes[k]
        ensures zones[k].pages[i].lru.entry == Start(sizes, k) + i
      {
        assert zones[k].pages[i] == memMap[Start(sizes, k) + i];
      }
    }

    /** The list nodes of all zones and all pages. */
    ghost function Nodes(): set<ListHead>
    {
      (set k, h | 0 <= k < |zones| && h in zones[k].heads :: h) + (set p | p in memMap :: p.lru)
    }

    lemma OthersApart(sizes: seq<nat>, k: nat) returns (others: set<Zone>)
      requires Laid(sizes) && k < MAX_NR_ZONES
      ensures forall j :: 0 <= j < MAX_NR_ZONES && j != k ==> zones[j] in others
      ensures forall y :: y in others ==> ApartFrom(y, zones[k])
      ensures zones[k].Links() <= Nodes() && forall p :: p in zones[k].pages ==> p in memMap
      ensures zones[k].base == Start(sizes, k) && |zones[k].pages| == sizes[k]
    {
      others := set j | 0 <= j < MAX_NR_ZONES && j != k :: zones[j];
      forall j | 0 <= j < MAX_NR_ZONES && j != k
        ensures zones[j] in others && ApartFrom(zones[j], zones[k])
      {
        ZonesApart(sizes, j, k);
      }
      assert Spans(k, Start(sizes, k), sizes[k]);
    }

    /** A zone just laid out over clean pages. */
    lemma LaidUntouched(sizes: seq<nat>, k: nat)
      requires Laid(sizes) && k < MAX_NR_ZONES && Tagged(sizes, k)
      requires zones[k].ListsEmpty()
      ensures Untouched(zones[k], zones)
    {
      assert Spans(k, Start(sizes, k), sizes[k]);
      forall i | 0 <= i < sizes[k]
        ensures zones[k].pages[i] == memMap[Start(sizes, k) + i]
      {
      }
    }

    /** What one zone holds after booting. */
    ghost predicate Booted(sizes: seq<nat>, k: nat, maxPfn: nat, kernelEnd: nat, descriptorEnd: nat)
      requires |sizes| == |zones| && k < |zones|
      reads zones[k], zones[k].Links(), zones[k].pages
    {
      && zones[k].Valid()
      && zones[k].free == GivenBackSet(sizes[k], Start(sizes, k), maxPfn, kernelEnd, descriptorEnd)
      && zones[k].held == Singles(sizes[k]) - zones[k].free
      && zones[k].base == Start(sizes, k) && |zones[k].pages| == sizes[k]
      && Settled(zones[k], maxPfn, kernelEnd, descriptorEnd)
      && Descending(zones[k].lists)
      && (forall p :: p in zones[k].pages ==> p.zoneId == k)
    }

    /** Boot zone k; the zones booted before stay booted, the others stay untouched. */
    method BootKth(sizes: seq<nat>, k: nat, maxPfn: nat, kernelEnd: nat, descriptorEnd: nat, past: Page)
      requires |zones| == MAX_NR_ZONES == |sizes| && k < MAX_NR_ZONES && OwnHeads() && Laid(sizes)
      requires past !in zones[k].pages && (|zones[k].pages| > 0 ==> QuietAt(past, |zones[k].pages|))
      requires forall j :: 0 <= j < k ==> Booted(sizes, j, maxPfn, kernelEnd, descriptorEnd)
      requires forall j :: k <= j < MAX_NR_ZONES ==> Untouched(zones[j], zones)
      modifies zones`nrFree, zones`lists, zones`free, zones`held, Nodes()`prev, Nodes()`next, memMap
      ensures forall j :: 0 <= j <= k ==> Booted(sizes, j, maxPfn, kernelEnd, descriptorEnd)
      ensures forall j :: k < j < MAX_NR_ZONES ==> Untouched(zones[j], zones)
    {
      hide Consistent, Listing, Zone.Usable, GivenBackSet, Zone.Valid, ApartFrom, Untouched, Booted, Settled;
      hide Descending;
      ghost var others := OthersApart(sizes, k);
      assert zones[k] in zones;
      OwnZone(k);
      BootZone(zones[k], zones, maxPfn, kernelEnd, descriptorEnd, past, others);
      BootedBy(sizes, k, maxPfn, kernelEnd, descriptorEnd);
    }

    lemma BootedBy(sizes: seq<nat>, k: nat, maxPfn: nat, kernelEnd: nat, descriptorEnd: nat)
      requires |sizes| == |zones| && k < |zones| && zones[k].Valid()
      requires zones[k].base == Start(sizes, k) && |zones[k].pages| == sizes[k]
      requires zones[k].free == GivenBackSet(sizes[k], Start(sizes, k), maxPfn, kernelEnd, descriptorEnd)
      requires zones[k].held == Singles(sizes[k]) - zones[k].free && Settled(zones[k], maxPfn, kernelEnd, descriptorEnd)
      requires Descending(zones[k].lists) && forall p :: p in zones[k].pages ==> p.zoneId == k
      ensures Booted(sizes, k, maxPfn, kernelEnd, descriptorEnd)
    {
      hide Zone.Valid, Settled, Singles, GivenBackSet, Descending;
    }

    /** What lies in memory behind the last page descriptor does not matter to the zone that ends
        there. */
    ghost predicate Covers(sizes: seq<nat>, beyond: Page)
      requires |sizes| == MAX_NR_ZONES
      reads beyond
    {
      && beyond !in memMap
      && forall k :: 0 <= k < MAX_NR_ZONES && sizes[k] > 0 && Start(sizes, k + 1) == |memMap| ==>
           QuietAt(beyond, sizes[k])
    }

    /** The descriptor behind zone k's last one: the next one in the array, or what lies behind it. */
    function PastOf(sizes: seq<nat>, k: nat, beyond: Page): Page
      requires k < |sizes|
    {
      if Start(sizes, k + 1) < |memMap| then memMap[Start(sizes, k + 1)] else beyond
    }

    /** While zone k is booted, the descriptors behind it are still clean. */
    lemma PastQuiet(sizes: seq<nat>, k: nat, beyond: Page)
      requires Laid(sizes) && k < MAX_NR_ZONES && Covers(sizes, beyond)
      requires forall j :: k <= j < MAX_NR_ZONES ==> Untouched(zones[j], zones)
      ensures var past := PastOf(sizes, k, beyond);
              past !in zones[k].pages && (sizes[k] > 0 ==> QuietAt(past, sizes[k]))
    {
      hide Untouched;
      StartMonotone(sizes, k + 1, MAX_NR_ZONES);
      PagesOf(sizes, k);
      if Start(sizes, k + 1) < |memMap| {
        NextClean(sizes, k);
        CleanQuiet(memMap[Start(sizes, k + 1)], sizes[k]);
      }
    }

    lemma PagesOf(sizes: seq<nat>, k: nat)
      requires Laid(sizes) && k < MAX_NR_ZONES
      ensures |zones[k].pages| == sizes[k] && forall p :: p in zones[k].pages ==> p in memMap
    {
      assert Spans(k, Start(sizes, k), sizes[k]);
    }

    lemma NextClean(sizes: seq<nat>, k: nat)
      requires Laid(sizes) && k < MAX_NR_ZONES && Start(sizes, k + 1) < |memMap|
      requires forall j :: k <= j < MAX_NR_ZONES ==> Untouched(zones[j], zones)
      ensures !memMap[Start(sizes, k + 1)].hasPrivate && memMap[Start(sizes, k + 1)] !in zones[k].pages
    {
      hide Untouched, Spans;
      var end := Start(sizes, k + 1);
      var j := ZoneAfter(sizes, k, end, MAX_NR_ZONES);
      PageAt(sizes, j, end);
      UntouchedClean(zones[j], zones, end - Start(sizes, j));
      ZonesApart(sizes, j, k);
    }

    lemma PageAt(sizes: seq<nat>, k: nat, i: nat)
      requires Laid(sizes) && k < MAX_NR_ZONES && Start(sizes, k) <= i < Start(sizes, k + 1)
      ensures i < |memMap| && i - Start(sizes, k) < |zones[k].pages| && zones[k].pages[i - Start(sizes, k)] == memMap[i]
    {
      assert Spans(k, Start(sizes, k), sizes[k]);
    }

    /** A page that names zone k's zone names it by its index. */
    lemma OwnZone(k: nat)
      requires OwnHeads() && k < MAX_NR_ZONES && Untouched(zones[k], zones)
      ensures forall p :: p in zones[k].pages ==> p.zoneId == k
    {
    }

    /** The zones laid out, with nothing given back yet. */
    method LayOut(sizes: seq<nat>)
      requires OwnHeads() && |sizes| == MAX_NR_ZONES && Start(sizes, MAX_NR_ZONES) == |memMap|
      requires forall k :: 0 <= k < MAX_NR_ZONES ==> zones[k].ListsEmpty()
      modifies zones`base, zones`pages, memMap
      ensures Laid(sizes) && forall k :: 0 <= k < MAX_NR_ZONES ==> Untouched(zones[k], zones)
    {
      DivideAmongZones(sizes);
      forall k | 0 <= k < MAX_NR_ZONES
        ensures Untouched(zones[k], zones)
      {
        LaidUntouched(sizes, k);
      }
    }

    /** The boot loop over all pages, zone by zone. */
    method BootZones(sizes: seq<nat>, maxPfn: nat, kernelEnd: nat, descriptorEnd: nat, beyond: Page)
      requires Laid(sizes) && maxPfn <= |memMap| && Covers(sizes, beyond)
      requires forall k :: 0 <= k < MAX_NR_ZONES ==> Untouched(zones[k], zones)
      modifies zones`nrFree, zones`lists, zones`free, zones`held, Nodes()`prev, Nodes()`next, memMap
      ensures forall k :: 0 <= k < MAX_NR_ZONES ==> Booted(sizes, k, maxPfn, kernelEnd, descriptorEnd)
    {
      hide Consistent, Listing, Zone.Usable, GivenBackSet, Settled, Booted, Untouched;
      for k := 0 to MAX_NR_ZONES
        invariant Laid(sizes)
        invariant forall j :: 0 <= j < k ==> Booted(sizes, j, maxPfn, kernelEnd, descriptorEnd)
        invariant forall j :: k <= j < MAX_NR_ZONES ==> Untouched(zones[j], zones)
        invariant Covers(sizes, beyond)
      {
        PastQuiet(sizes, k, beyond);
        PagesOf(sizes, k);
        BootKth(sizes, k, maxPfn, kernelEnd, descriptorEnd, PastOf(sizes, k, beyond));
      }
    }

    /** What becomes of page i of the page array when zone k, which it belongs to, is booted. */
    lemma PageBooted(sizes: seq<nat>, k: nat, i: nat, maxPfn: nat, kernelEnd: nat, descriptorEnd: nat)
      requires Laid(sizes) && k < MAX_NR_ZONES && Booted(sizes, k, maxPfn, kernelEnd, descriptorEnd)
      requires Start(sizes, k) <= i < Start(sizes, k + 1)
      ensures i < |memMap| && |zones[k].pages| == sizes[k] && zones[k].pages[i - Start(sizes, k)] == memMap[i]
      ensures i - Start(sizes, k) in zones[k].free
              <==> kernelEnd <= i < maxPfn && (i <= 4096 || descriptorEnd < i)
      ensures memMap[i].isReserved <==> i < maxPfn && (i < kernelEnd || 4096 < i <= descriptorEnd)
      ensures i - Start(sizes, k) in zones[k].held <==> i - Start(sizes, k) !in zones[k].free
    {
      hide Zone.Valid, Kept;
      assert Spans(k, Start(sizes, k), sizes[k]);
      var p := i - Start(sizes, k);
      KeptExactly(i, maxPfn, kernelEnd, descriptorEnd);
      assert GivenBack(p, Start(sizes, k), maxPfn, kernelEnd, descriptorEnd)
             <==> i < maxPfn && !Kept(i, kernelEnd, descriptorEnd);
      assert IsIndex(p, sizes[k]);
    }

    lemma AllPagesBooted(sizes: seq<nat>, maxPfn: nat, kernelEnd: nat, descriptorEnd: nat)
      requires Laid(sizes)
      requires forall k :: 0 <= k < MAX_NR_ZONES ==> Booted(sizes, k, maxPfn, kernelEnd, descriptorEnd)
      ensures forall k, p: nat :: 0 <= k < MAX_NR_ZONES && p < sizes[k] ==>
                (p in zones[k].free <==>
                 var i := Start(sizes, k) + p; kernelEnd <= i < maxPfn && (i <= 4096 || descriptorEnd < i))
      ensures forall i: nat :: i < |memMap| ==>
                (memMap[i].isReserved <==> i < maxPfn && (i < kernelEnd || 4096 < i <= descriptorEnd))
    {
      hide Booted;
      forall k: nat, p: nat | k < MAX_NR_ZONES && p < sizes[k]
        ensures p in zones[k].free <==>
                var i := Start(sizes, k) + p; kernelEnd <= i < maxPfn && (i <= 4096 || descriptorEnd < i)
      {
        PageBooted(sizes, k, Start(sizes, k) + p, maxPfn, kernelEnd, descriptorEnd);
      }
      forall i: nat | i < |memMap|
        ensures memMap[i].isReserved <==> i < maxPfn && (i < kernelEnd || 4096 < i <= descriptorEnd)
      {
        var k := ZoneOf(sizes, i, MAX_NR_ZONES);
        PageBooted(sizes, k, i, maxPfn, kernelEnd, descriptorEnd);
      }
    }

    /** `node_alloc_mem_map`: divide the page array among the zones, then give every page the
        kernel does not keep back to its zone. */
    method AllocMemMap(sizes: seq<nat>, maxPfn: nat, kernelEnd: nat, descriptorEnd: nat, beyond: Page)
      requires OwnHeads() && |sizes| == MAX_NR_ZONES && Start(sizes, MAX_NR_ZONES) == |memMap|
      requires maxPfn <= |memMap| && Covers(sizes, beyond)
      requires forall k :: 0 <= k < MAX_NR_ZONES ==> zones[k].ListsEmpty()
      modifies zones, Nodes()`prev, Nodes()`next, memMap
      ensures Laid(sizes)
      ensures forall k :: 0 <= k < MAX_NR_ZONES ==> Booted(sizes, k, maxPfn, kernelEnd, descriptorEnd)
      ensures forall k, p: nat :: 0 <= k < MAX_NR_ZONES && p < sizes[k] ==>
                (p in zones[k].free <==>
                 var i := Start(sizes, k) + p; kernelEnd <= i < maxPfn && (i <= 4096 || descriptorEnd < i))
      ensures forall i: nat :: i < |memMap| ==>
                (memMap[i].isReserved <==> i < maxPfn && (i < kernelEnd || 4096 < i <= descriptorEnd))
    {
      hide Booted, Untouched;
      LayOut(sizes);
      BootZones(sizes, maxPfn, kernelEnd, descriptorEnd, beyond);
      AllPagesBooted(sizes, maxPfn, kernelEnd, descriptorEnd);
    }
  }

  lemma BlockOfOne(p: nat)
    ensures Block(p, 0) == {p}
  {
    assert forall z: nat :: InRange(z, p, 0) <==> z == p;
  }

  /** The pages of a zone, counted from its base, that the boot loop has given back once it
      has passed index `limit` of the page array. */
  predicate GivenBack(p: nat, base: nat, limit: nat, kernelEnd: nat, descriptorEnd: nat)
  {
    base + p < limit && !Kept(base + p, kernelEnd, descriptorEnd)
  }

  function GivenBackSet(n: nat, base: nat, limit: nat, kernelEnd: nat, descriptorEnd: nat): set<nat>
  {
    set p: nat | p < n && GivenBack(p, base, limit, kernelEnd, descriptorEnd)
  }

  lemma GivenBackStep(n: nat, base: nat, p: nat, kernelEnd: nat, descriptorEnd: nat)
    requires p < n
    ensures var before := GivenBackSet(n, base, base + p, kernelEnd, descriptorEnd);
            var more := if Kept(base + p, kernelEnd, descriptorEnd) then {} else {p};
            && GivenBackSet(n, base, base + p + 1, kernelEnd, descriptorEnd) == before + more
            && Singles(n) - (before + more) == Singles(n) - before - more
            && p in Singles(n) - before && (Singles(n) - before)[p] == 0
  {
    var limit := base + p;
    var next := limit + 1;
    assert forall q: nat :: GivenBack(q, base, next, kernelEnd, descriptorEnd) <==>
                            GivenBack(q, base, limit, kernelEnd, descriptorEnd)
                            || (q == p && !Kept(limit, kernelEnd, descriptorEnd));
    assert IsIndex(p, n);
  }

  lemma GivenBackBelow(n: nat, base: nat, limit: nat, kernelEnd: nat, descriptorEnd: nat)
    ensures forall x :: x in GivenBackSet(n, base, limit, kernelEnd, descriptorEnd) ==> x < limit - base
  {
  }

  lemma GivenBackNone(n: nat, base: nat, kernelEnd: nat, descriptorEnd: nat)
    ensures GivenBackSet(n, base, base, kernelEnd, descriptorEnd) == {} && Singles(n) - {} == Singles(n)
  {
  }

  lemma GivenBackAll(n: nat, base: nat, i: nat, maxPfn: nat, kernelEnd: nat, descriptorEnd: nat)
    requires base <= i <= base + n && (i <= maxPfn || i == base) && (i == base + n || i >= maxPfn)
    ensures GivenBackSet(n, base, i, kernelEnd, descriptorEnd)
            == GivenBackSet(n, base, maxPfn, kernelEnd, descriptorEnd)
  {
    assert forall p: nat :: p < n ==>
      (GivenBack(p, base, i, kernelEnd, descriptorEnd) <==> GivenBack(p, base, maxPfn, kernelEnd, descriptorEnd));
  }

  /** Of the zone's pages below index `limit` of the page array exactly the kept ones are reserved,
      and none beyond. */
  ghost predicate Settled(z: Zone, limit: nat, kernelEnd: nat, descriptorEnd: nat)
    reads z`pages, z`base, z.pages`isReserved
  {
    forall p :: 0 <= p < |z.pages| ==>
      (z.pages[p].isReserved <==> z.base + p < limit && Kept(z.base + p, kernelEnd, descriptorEnd))
  }

  /** The body of the boot loop for page p of zone z. */
  method SettlePage(z: Zone, zones: seq<Zone>, p: nat, keep: bool, past: Page)
    requires QuietAt(past, |z.pages|) && past !in z.pages
    requires z.Valid() && p < |z.pages| && p in z.held && z.held[p] == 0
    requires forall pg :: pg in z.pages ==> pg.zoneId < |zones| && zones[pg.zoneId] == z
    requires !z.pages[p].isReserved && Descending(z.lists) && forall x :: x in z.free ==> x < p
    modifies z`nrFree, z`lists, z`free, z`held, z.Links()`prev, z.Links()`next
    modifies z.pages`hasPrivate, z.pages`order, z.pages[p..p + 1]`isReserved, z.pages[p..p + 1]`count
    ensures z.Valid() && z.pages[p].isReserved == keep
    ensures z.free == old(z.free) + if keep then {} else {p}
    ensures z.held == old(z.held) - if keep then {} else {p}
    ensures Descending(z.lists)
  {
    hide Consistent, Listing, Block, Descending, Except;
    z.ValidParts();
    var pg := z.pages[p];
    assert pg in z.pages && pg in z.pages[p..p + 1];
    z.SetUpPage(p, pg, keep, if keep then 0 else -1);
    if !keep {
      BlockOfOne(p);
      z.EntryOf(p);
      var zone := zones[pg.zoneId];
      ghost var before, free := z.lists, z.free;
      ghost var head, order := zone.FreePages(pg.lru.entry - zone.base, 0, past);
      DescendingStep(before, z.lists, free, p, head, order);
    }
  }

  /** One pass of the boot loop, at index i of the page array. */
  method SettleNext(z: Zone, zones: seq<Zone>, i: nat, kernelEnd: nat, descriptorEnd: nat, past: Page)
    requires QuietAt(past, |z.pages|) && past !in z.pages
    requires z.base <= i < z.base + |z.pages| && z.Valid()
    requires z.free == GivenBackSet(|z.pages|, z.base, i, kernelEnd, descriptorEnd)
    requires z.held == Singles(|z.pages|) - z.free && Descending(z.lists)
    requires forall pg :: pg in z.pages ==> pg.zoneId < |zones| && zones[pg.zoneId] == z
    requires Settled(z, i, kernelEnd, descriptorEnd)
    modifies z`nrFree, z`lists, z`free, z`held, z.Links()`prev, z.Links()`next
    modifies z.pages`hasPrivate, z.pages`order, z.pages`isReserved, z.pages`count
    ensures z.Valid()
    ensures z.free == GivenBackSet(|z.pages|, z.base, i + 1, kernelEnd, descriptorEnd)
    ensures z.held == Singles(|z.pages|) - z.free && Descending(z.lists)
    ensures Settled(z, i + 1, kernelEnd, descriptorEnd)
  {
    hide Consistent, Listing, Zone.WellFormed, GivenBackSet, Singles, Kept, Descending;
    GivenBackBelow(|z.pages|, z.base, i, kernelEnd, descriptorEnd);
    var p := i - z.base;
    var keep := Kept(i, kernelEnd, descriptorEnd);
    ghost var n, base := |z.pages|, z.base;
    GivenBackStep(n, base, p, kernelEnd, descriptorEnd);
    z.OtherPages(p);
    assert z.pages[p..p + 1] == [z.pages[p]];
    assert forall q :: 0 <= q < |z.pages| && q != p ==> z.pages[q] !in z.pages[p..p + 1];
    SettlePage(z, zones, p, keep, past);
    assert |z.pages| == n && z.base == base;
    assert z.free == GivenBackSet(n, base, i + 1, kernelEnd, descriptorEnd);
    assert z.held == Singles(n) - z.free;
  }

  /** The boot loop over the pages of one zone. */
  method FreeZonePages(z: Zone, zones: seq<Zone>, maxPfn: nat, kernelEnd: nat, descriptorEnd: nat, past: Page)
    requires past !in z.pages && (|z.pages| > 0 ==> QuietAt(past, |z.pages|))
    requires z.Valid() && z.free == {} && z.held == Singles(|z.pages|) && Descending(z.lists)
    requires forall p :: p in z.pages ==> p.zoneId < |zones| && zones[p.zoneId] == z && !p.isReserved
    modifies z`nrFree, z`lists, z`free, z`held, z.Links()`prev, z.Links()`next
    modifies z.pages`hasPrivate, z.pages`order, z.pages`isReserved, z.pages`count
    ensures z.Valid()
    ensures z.free == GivenBackSet(|z.pages|, z.base, maxPfn, kernelEnd, descriptorEnd)
    ensures z.held == Singles(|z.pages|) - z.free && Descending(z.lists)
    ensures Settled(z, maxPfn, kernelEnd, descriptorEnd)
  {
    hide Consistent, Listing, Zone.WellFormed, GivenBackSet, Singles, Zone.Valid, Kept, Descending;
    GivenBackNone(|z.pages|, z.base, kernelEnd, descriptorEnd);
    var i := z.base;
    while i < z.base + |z.pages| && i < maxPfn
      invariant z.base <= i <= z.base + |z.pages| && (i <= maxPfn || i == z.base)
      invariant z.Valid()
      invariant z.free == GivenBackSet(|z.pages|, z.base, i, kernelEnd, descriptorEnd)
      invariant z.held == Singles(|z.pages|) - z.free && Descending(z.lists)
      invariant Settled(z, i, kernelEnd, descriptorEnd)
      invariant |z.pages| > 0 ==> QuietAt(past, |z.pages|)
    {
      SettleNext(z, zones, i, kernelEnd, descriptorEnd, past);
      i := i + 1;
    }
    GivenBackAll(|z.pages|, z.base, i, maxPfn, kernelEnd, descriptorEnd);
  }

  ghost predicate ApartFrom(y: Zone, z: Zone)
    reads y`pages, z`pages
  {
    y != z && y.Links() !! z.Links() && forall p :: p in y.pages ==> p !in z.pages
  }

  /** A zone that has its pages but has been given none of them. */
  ghost predicate Untouched(z: Zone, zones: seq<Zone>)
    reads z`nrFree, z`lists, z`pages, z`base, z.heads, z.pages
  {
    && z.ListsEmpty()
    && (forall i :: 0 <= i < |z.pages| ==> z.pages[i].lru.entry == z.base + i && !z.pages[i].hasPrivate)
    && (forall p :: p in z.pages ==> p.zoneId < |zones| && zones[p.zoneId] == z && !p.isReserved)
  }

  /** Boot one zone without touching anything of the others. */
  method BootZone(z: Zone, zones: seq<Zone>, maxPfn: nat, kernelEnd: nat, descriptorEnd: nat, past: Page,
                  ghost others: set<Zone>)
    requires past !in z.pages && (|z.pages| > 0 ==> QuietAt(past, |z.pages|))
    requires Untouched(z, zones)
    requires forall y :: y in others ==> ApartFrom(y, z)
    modifies z`nrFree, z`lists, z`free, z`held, z.Links()`prev, z.Links()`next
    modifies z.pages`hasPrivate, z.pages`order, z.pages`isReserved, z.pages`count
    ensures z.Valid() && z.free == GivenBackSet(|z.pages|, z.base, maxPfn, kernelEnd, descriptorEnd)
    ensures z.held == Singles(|z.pages|) - z.free && Settled(z, maxPfn, kernelEnd, descriptorEnd)
    ensures Descending(z.lists)
    ensures forall y :: y in others ==> unchanged(y)
    ensures forall y :: y in others ==> unchanged(y.Links())
    ensures forall y :: y in others ==> unchanged(y.pages)
  {
    hide Consistent, Listing, Zone.Valid, GivenBackSet, Untouched, Singles, Descending;
    UntouchedTagged(z, zones);
    forall y, i | y in others && 0 <= i < |y.pages|
      ensures y != z && y.pages[i] !in z.pages
    {
      assert ApartFrom(y, z) && y.pages[i] in y.pages;
    }
    AllInUse(z, zones);
    FreeZonePages(z, zones, maxPfn, kernelEnd, descriptorEnd, past);
  }

  lemma UntouchedClean(z: Zone, zones: seq<Zone>, i: nat)
    requires Untouched(z, zones) && i < |z.pages|
    ensures !z.pages[i].hasPrivate
  {
  }

  lemma UntouchedTagged(z: Zone, zones: seq<Zone>)
    requires Untouched(z, zones)
    ensures forall p :: p in z.pages ==> p.zoneId < |zones| && zones[p.zoneId] == z && !p.isReserved
  {
  }

  /** Before any page is given back, every page is in use as a block of its own. */
  ghost method AllInUse(z: Zone, zones: seq<Zone>)
    requires Untouched(z, zones)
    modifies z`free, z`held
    ensures z.Valid() && z.free == {} && z.held == Singles(|z.pages|) && Descending(z.lists)
  {
    z.free, z.held := {}, Singles(|z.pages|);
    z.FreshValid();
  }

  /** After booting, each list of a zone holds exactly the largest aligned runs of the pages
      the loop gave back. */
  lemma BootedLists(node: Node, sizes: seq<nat>, k: nat, maxPfn: nat, kernelEnd: nat, descriptorEnd: nat,
                    b: nat, o: nat)
    requires |sizes| == |node.zones| && k < |node.zones| && o < MAX_ORDER
    requires node.Booted(sizes, k, maxPfn, kernelEnd, descriptorEnd)
    ensures b in node.zones[k].lists[o] <==>
            BuddyResults.LargestRun(GivenBackSet(sizes[k], Start(sizes, k), maxPfn, kernelEnd, descriptorEnd), b, o)
  {
    BuddyResults.ListsAreLargestRuns(node.zones[k], b, o);
  }

  /** After booting, the first block on a list is the highest free one of its size: the one the next
      request of that order is served from. */
  lemma BootedHighest(node: Node, sizes: seq<nat>, k: nat, maxPfn: nat, kernelEnd: nat, descriptorEnd: nat,
                      b: nat, o: nat)
    requires |sizes| == |node.zones| && k < |node.zones| && o < MAX_ORDER
    requires node.Booted(sizes, k, maxPfn, kernelEnd, descriptorEnd) && Maximal(node.zones[k].free, b, o)
    ensures |node.zones[k].lists| == MAX_ORDER && node.zones[k].lists[o] != [] && b <= node.zones[k].lists[o][0]
  {
    var list := node.zones[k].lists[o];
    assert b in list;
    assert Falls(list);
  }

  /** After booting, a page of the boot tables or descriptors is free exactly if it is the first
      one, it exists, and the kernel image does not reach beyond it. */
  lemma BootTablesFree(node: Node, sizes: seq<nat>, k: nat, maxPfn: nat, kernelEnd: nat, descriptorEnd: nat, i: nat)
    requires |sizes| == |node.zones| && k < |node.zones|
    requires node.Booted(sizes, k, maxPfn, kernelEnd, descriptorEnd)
    requires Start(sizes, k) <= i < Start(sizes, k + 1) && 4096 <= i <= descriptorEnd
    ensures i - Start(sizes, k) in node.zones[k].free <==> i == 4096 && kernelEnd <= 4096 < maxPfn
  {
    var p := i - Start(sizes, k);
    assert GivenBack(p, Start(sizes, k), maxPfn, kernelEnd, descriptorEnd)
           <==> i < maxPfn && !Kept(i, kernelEnd, descriptorEnd);
  }
}
