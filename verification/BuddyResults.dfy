/** What the free lists of a valid zone amount to, in terms a caller of the page allocator
    would use, and where the source falls short of it. */
module BuddyResults {
  import opened Bits
  import opened Blocks
  import opened BuddyTheory
  import opened PageAlloc
  import opened PageLists
  import opened Wrappers

  // ----- the lists are determined by the set of free pages -----

  /** First index of the aligned run of 2^o indices around x. */
  function RunStart(x: nat, o: nat): nat
  {
    Pow2(o) * Shr(x, o)
  }

  /** b starts an aligned run of 2^o free pages that cannot be extended to an aligned run
      twice as long. */
  ghost predicate LargestRun(free: set<nat>, b: nat, o: nat)
  {
    && o <= 10
    && b % Pow2(o) == 0
    && (forall z: nat :: InRange(z, b, o) ==> z in free)
    && (o == 10 || exists z: nat :: InRange(z, RunStart(b, o + 1), o + 1) && z !in free)
  }

  lemma RunStartIs(x: nat, o: nat)
    ensures Aligned(RunStart(x, o), o) && Together(RunStart(x, o), x, o)
  {
    ShrMultiple(Shr(x, o), o);
  }

  lemma RunInterval(x: nat, o: nat, z: nat)
    ensures Together(z, x, o) <==> InRange(z, RunStart(x, o), o)
  {
    RunStartIs(x, o);
    TogetherInterval(z, RunStart(x, o), o);
  }

  lemma MaximalIsLargestRun(free: set<nat>, b: nat, o: nat)
    ensures Maximal(free, b, o) <==> LargestRun(free, b, o)
  {
    AlignedMod(b, o);
    if Aligned(b, o) {
      forall z: nat
        ensures Together(z, b, o) <==> InRange(z, b, o)
      {
        TogetherInterval(z, b, o);
      }
    }
    var p := o + 1;
    forall z: nat
      ensures Together(z, b, p) <==> InRange(z, RunStart(b, p), p)
    {
      RunInterval(b, p, z);
    }
  }

  /** The free lists of a valid zone are the unique maximal decomposition of its free pages,
      whatever the order in which pages were given back. */
  lemma ListsAreLargestRuns(z: Zone, b: nat, o: nat)
    requires z.Valid() && o < MAX_ORDER
    ensures b in z.lists[o] <==> LargestRun(z.free, b, o)
  {
    MaximalIsLargestRun(z.free, b, o);
  }

  /** Page p lies in a block listed on list o at index b. */
  ghost predicate ListedAt(z: Zone, o: int, b: nat, p: nat)
    reads z
  {
    0 <= o < |z.lists| && b in z.lists[o] && InRange(p, b, o)
  }

  /** Every page is either free, and then on exactly one listed block, or in exactly one
      block in use. */
  lemma PagesPartitioned(z: Zone, p: nat)
    requires z.Valid() && p < |z.pages|
    ensures p in z.free <==> exists o, b: nat :: ListedAt(z, o, b, p)
    ensures p in z.free <==> !exists b :: b in z.held && InRange(p, b, z.held[b])
    ensures forall a, b :: a in z.held && b in z.held && InRange(p, a, z.held[a]) && InRange(p, b, z.held[b]) ==> a == b
    ensures forall o, b: nat, k, c: nat :: ListedAt(z, o, b, p) && ListedAt(z, k, c, p) ==> b == c && o == k
  {
    var s := z.Snap();
    forall b: nat | b in z.held
      ensures Holds(s.held, b, p) <==> InRange(p, b, z.held[b])
    {
      TogetherInterval(p, b, z.held[b]);
    }
    forall o, b: nat | ListedAt(z, o, b, p)
      ensures Together(p, b, o)
    {
      TogetherInterval(p, b, o);
    }
    if p in z.free {
      SinglePageWhole(z.free, p);
      var a, k := MaximalCovers(z.free, p, p, 0);
      TogetherInterval(p, a, k);
      assert ListedAt(z, k, a, p);
    }
    forall o, b: nat, k, c: nat | ListedAt(z, o, b, p) && ListedAt(z, k, c, p)
      ensures b == c && o == k
    {
      MaximalUnique(z.free, b, o, c, k, p);
    }
  }

  lemma SinglePageWhole(free: set<nat>, p: nat)
    requires p in free
    ensures Aligned(p, 0) && Whole(free, p, 0)
  {
  }

  // ----- the counters account for every free page -----

  /** Free pages according to the counters of the orders below o. */
  function Counted(nrFree: seq<int>, o: nat): int
    requires o <= |nrFree|
  {
    if o == 0 then 0 else Counted(nrFree, o - 1) + nrFree[o - 1] * Pow2(o - 1)
  }

  /** The pages of the blocks on one list. */
  ghost function ListPages(list: seq<nat>, o: nat): set<nat>
  {
    if list == [] then {} else Block(list[0], o) + ListPages(list[1..], o)
  }

  /** The pages of the blocks on the lists below o. */
  ghost function ListedBelow(lists: seq<seq<nat>>, o: nat): set<nat>
    requires o <= |lists|
  {
    if o == 0 then {} else ListedBelow(lists, o - 1) + ListPages(lists[o - 1], o - 1)
  }

  function Interval(b: nat, n: nat): set<nat>
  {
    if n == 0 then {} else Interval(b, n - 1) + {b + n - 1}
  }

  lemma IntervalSize(b: nat, n: nat)
    ensures forall z: nat :: z in Interval(b, n) <==> b <= z < b + n
    ensures |Interval(b, n)| == n
  {
  }

  lemma BlockSize(b: nat, o: nat)
    ensures |Block(b, o)| == Pow2(o)
  {
    IntervalSize(b, Pow2(o));
    assert forall z: nat :: z in Block(b, o) <==> InRange(z, b, o);
    assert Block(b, o) == Interval(b, Pow2(o));
  }

  lemma ListPagesMembers(list: seq<nat>, o: nat, p: nat)
    ensures p in ListPages(list, o) <==> exists b :: b in list && InRange(p, b, o)
  {
    if list == [] {
    } else {
      ListPagesMembers(list[1..], o, p);
      assert forall b :: b in list <==> b == list[0] || b in list[1..];
    }
  }

  lemma {:induction false} ListPagesSize(list: seq<nat>, o: nat)
    requires forall i :: 0 <= i < |list| ==> Aligned(list[i], o)
    requires forall i, j :: 0 <= i < j < |list| ==> list[i] != list[j]
    ensures |ListPages(list, o)| == |list| * Pow2(o)
  {
    if list == [] {
    } else {
      var b, rest := list[0], list[1..];
      ListPagesSize(rest, o);
      BlockSize(b, o);
      BlockOffList(b, rest, o);
      assert |ListPages(list, o)| == Pow2(o) + |rest| * Pow2(o);
      OneMore(|rest|, Pow2(o));
    }
  }

  lemma OneMore(n: nat, p: nat)
    ensures (n + 1) * p == p + n * p
  {
  }

  lemma BlockOffList(b: nat, rest: seq<nat>, o: nat)
    requires Aligned(b, o) && b !in rest
    requires forall i :: 0 <= i < |rest| ==> Aligned(rest[i], o)
    ensures Block(b, o) !! ListPages(rest, o)
  {
    forall z: nat | z in Block(b, o)
      ensures z !in ListPages(rest, o)
    {
      ListPagesMembers(rest, o, z);
      InBlock(b, o, z);
      if c :| c in rest && InRange(z, c, o) {
        InBlock(c, o, z);
        AlignedUnique(b, c, o);
      }
    }
  }

  lemma ListedBelowMembers(lists: seq<seq<nat>>, o: nat, p: nat)
    requires o <= |lists|
    ensures p in ListedBelow(lists, o) <==> exists k, b: nat :: 0 <= k < o && b in lists[k] && InRange(p, b, k)
  {
    if o == 0 {
    } else {
      var k := o - 1;
      ListedBelowMembers(lists, k, p);
      ListPagesMembers(lists[k], k, p);
    }
  }

  lemma ElevenLists(z: Zone)
    requires z.Valid()
    ensures |z.nrFree| == |z.lists| == MAX_ORDER
  {
    hide Consistent, Listing, Zone.Usable;
  }

  lemma {:induction false} CountedIsSize(z: Zone, o: nat)
    requires z.Valid() && o <= MAX_ORDER
    ensures Counted(z.nrFree, o) == |ListedBelow(z.lists, o)|
  {
    hide Zone.Valid, ListPages, Pow2;
    ElevenLists(z);
    if o == 0 {
    } else {
      CountedIsSize(z, o - 1);
      CountedStep(z, o - 1);
      CountedGrows(z.nrFree, z.lists, o - 1);
    }
  }

  lemma CountedGrows(nrFree: seq<int>, lists: seq<seq<nat>>, k: nat)
    requires k < |nrFree| && k < |lists|
    requires Counted(nrFree, k) == |ListedBelow(lists, k)| && |ListPages(lists[k], k)| == nrFree[k] * Pow2(k)
    requires ListPages(lists[k], k) !! ListedBelow(lists, k)
    ensures Counted(nrFree, k + 1) == |ListedBelow(lists, k + 1)|
  {
    hide ListPages, Pow2;
    DisjointSize(ListedBelow(lists, k), ListPages(lists[k], k));
  }

  lemma DisjointSize(a: set<nat>, b: set<nat>)
    requires a !! b
    ensures |a + b| == |a| + |b|
  {
  }

  lemma CountedStep(z: Zone, k: nat)
    requires z.Valid() && k < MAX_ORDER
    ensures |ListPages(z.lists[k], k)| == z.nrFree[k] * Pow2(k)
    ensures ListPages(z.lists[k], k) !! ListedBelow(z.lists, k)
  {
    forall i, j | 0 <= i < j < |z.lists[k]|
      ensures z.lists[k][i] != z.lists[k][j]
    {
      z.ListedOnce(k, i, k, j);
    }
    assert forall i :: 0 <= i < |z.lists[k]| ==> z.lists[k][i] in z.lists[k];
    ListPagesSize(z.lists[k], k);
    forall p | p in ListPages(z.lists[k], k)
      ensures p !in ListedBelow(z.lists, k)
    {
      ListsDisjoint(z, k, p);
    }
  }

  lemma ListsDisjoint(z: Zone, k: nat, p: nat)
    requires z.Valid() && k < MAX_ORDER && p in ListPages(z.lists[k], k)
    ensures p !in ListedBelow(z.lists, k)
  {
    ListPagesMembers(z.lists[k], k, p);
    ListedBelowMembers(z.lists, k, p);
    var b :| b in z.lists[k] && InRange(p, b, k);
    TogetherInterval(p, b, k);
    if j, c: nat :| 0 <= j < k && c in z.lists[j] && InRange(p, c, j) {
      TogetherInterval(p, c, j);
      MaximalUnique(z.free, b, k, c, j, p);
    }
  }

  /** The eleven nr_free counters, weighted by block size, add up to the number of free pages. */
  lemma CountersExact(z: Zone)
    requires z.Valid()
    ensures Counted(z.nrFree, MAX_ORDER) == |z.free|
  {
    CountedIsSize(z, MAX_ORDER);
    forall p: nat
      ensures p in ListedBelow(z.lists, MAX_ORDER) <==> p in z.free
    {
      ListedBelowMembers(z.lists, MAX_ORDER, p);
      FreeIsListed(z, p);
    }
    assert ListedBelow(z.lists, MAX_ORDER) == z.free;
  }

  lemma FreeIsListed(z: Zone, p: nat)
    requires z.Valid()
    ensures p in z.free <==> exists k, b: nat :: 0 <= k < MAX_ORDER && b in z.lists[k] && InRange(p, b, k)
  {
    if p in z.free {
      SinglePageWhole(z.free, p);
      var a, k := MaximalCovers(z.free, p, p, 0);
      TogetherInterval(p, a, k);
      assert a in z.lists[k] && InRange(p, a, k);
    }
    if k, b: nat :| 0 <= k < MAX_ORDER && b in z.lists[k] && InRange(p, b, k) {
      TogetherInterval(p, b, k);
    }
  }

  // ----- allocating and giving straight back -----

  /** Giving a block straight back restores the free pages, the blocks in use, and what
      stands on every list. */
  method AllocateThenFree(z: Zone, order: nat, past: Page) returns (r: Option<nat>)
    requires z.Valid() && past !in z.pages && QuietAt(past, |z.pages|)
    modifies z`nrFree, z`lists, z`free, z`held, z.Links()`prev, z.Links()`next, z.pages`hasPrivate, z.pages`order
    ensures z.Valid() && z.free == old(z.free) && z.held == old(z.held)
    ensures forall o, b: nat :: 0 <= o < MAX_ORDER ==> (b in z.lists[o] <==> b in old(z.lists[o]))
  {
    hide Consistent, Whole, Block, Zone.WellFormed, Zone.Usable;
    ghost var before := z.lists;
    ghost var found;
    r, found := z.RmQueue(order);
    if r.Some? {
      ghost var head, merged := z.FreePages(r.value, order, past);
      TakenAndGiven(old(z.free), Block(r.value, order));
    }
    SameListings(before, z.lists, z.free);
  }

  lemma TakenAndGiven(s: set<nat>, b: set<nat>)
    requires b <= s
    ensures s - b + b == s
  {
  }

  lemma SameListings(a: seq<seq<nat>>, b: seq<seq<nat>>, free: set<nat>)
    requires Listing(a, free) && Listing(b, free)
    ensures |a| == |b| == MAX_ORDER
    ensures forall o, x: nat :: 0 <= o < MAX_ORDER ==> (x in a[o] <==> x in b[o])
  {
  }

  // ----- any run of requests -----

  datatype Request = Allocate(order: nat) | Release(head: nat)

  /** The pages that were free are shared out between those still free and the blocks handed out,
      and the blocks in use are those of before and the ones handed out. */
  ghost predicate Shared(free0: set<nat>, held0: map<nat, nat>, free: set<nat>, held: map<nat, nat>,
                         mine: map<nat, nat>)
  {
    && mine.Keys !! held0.Keys && held == held0 + mine && free <= free0
    && (forall b :: b in mine ==> Block(b, mine[b]) <= free0)
    && (forall p :: p in free0 ==> p in free || exists b :: b in mine && p in Block(b, mine[b]))
  }

  lemma SharedTake(free0: set<nat>, held0: map<nat, nat>, free: set<nat>, held: map<nat, nat>, mine: map<nat, nat>,
                   b: nat, o: nat)
    requires Shared(free0, held0, free, held, mine) && b !in held && Block(b, o) <= free
    ensures Shared(free0, held0, free - Block(b, o), held[b := o], mine[b := o])
  {
    hide Block;
    var next := mine[b := o];
    forall p | p in free0
      ensures p in free - Block(b, o) || exists c :: c in next && p in Block(c, next[c])
    {
      if p in Block(b, o) {
        assert b in next && p in Block(b, next[b]);
      } else if p !in free {
        var c :| c in mine && p in Block(c, mine[c]);
        assert c in next && p in Block(c, next[c]);
      }
    }
  }

  lemma SharedGive(free0: set<nat>, held0: map<nat, nat>, free: set<nat>, held: map<nat, nat>, mine: map<nat, nat>,
                   b: nat)
    requires Shared(free0, held0, free, held, mine) && b in mine
    ensures b in held && held[b] == mine[b]
    ensures Shared(free0, held0, free + Block(b, mine[b]), held - {b}, mine - {b})
  {
    hide Block;
    var next := mine - {b};
    forall p | p in free0
      ensures p in free + Block(b, mine[b]) || exists c :: c in next && p in Block(c, next[c])
    {
      if p !in free && p !in Block(b, mine[b]) {
        var c :| c in mine && p in Block(c, mine[c]);
        assert c in next && p in Block(c, next[c]);
      }
    }
  }

  lemma SharedNone(free: set<nat>, held: map<nat, nat>)
    ensures Shared(free, held, free, held, map[])
  {
  }

  lemma SharedAll(free0: set<nat>, held0: map<nat, nat>, free: set<nat>, held: map<nat, nat>)
    requires Shared(free0, held0, free, held, map[])
    ensures free == free0 && held == held0
  {
  }

  /** Serve one request: hand out a block, or take back one that was handed out. */
  method ServeOne(z: Zone, past: Page, request: Request, mine0: map<nat, nat>,
                  ghost free0: set<nat>, ghost held0: map<nat, nat>)
    returns (mine: map<nat, nat>)
    requires z.Valid() && z.Usable(free0) && QuietAt(past, |z.pages|)
    requires Shared(free0, held0, z.free, z.held, mine0)
    modifies z`nrFree, z`lists, z`free, z`held, z.Links()`prev, z.Links()`next, z.pages`hasPrivate, z.pages`order
    ensures z.Valid() && Shared(free0, held0, z.free, z.held, mine)
  {
    hide Consistent, Block, Zone.WellFormed, Whole, Shared, Listing;
    mine := mine0;
    match request
    case Allocate(order) =>
      ghost var free, held, found := z.free, z.held, 0;
      var r;
      r, found := z.RmQueue(order);
      if r.Some? {
        SharedTake(free0, held0, free, held, mine, r.value, order);
        mine := mine[r.value := order];
      }
    case Release(head) =>
      if head in mine {
        SharedGive(free0, held0, z.free, z.held, mine, head);
        SharedUsable(z, free0, held0, mine, head);
        ghost var first, merged := z.FreePages(head, mine[head], past);
        mine := mine - {head};
      }
  }

  lemma SharedUsable(z: Zone, free0: set<nat>, held0: map<nat, nat>, mine: map<nat, nat>, b: nat)
    requires z.Usable(free0) && Shared(free0, held0, z.free, z.held, mine) && b in mine
    ensures z.Usable(Block(b, mine[b]))
  {
    hide Block;
  }

  /** Any interleaving of allocations and of matching frees, starting from any valid state: the zone
      stays valid throughout, the pages that were free are exactly those free now and those handed
      out, and once everything is given back the zone is as it was. */
  method Serve(z: Zone, past: Page, requests: seq<Request>) returns (mine: map<nat, nat>)
    requires z.Valid() && past !in z.pages && QuietAt(past, |z.pages|)
    modifies z`nrFree, z`lists, z`free, z`held, z.Links()`prev, z.Links()`next, z.pages`hasPrivate, z.pages`order
    ensures z.Valid() && Shared(old(z.free), old(z.held), z.free, z.held, mine)
    ensures mine == map[] ==> z.free == old(z.free) && z.held == old(z.held)
    ensures mine == map[] ==> forall o, b: nat :: 0 <= o < MAX_ORDER ==> (b in z.lists[o] <==> b in old(z.lists[o]))
  {
    hide Consistent, Block, Zone.WellFormed, Whole, Shared;
    ghost var free0, held0, lists0 := z.free, z.held, z.lists;
    mine := map[];
    SharedNone(free0, held0);
    for i := 0 to |requests|
      invariant z.Valid() && z.Usable(free0) && QuietAt(past, |z.pages|)
      invariant Shared(free0, held0, z.free, z.held, mine)
    {
      mine := ServeOne(z, past, requests[i], mine, free0, held0);
    }
    if mine == map[] {
      SharedAll(free0, held0, z.free, z.held);
      SameListings(lists0, z.lists, z.free);
    }
  }

  // ----- where the source falls short -----

  /** The bounds check admits the index just past the zone. Some probe hits that index exactly
      when the zone is not a whole number of largest blocks. */
  lemma ProbePastEndExact(n: nat)
    ensures n % 1024 == 0 <==>
            forall q: nat, o: nat :: o < MAX_ORDER - 1 && Aligned(q, o) && q < n ==> Buddy(q, o) != n
  {
    assert Pow2(10) == 1024;
    if n % 1024 == 0 {
      forall q: nat, o: nat | o < MAX_ORDER - 1 && Aligned(q, o) && q < n
        ensures Buddy(q, o) != n
      {
        BuddyInside(n, q, o);
      }
    } else {
      AlignedMod(n, MAX_ORDER - 1);
      var q, o := LastHalfBlock(n, MAX_ORDER - 1);
      assert Buddy(q, o) == n;
    }
  }

  /** The bounds check by itself: every buddy it admits lies in the zone with its whole block exactly
      when the zone is a whole number of largest blocks. */
  lemma MergesInsideExact(n: nat)
    ensures n % 1024 == 0 <==>
            forall q: nat, o: nat :: o < MAX_ORDER - 1 && Aligned(q, o) && q < n && Buddy(q, o) <= n ==>
              Buddy(q, o) + Pow2(o) <= n
  {
    assert Pow2(10) == 1024;
    hide Pow2;
    if n % 1024 == 0 {
      forall q: nat, o: nat | o < MAX_ORDER - 1 && Aligned(q, o) && q < n
        ensures Buddy(q, o) + Pow2(o) <= n
      {
        BuddyInside(n, q, o);
        BlockInside(n, Buddy(q, o), o, q);
      }
    } else {
      AlignedMod(n, MAX_ORDER - 1);
      var q, o := LastHalfBlock(n, MAX_ORDER - 1);
      assert Buddy(q, o) + Pow2(o) > n;
    }
  }

  /** An aligned block that starts in a zone of whole largest blocks ends in it. */
  lemma BlockInside(n: nat, y: nat, o: nat, q: nat)
    requires n % 1024 == 0 && o < MAX_ORDER - 1 && Aligned(q, o) && y == Buddy(q, o) && y < n
    ensures y + Pow2(o) <= n
  {
    BuddyFacts(q, o);
    assert Pow2(10) == 1024;
    hide Pow2;
    Pow2Split(o, 10 - o);
    AlignedIs(y, o);
    var p, k, m, c := Pow2(o), Shr(y, o), n / 1024, Pow2(10 - o);
    assert n == 1024 * m;
    WholeBlockFits(p, c, m, k);
  }

  lemma {:induction false} WholeBlockFits(p: nat, c: nat, m: nat, k: nat)
    requires p > 0 && p * k < p * c * m
    ensures p * k + p <= p * c * m
  {
    assert p * c * m == p * (c * m);
    MulSign(p, c * m - k);
    MulAdd(p, c * m, k);
  }

  lemma LastHalfBlock(n: nat, k: nat) returns (q: nat, o: nat)
    requires !Aligned(n, k)
    ensures o < k && Aligned(q, o) && q < n && Buddy(q, o) == n
  {
    if !Aligned(n, k - 1) {
      q, o := LastHalfBlock(n, k - 1);
    } else {
      o := k - 1;
      q := Buddy(n, o);
      BuddyFacts(n, o);
      BuddyOrder(n, o);
      BuddyFacts(q, o);
      AlignedUnique(Buddy(q, o), n, o);
    }
  }

  /** In a zone of whole largest blocks the descriptor behind the last one is never probed, so it
      does not matter what it looks like. */
  lemma WholeZoneQuiet(past: Page, n: nat)
    requires n % 1024 == 0
    ensures QuietAt(past, n)
  {
    forall o: nat
      ensures !Boundary(n, o)
    {
      NoBoundary(n, o);
    }
  }

  lemma NoBoundary(n: nat, o: nat)
    requires n % 1024 == 0
    ensures !Boundary(n, o)
  {
    assert Pow2(10) == 1024;
    hide Pow2;
    AlignedMod(n, MAX_ORDER - 1);
    if o < MAX_ORDER - 1 {
      AlignedFiner(n, o + 1, MAX_ORDER - 1);
    }
  }

  /** When the probe hits the index just past the zone, the block being given back has grown as far
      as it can. The test of the descriptor found there leads the right way exactly if that does
      not look free: a merge would take (q, o + 1), which is not wholly free. */
  lemma PastProbeExact(s: Snapshot, lists: seq<seq<nat>>, p0: nat, q: nat, o: nat, past: Page)
    requires Consistent(s) && Growing(s, lists, p0, q, o) && o < MAX_ORDER - 1 && Buddy(q, o) == s.n
    ensures Boundary(s.n, o) && GrownFully(s, p0, q, o)
    ensures And(q, s.n) == q && !Whole(s.free + Block(p0, s.held[p0]), q, o + 1)
    ensures (PageIsBuddy(past, o) ==> Whole(s.free + Block(p0, s.held[p0]), And(q, s.n), o + 1))
            <==> !PageIsBuddy(past, o)
  {
    GrowProbe(s, lists, p0, q, o);
    BuddyFacts(q, o);
    ProbeFails(s, p0, q, o);
  }

  /** A state of n pages in which the block that ends where the zone ends is in use. */
  function LastBlockInUse(n: nat, q: nat, o: nat): Snapshot
  {
    Snapshot(n, {}, map p: nat | p < n && (IsIndex(p, q) || p == q) :: if p == q then o else 0, map[])
  }

  lemma LastBlockConsistent(n: nat, q: nat, o: nat)
    requires o < MAX_ORDER && Aligned(q, o) && n == q + Pow2(o)
    ensures Consistent(LastBlockInUse(n, q, o))
  {
    var s := LastBlockInUse(n, q, o);
    hide Pow2;
    forall b: nat, z: nat
      ensures Holds(s.held, b, z) <==> (b < q && z == b) || (b == q && q <= z < n)
    {
      assert IsIndex(b, q) <==> b < q;
      if b == q {
        TogetherInterval(z, q, o);
      }
    }
    forall b, k
      ensures !Maximal({}, b, k)
    {
      NoneMaximal(b, k);
    }
    forall z: nat | z < n
      ensures InUse(s.held, z)
    {
      assert Holds(s.held, if z < q then z else q, z);
    }
  }

  /** A quiet descriptor is what it takes: it is never mistaken for a buddy in any state of the zone,
      and any other one is in some state. */
  lemma QuietExact(n: nat, past: Page)
    ensures QuietAt(past, n) <==>
            forall s, lists, p0: nat, q: nat, o: nat ::
              (Consistent(s) && s.n == n && Growing(s, lists, p0, q, o) && o < MAX_ORDER - 1 && Buddy(q, o) == n)
              ==> !PageIsBuddy(past, o)
  {
    if QuietAt(past, n) {
      forall s, lists, p0: nat, q: nat, o: nat | Consistent(s) && s.n == n && Growing(s, lists, p0, q, o)
                                  && o < MAX_ORDER - 1 && Buddy(q, o) == n
        ensures !PageIsBuddy(past, o)
      {
        GrowProbe(s, lists, p0, q, o);
      }
    } else {
      var o: nat :| Boundary(n, o) && PageIsBuddy(past, o);
      var q := Buddy(n, o);
      var s, lists := LastBlockInUse(n, q, o), seq(MAX_ORDER, i => []);
      LastBlockGrows(n, q, o, lists);
      assert Growing(s, lists, q, q, o);
    }
  }

  lemma LastBlockGrows(n: nat, q: nat, o: nat, lists: seq<seq<nat>>)
    requires Boundary(n, o) && q == Buddy(n, o)
    requires |lists| == MAX_ORDER && forall p :: 0 <= p < MAX_ORDER ==> lists[p] == []
    ensures Buddy(q, o) == n
    ensures Consistent(LastBlockInUse(n, q, o)) && Growing(LastBlockInUse(n, q, o), lists, q, q, o)
  {
    BuddyFacts(n, o);
    BuddyOrder(n, o);
    BuddyFacts(q, o);
    AlignedUnique(Buddy(q, o), n, o);
    BuddyValue(q, o);
    BuddyValue(n, o);
    BuddyGap(n, o);
    LastBlockConsistent(n, q, o);
    forall p, b: nat | 0 <= p < MAX_ORDER
      ensures !Maximal({}, b, p)
    {
      NoneMaximal(b, p);
    }
    GrowStart(LastBlockInUse(n, q, o), lists, q);
  }

  lemma BuddyGap(n: nat, o: nat)
    requires Boundary(n, o)
    ensures n == Buddy(n, o) + Pow2(o)
  {
    XorBit(n, o);
  }

  /** What `expand` puts on the free lists as it is written, as (list, first page) pairs:
      it raises `low` instead of lowering `high`, and runs while high >= low. */
  function ExpandAsWritten(low: int, high: int, area: int, size: nat): seq<(int, nat)>
    decreases high - low + 1
  {
    if high < low then []
    else [(area - 1, size / 2)] + ExpandAsWritten(low + 1, high, area - 1, size / 2)
  }

  lemma ExpandAsWrittenLast(low: int, high: int, area: int, size: nat)
    requires low <= high
    ensures var l := ExpandAsWritten(low, high, area, size);
            |l| == high - low + 1 && l[|l| - 1] == (area - 1 - (high - low), Shr(size, high - low + 1))
    decreases high - low
  {
    if low < high {
      ExpandAsWrittenLast(low + 1, high, area - 1, size / 2);
      ShrFirst(size, high - low);
    } else {
      assert Shr(size, 1) == size / 2;
    }
  }

  /** For every request, `expand` as written lists a page of the very block it hands out. */
  lemma ExpandAsWrittenOverlaps(low: nat, high: nat)
    requires low <= high
    ensures exists i :: 0 <= i < |ExpandAsWritten(low, high, high, Pow2(high))|
                        && ExpandAsWritten(low, high, high, Pow2(high))[i].1 < Pow2(low)
  {
    var size, k, m := Pow2(high), high - low, Pow2(low);
    ExpandAsWrittenLast(low, high, high, size);
    assert Shr(size, k) == m by {
      Pow2Split(k, low);
      ShrMultiple(m, k);
    }
    assert Shr(size, k + 1) == m / 2;
    var l := ExpandAsWritten(low, high, high, size);
    assert l[|l| - 1].1 < m;
  }

  /** The head of a free block passes the buddy test exactly if it is not reserved and its count
      says that nobody refers to it: a block given back in any other state would never be merged
      again. */
  lemma CountDecides(z: Zone, b: nat, o: nat)
    requires Consistent(z.Snap()) && Maximal(z.free, b, o) && b < |z.pages|
    ensures PageIsBuddy(z.pages[b], o) <==> z.pages[b].count == -1 && !z.pages[b].isReserved
  {
    assert Tagged(z.Snap(), b, o);
  }

  /** The head of a listed block passes the buddy test as it stands, and `__rmqueue` as written
      touches none of its flags, order or count: left so, the block in use it then heads looks
      like a free one. */
  lemma UnclearedTagMisleads(z: Zone, b: nat, o: nat)
    requires z.Valid() && o < MAX_ORDER && b in z.lists[o]
    ensures b < |z.pages| && PageIsBuddy(z.pages[b], o)
    ensures !Maximal(z.free - Block(b, o), b, o)
  {
    BlockMembers(b, o);
    assert Together(b, b, o) && b in z.free;
    assert Tagged(z.Snap(), b, o);
  }

  /** `__rmqueue` as written, up to the split: the head leaves its list with its tag in place. */
  method TakeAsWritten(z: Zone, o: nat) returns (b: nat)
    requires z.Valid() && o < MAX_ORDER && z.lists[o] != []
    modifies z`nrFree, z`lists, z.Links()`prev, z.Links()`next
    ensures z.WellFormed() && z.Tags() == old(z.Tags())
    ensures b == old(z.lists[o])[0] && b < |z.pages| && PageIsBuddy(z.pages[b], o)
    ensures forall x :: x in z.lists[o] <==> x in old(z.lists[o]) && x != b
  {
    hide Consistent, Listing, Zone.WellFormed, Zone.Usable;
    b := z.First(o);
    UnclearedTagMisleads(z, b, o);
    z.Unlink(b, o);
  }

  /** What then goes wrong: with its tag in place, the block (b, o) handed out is probed when its
      buddy is given back, passes, and is merged with while it is in use. */
  lemma UnclearedTagMerges(s: Snapshot, b: nat, o: nat)
    requires Consistent(s) && Maximal(s.free, b, o) && o < MAX_ORDER - 1
    requires Buddy(b, o) in s.held && s.held[Buddy(b, o)] == o
    ensures var y, t := Buddy(b, o), Taken(s, b, o).(tag := s.tag);
            && b in t.held && y in t.held && Buddy(y, o) == b && Tagged(t, b, o)
            && Block(b, o) <= Block(And(y, b), o + 1)
            && !Whole(t.free + Block(y, o), And(y, b), o + 1)
  {
    var y := Buddy(b, o);
    BuddyFacts(b, o);
    BuddyFacts(y, o);
    assert Together(Buddy(y, o), b, o);
    AlignedUnique(Buddy(y, o), b, o);
    BlockMembers(b, o);
    BlockMembers(y, o);
    BlockMembers(And(y, b), o + 1);
    assert Together(b, b, o);
    forall z: nat | Together(z, b, o)
      ensures Together(z, And(y, b), o + 1)
    {
      Coarser(z, b, o, o + 1);
    }
    assert b !in s.free - Block(b, o) + Block(y, o);
  }

  lemma {:induction false} SizeExceedsOrder(o: nat)
    ensures Pow2(o) > o
  {
    if o == 0 {
    } else {
      SizeExceedsOrder(o - 1);
    }
  }

  /** Were the size of a split-off half stored in its head, as the source has it, the half would
      be a free block that never passes the test for its order. */
  lemma StoredSizeHides(s: Snapshot, b: nat, o: nat)
    requires Consistent(s) && b in s.held && s.held[b] == o + 1
    ensures var t := Split(s, b, o).(tag := s.tag[b + Pow2(o) := Pow2(o)]);
            Maximal(t.free, b + Pow2(o), o) && !Tagged(t, b + Pow2(o), o)
  {
    SplitUpperMaximal(s, b, o);
    SizeExceedsOrder(o);
  }
}
