/** What the buddy allocator's page tags and free lists mean, independent of how
    pages and lists are laid out in memory. Indices are relative to the zone. */
module BuddyTheory {
  import opened Bits
  import opened Blocks

  /** One zone: `free` holds the free page indices; `held` maps the head of each block
      in use to its order; `tag` maps each page whose PG_private is set to its `private`
      field. Merging never clears a tag, so `tag` also holds stale entries. */
  datatype Snapshot = Snapshot(n: nat, free: set<nat>, held: map<nat, nat>, tag: map<nat, nat>)

  predicate InRange(z: nat, b: nat, o: nat)
  {
    b <= z < b + Pow2(o)
  }

  function Block(b: nat, o: nat): set<nat>
  {
    set z: nat | z < b + Pow2(o) && InRange(z, b, o)
  }

  ghost predicate Holds(held: map<nat, nat>, b: nat, z: nat)
  {
    b in held && Together(z, b, held[b])
  }

  ghost predicate InUse(held: map<nat, nat>, z: nat)
  {
    exists b :: Holds(held, b, z)
  }

  /** p lies inside a block in use without heading it. */
  ghost predicate Interior(held: map<nat, nat>, p: nat)
  {
    exists b :: Holds(held, b, p) && b != p
  }

  /** Blocks in use are aligned, inside the zone, disjoint from free pages and each other. */
  ghost predicate HeldApart(s: Snapshot)
  {
    && (forall b: nat :: b in s.held ==> s.held[b] < MAX_ORDER && Aligned(b, s.held[b]))
    && (forall b: nat, z: nat :: Holds(s.held, b, z) ==> z < s.n && z !in s.free)
    && (forall a: nat, b: nat, z: nat :: Holds(s.held, a, z) && Holds(s.held, b, z) ==> a == b)
  }

  /** Every page of the zone is free or in a block in use. */
  ghost predicate Covered(s: Snapshot)
  {
    && (forall z :: z in s.free ==> z < s.n)
    && (forall z: nat :: z < s.n ==> z in s.free || InUse(s.held, z))
  }

  /** A tag names a block that is wholly free, unless it is buried in a block in use. */
  ghost predicate TagsSound(s: Snapshot)
  {
    forall p :: p in s.tag ==>
      && s.tag[p] < MAX_ORDER
      && Aligned(p, s.tag[p])
      && (Whole(s.free, p, s.tag[p]) || Interior(s.held, p))
  }

  /** The head of every maximal free block carries its order. */
  ghost predicate HeadsTagged(s: Snapshot)
  {
    forall b, o {:trigger Maximal(s.free, b, o)} :: Maximal(s.free, b, o) ==> b in s.tag && s.tag[b] == o
  }

  /** Free pages and blocks in use partition the zone, and the tags can be trusted. */
  ghost predicate Consistent(s: Snapshot)
  {
    HeldApart(s) && Covered(s) && TagsSound(s) && HeadsTagged(s)
  }

  /** Page p looks like a free block of order o to the allocator. */
  predicate Tagged(s: Snapshot, p: nat, o: nat)
  {
    p in s.tag && s.tag[p] == o
  }

  // ----- blocks and sets -----

  lemma InBlock(b: nat, o: nat, z: nat)
    requires Aligned(b, o)
    ensures z in Block(b, o) <==> Together(z, b, o)
  {
    TogetherInterval(z, b, o);
  }

  lemma BlockMembers(b: nat, o: nat)
    requires Aligned(b, o)
    ensures forall z: nat :: z in Block(b, o) <==> Together(z, b, o)
  {
    forall z: nat
      ensures z in Block(b, o) <==> Together(z, b, o)
    {
      InBlock(b, o, z);
    }
  }

  lemma BlockMember(b: nat, o: nat, z: nat)
    ensures z in Block(b, o) <==> b <= z < b + Pow2(o)
  {
    assert InRange(z, b, o) <==> b <= z < b + Pow2(o);
  }

  // ----- adding a block to the free set -----

  /** After the order-o0 block at p0 joins the free set and ends up inside the maximal
      block (q, o), the maximal blocks are (q, o) and the earlier ones outside it. */
  lemma AddResult(free: set<nat>, p0: nat, o0: nat, q: nat, o: nat, b: nat, k: nat)
    requires Aligned(p0, o0) && free !! Block(p0, o0)
    requires o0 <= o && Together(p0, q, o) && Maximal(free + Block(p0, o0), q, o)
    ensures Maximal(free + Block(p0, o0), b, k) <==>
            (b == q && k == o) || (Maximal(free, b, k) && !Together(b, q, o))
  {
    var free' := free + Block(p0, o0);
    BlockMembers(p0, o0);
    if Maximal(free', b, k) && !(b == q && k == o) {
      AddKeepsOut(free, p0, o0, q, o, b, k);
    }
    if Maximal(free, b, k) && !Together(b, q, o) {
      AddKeepsIn(free, p0, o0, q, o, b, k);
    }
  }

  lemma AddKeepsOut(free: set<nat>, p0: nat, o0: nat, q: nat, o: nat, b: nat, k: nat)
    requires Aligned(p0, o0) && free !! Block(p0, o0)
    requires o0 <= o && Together(p0, q, o) && Maximal(free + Block(p0, o0), q, o)
    requires Maximal(free + Block(p0, o0), b, k) && !(b == q && k == o)
    ensures Maximal(free, b, k) && !Together(b, q, o)
  {
    var free' := free + Block(p0, o0);
    BlockMembers(p0, o0);
    if Together(b, q, o) {
      MaximalUnique(free', q, o, b, k, b);
    }
    forall z: nat | Together(z, b, k)
      ensures z in free
    {
      if Together(z, p0, o0) {
        Coarser(z, p0, o0, o);
        MaximalUnique(free', q, o, b, k, z);
      }
    }
    assert Whole(free, b, k + 1) ==> Whole(free', b, k + 1);
  }

  lemma AddKeepsIn(free: set<nat>, p0: nat, o0: nat, q: nat, o: nat, b: nat, k: nat)
    requires Aligned(p0, o0) && free !! Block(p0, o0)
    requires o0 <= o && Together(p0, q, o) && Maximal(free + Block(p0, o0), q, o)
    requires Maximal(free, b, k) && !Together(b, q, o)
    ensures Maximal(free + Block(p0, o0), b, k)
  {
    var free' := free + Block(p0, o0);
    BlockMembers(p0, o0);
    assert Whole(free', b, k);
    if k < MAX_ORDER - 1 && Whole(free', b, k + 1) {
      assert exists z: nat :: Together(z, b, k + 1) && z !in free;
      var z: nat :| Together(z, b, k + 1) && z !in free;
      assert Together(z, p0, o0);
      Coarser(z, p0, o0, o);
      if k + 1 <= o {
        Coarser(z, b, k + 1, o);
      } else {
        WholeFiner(free', b, q, o + 1, k + 1) by {
          Coarser(z, q, o, k + 1);
        }
      }
    }
  }

  // ----- the buddy test -----

  /** While the order-o0 block at p0 is being given back and has grown to (q, o), the page
      the allocator probes looks like a free block of order o exactly when it heads one,
      stale tags notwithstanding. */
  lemma BuddyTest(s: Snapshot, p0: nat, q: nat, o: nat)
    requires Consistent(s)
    requires p0 in s.held && s.held[p0] <= o < MAX_ORDER - 1
    requires Aligned(q, o) && Together(p0, q, o)
    ensures Tagged(s, Buddy(q, o), o) <==> Maximal(s.free, Buddy(q, o), o)
    ensures Maximal(s.free, Buddy(q, o), o) <==> Whole(s.free, Buddy(q, o), o)
  {
    var y := Buddy(q, o);
    BuddyFacts(q, o);
    Coarser(p0, q, o, o + 1);
    assert Holds(s.held, p0, p0);
    assert Together(p0, y, o + 1);
    assert !Whole(s.free, y, o + 1);
    if Tagged(s, y, o) && Interior(s.held, y) {
      var b :| Holds(s.held, b, y) && b != y;
      BuriedTag(s, p0, y, o, b);
    }
  }

  /** The probed page is never buried in a block in use. */
  lemma BuriedTag(s: Snapshot, p0: nat, y: nat, o: nat, b: nat)
    requires Consistent(s)
    requires p0 in s.held && s.held[p0] <= o
    requires Aligned(y, o) && Together(p0, y, o + 1) && !Together(p0, y, o)
    requires Holds(s.held, b, y)
    ensures b == y
  {
    var m := s.held[b];
    if m <= o {
      AlignedFiner(y, m, o);
      AlignedUnique(y, b, m);
    } else {
      Coarser(p0, y, o + 1, m);
      assert Holds(s.held, b, p0) && Holds(s.held, p0, p0);
      Coarser(y, p0, s.held[p0], o);
    }
  }

  /** Before any merging, no free block meets the block being given back. */
  lemma BeforeMerging(s: Snapshot, p0: nat)
    requires Consistent(s) && p0 in s.held
    ensures p0 < s.n && s.held[p0] < MAX_ORDER && Aligned(p0, s.held[p0])
    ensures s.free !! Block(p0, s.held[p0])
    ensures Whole(s.free + Block(p0, s.held[p0]), p0, s.held[p0])
    ensures forall b, k :: Maximal(s.free, b, k) ==> !Together(b, p0, s.held[p0])
  {
    BlockMembers(p0, s.held[p0]);
    assert Holds(s.held, p0, p0);
    assert forall z: nat :: z in Block(p0, s.held[p0]) ==> Holds(s.held, p0, z);
    forall b, k | Maximal(s.free, b, k)
      ensures !Together(b, p0, s.held[p0])
    {
      assert Together(b, b, k);
      assert b in s.free && !Holds(s.held, p0, b);
    }
  }

  /** When the probe fails, the block being given back cannot grow. */
  lemma ProbeFails(s: Snapshot, p0: nat, q: nat, o: nat)
    requires Consistent(s)
    requires p0 in s.held && s.held[p0] <= o < MAX_ORDER - 1
    requires Aligned(q, o) && Together(p0, q, o) && !Maximal(s.free, Buddy(q, o), o)
    ensures !Whole(s.free + Block(p0, s.held[p0]), q, o + 1)
  {
    var y, o0 := Buddy(q, o), s.held[p0];
    var all := s.free + Block(p0, o0);
    BuddyTest(s, p0, q, o);
    BuddyFacts(q, o);
    WholeCoarse(all, q, o);
    BlockMembers(p0, o0);
    var z: nat :| Together(z, y, o) && z !in s.free;
    if Together(z, p0, o0) {
      Coarser(z, p0, o0, o);
    }
  }

  /** When the probe succeeds, the block being given back doubles. */
  lemma ProbeSucceeds(s: Snapshot, p0: nat, q: nat, o: nat)
    requires Consistent(s)
    requires p0 in s.held && s.held[p0] <= o < MAX_ORDER - 1
    requires Aligned(q, o) && Together(p0, q, o) && Maximal(s.free, Buddy(q, o), o)
    requires Whole(s.free + Block(p0, s.held[p0]), q, o)
    ensures var q' := And(q, Buddy(q, o));
            && Aligned(q', o + 1) && Together(p0, q', o + 1) && q' <= q
            && Whole(s.free + Block(p0, s.held[p0]), q', o + 1)
  {
    var all := s.free + Block(p0, s.held[p0]);
    var q' := And(q, Buddy(q, o));
    BuddyFacts(q, o);
    assert Whole(all, Buddy(q, o), o);
    WholeCoarse(all, q, o);
    Coarser(p0, q, o, o + 1);
    forall z: nat | Together(z, q', o + 1)
      ensures z in all
    {
      assert Together(z, q, o + 1);
    }
  }

  /** The order of the lowest digit set in n, where that is the order of a probe: a probe hits index
      n from below only at this order. */
  predicate Boundary(n: nat, o: nat)
  {
    o < MAX_ORDER - 1 && Aligned(n, o) && Shr(n, o) % 2 == 1
  }

  /** In a zone of whole largest blocks, no probe leaves the zone. */
  lemma BuddyInside(n: nat, q: nat, o: nat)
    requires n % Pow2(MAX_ORDER - 1) == 0 && o < MAX_ORDER - 1
    requires q < n && Aligned(q, o)
    ensures Buddy(q, o) < n
  {
    var y, top := Buddy(q, o), MAX_ORDER - 1;
    BuddyFacts(q, o);
    Coarser(q, y, o + 1, top);
    ShrDiv(q, top);
    ShrDiv(y, top);
    SameQuotientBelow(q, y, n, Pow2(top));
  }

  lemma {:induction false} SameQuotientBelow(x: nat, y: nat, n: nat, a: nat)
    requires a > 0 && n % a == 0 && x < n && x / a == y / a
    ensures y < n
  {
    var m, k := n / a, x / a;
    var d := m - k;
    assert a * d == n - a * k by { MulAdd(a, m, k); }
    assert a * k <= x < n;
    MulSign(a, d);
    assert d >= 1 by { assert d <= 0 ==> a * d <= 0; }
    assert y < a * k + a;
  }

  // ----- giving a block back -----

  /** The state after the block at p0 was given back and merged into (q, o). */
  function Released(s: Snapshot, p0: nat, q: nat, o: nat): Snapshot
    requires p0 in s.held
  {
    s.(free := s.free + Block(p0, s.held[p0]), held := s.held - {p0}, tag := s.tag[q := o])
  }

  lemma ReleaseConsistent(s: Snapshot, p0: nat, q: nat, o: nat)
    requires Consistent(s)
    requires p0 in s.held && s.held[p0] <= o && Together(p0, q, o)
    requires Maximal(s.free + Block(p0, s.held[p0]), q, o)
    ensures Consistent(Released(s, p0, q, o))
  {
    var t := Released(s, p0, q, o);
    var o0 := s.held[p0];
    BlockMembers(p0, o0);
    assert forall z: nat :: Holds(s.held, p0, z) <==> Together(z, p0, o0);
    assert forall b: nat, z: nat :: Holds(t.held, b, z) <==> Holds(s.held, b, z) && b != p0;
    assert HeldApart(t);
    ReleaseCovers(s, p0, q, o);
    ReleaseTags(s, p0, q, o);
    assert s.free !! Block(p0, o0);
    forall b, k | Maximal(t.free, b, k)
      ensures Tagged(t, b, k)
    {
      AddResult(s.free, p0, o0, q, o, b, k);
    }
  }

  lemma ReleaseCovers(s: Snapshot, p0: nat, q: nat, o: nat)
    requires Consistent(s) && p0 in s.held
    ensures Covered(Released(s, p0, q, o))
  {
    var t := Released(s, p0, q, o);
    BlockMembers(p0, s.held[p0]);
    forall z: nat | z in t.free
      ensures z < t.n
    {
      assert z in s.free || Holds(s.held, p0, z);
    }
    forall z: nat | z < t.n && z !in t.free
      ensures InUse(t.held, z)
    {
      var b :| Holds(s.held, b, z);
      assert Holds(t.held, b, z);
    }
  }

  lemma ReleaseTags(s: Snapshot, p0: nat, q: nat, o: nat)
    requires Consistent(s)
    requires p0 in s.held && Maximal(s.free + Block(p0, s.held[p0]), q, o)
    ensures TagsSound(Released(s, p0, q, o))
  {
    var t := Released(s, p0, q, o);
    var o0 := s.held[p0];
    BlockMembers(p0, o0);
    forall p | p in t.tag && p != q
      ensures Whole(t.free, p, t.tag[p]) || Interior(t.held, p)
    {
      if Interior(s.held, p) {
        var b :| Holds(s.held, b, p) && b != p;
        if b == p0 {
          InteriorFits(p0, o0, p, s.tag[p]);
          WholeFiner(t.free, p0, p, s.tag[p], o0);
        } else {
          assert Holds(t.held, b, p);
        }
      } else {
        assert Whole(t.free, p, t.tag[p]);
      }
    }
  }

  /** A tagged page inside a block, other than its head, names a block smaller than it. */
  lemma InteriorFits(b: nat, o: nat, p: nat, k: nat)
    requires Aligned(b, o) && Aligned(p, k) && Together(p, b, o) && p != b
    ensures k < o
  {
    if o <= k {
      AlignedFiner(p, o, k);
      AlignedUnique(p, b, o);
    }
  }

  // ----- taking a block out -----

  /** The state after the free block (b, o) left its list and lost its tag. */
  function Taken(s: Snapshot, b: nat, o: nat): Snapshot
  {
    s.(free := s.free - Block(b, o), held := s.held[b := o], tag := s.tag - {b})
  }

  lemma TakeMaximal(free: set<nat>, b: nat, o: nat, x: nat, k: nat)
    requires Maximal(free, b, o)
    ensures Maximal(free - Block(b, o), x, k) <==> Maximal(free, x, k) && !(x == b && k == o)
  {
    var rest := free - Block(b, o);
    BlockMembers(b, o);
    assert rest + Block(b, o) == free;
    AddResult(rest, b, o, b, o, x, k);
    assert Maximal(rest, x, k) ==> Together(x, x, k) && x in rest;
  }

  lemma TakeConsistent(s: Snapshot, b: nat, o: nat)
    requires Consistent(s) && Maximal(s.free, b, o)
    ensures Consistent(Taken(s, b, o))
  {
    var t := Taken(s, b, o);
    BlockMembers(b, o);
    assert Together(b, b, o) && b in s.free;
    assert !Holds(s.held, b, b) && b !in s.held;
    assert forall a: nat, z: nat :: Holds(t.held, a, z) <==> Holds(s.held, a, z) || (a == b && Together(z, b, o));
    assert HeldApart(t);
    TakeCovers(s, b, o);
    forall p | p in t.tag
      ensures Whole(t.free, p, t.tag[p]) || Interior(t.held, p)
    {
      if Interior(s.held, p) {
        var a :| Holds(s.held, a, p) && a != p;
        assert Holds(t.held, a, p);
      } else {
        TakeTag(s, b, o, p);
      }
    }
    forall x, k | Maximal(t.free, x, k)
      ensures Tagged(t, x, k)
    {
      TakeMaximal(s.free, b, o, x, k);
    }
  }

  lemma TakeCovers(s: Snapshot, b: nat, o: nat)
    requires Consistent(s) && Maximal(s.free, b, o) && b !in s.held
    ensures Covered(Taken(s, b, o))
  {
    var t := Taken(s, b, o);
    BlockMembers(b, o);
    forall z: nat | z < t.n && z !in t.free
      ensures InUse(t.held, z)
    {
      if z in s.free {
        assert Holds(t.held, b, z);
      } else {
        var a :| Holds(s.held, a, z);
        assert Holds(t.held, a, z);
      }
    }
  }

  lemma TakeTag(s: Snapshot, b: nat, o: nat, p: nat)
    requires Maximal(s.free, b, o)
    requires p in s.tag && p != b && s.tag[p] < MAX_ORDER && Aligned(p, s.tag[p]) && Whole(s.free, p, s.tag[p])
    ensures Whole(Taken(s, b, o).free, p, s.tag[p]) || Interior(Taken(s, b, o).held, p)
  {
    var t := Taken(s, b, o);
    var k := s.tag[p];
    BlockMembers(b, o);
    if Together(p, b, o) {
      assert Holds(t.held, b, p);
    } else {
      forall z: nat | Together(z, p, k)
        ensures z in t.free
      {
        if Together(z, b, o) {
          if k <= o {
            Coarser(z, p, k, o);
          } else {
            InsideWhole(s.free, b, o, p, k, z);
          }
        }
      }
    }
  }

  // ----- splitting a block in use -----

  /** The state after the upper half of the order-(o+1) block at b went back to the free lists. */
  function Split(s: Snapshot, b: nat, o: nat): Snapshot
  {
    var u := b + Pow2(o);
    s.(free := s.free + Block(u, o), held := s.held[b := o], tag := s.tag[u := o])
  }

  lemma HalvesFacts(b: nat, o: nat)
    requires Aligned(b, o + 1)
    ensures b + Pow2(o) == Buddy(b, o)
    ensures Aligned(b, o) && Aligned(b + Pow2(o), o) && !Together(b, b + Pow2(o), o)
    ensures Together(b, b + Pow2(o), o + 1)
    ensures forall z: nat :: Together(z, b, o + 1) <==> Together(z, b, o) || Together(z, b + Pow2(o), o)
  {
    BuddyFacts(b, o);
    XorBit(b, o);
    var u := b + Pow2(o);
    forall z: nat | Together(z, b, o) || Together(z, u, o)
      ensures Together(z, b, o + 1)
    {
      if Together(z, u, o) {
        Coarser(z, u, o, o + 1);
      } else {
        Coarser(z, b, o, o + 1);
      }
    }
  }

  lemma SplitUpperMaximal(s: Snapshot, b: nat, o: nat)
    requires Consistent(s) && b in s.held && s.held[b] == o + 1
    ensures Aligned(b + Pow2(o), o) && s.free !! Block(b + Pow2(o), o)
    ensures Maximal(Split(s, b, o).free, b + Pow2(o), o)
  {
    var t := Split(s, b, o);
    var u := b + Pow2(o);
    HalvesFacts(b, o);
    BlockMembers(u, o);
    forall z: nat | z in Block(u, o)
      ensures z !in s.free
    {
      assert Holds(s.held, b, z);
    }
    assert Holds(s.held, b, b);
    assert b !in t.free && Together(b, u, o + 1);
  }

  lemma SplitMaximal(s: Snapshot, b: nat, o: nat, x: nat, k: nat)
    requires Consistent(s) && b in s.held && s.held[b] == o + 1
    ensures Maximal(Split(s, b, o).free, x, k) <==>
            Maximal(s.free, x, k) || (x == b + Pow2(o) && k == o)
  {
    var u := b + Pow2(o);
    SplitUpperMaximal(s, b, o);
    AddResult(s.free, u, o, u, o, x, k);
    BlockMembers(u, o);
    assert Maximal(s.free, x, k) ==> Together(x, x, k) && x in s.free;
  }

  lemma SplitConsistent(s: Snapshot, b: nat, o: nat)
    requires Consistent(s) && b in s.held && s.held[b] == o + 1
    ensures Consistent(Split(s, b, o))
  {
    var t := Split(s, b, o);
    SplitApart(s, b, o);
    SplitCovers(s, b, o);
    hide Consistent, Maximal, Whole, Interior, HeldApart, Covered;
    SplitUpperMaximal(s, b, o);
    forall p | p in t.tag
      ensures t.tag[p] < MAX_ORDER && Aligned(p, t.tag[p])
      ensures Whole(t.free, p, t.tag[p]) || Interior(t.held, p)
    {
      SplitTagSound(s, b, o, p);
    }
    forall x, k | Maximal(t.free, x, k)
      ensures Tagged(t, x, k)
    {
      SplitHead(s, b, o, x, k);
    }
    assert Consistent(t) by {
      assert TagsSound(t) && HeadsTagged(t);
      ConsistentParts(t);
    }
  }

  lemma ConsistentParts(t: Snapshot)
    requires HeldApart(t) && Covered(t) && TagsSound(t) && HeadsTagged(t)
    ensures Consistent(t)
  {
  }

  lemma SplitApart(s: Snapshot, b: nat, o: nat)
    requires Consistent(s) && b in s.held && s.held[b] == o + 1
    ensures HeldApart(Split(s, b, o))
  {
    var t := Split(s, b, o);
    var u := b + Pow2(o);
    SplitUpperMaximal(s, b, o);
    HalvesFacts(b, o);
    BlockMembers(u, o);
    assert forall z: nat :: Holds(s.held, b, z) <==> Together(z, b, o + 1);
    assert forall a: nat, z: nat :: a != b ==> (Holds(t.held, a, z) <==> Holds(s.held, a, z));
    assert forall z: nat :: Holds(t.held, b, z) <==> Together(z, b, o);
    forall a: nat, z: nat | Holds(t.held, a, z)
      ensures z < t.n && z !in t.free
    {
      assert Holds(s.held, a, z);
      assert Together(z, u, o) ==> Holds(s.held, b, z);
    }
    assert forall a: nat, z: nat :: Holds(t.held, a, z) ==> Holds(s.held, a, z);
  }

  lemma SplitTagSound(s: Snapshot, b: nat, o: nat, p: nat)
    requires Consistent(s) && b in s.held && s.held[b] == o + 1 && p in Split(s, b, o).tag
    ensures var t := Split(s, b, o);
            && t.tag[p] < MAX_ORDER && Aligned(p, t.tag[p])
            && (Whole(t.free, p, t.tag[p]) || Interior(t.held, p))
  {
    SplitUpperMaximal(s, b, o);
    if p != b + Pow2(o) {
      SplitTag(s, b, o, p);
    }
  }

  lemma SplitHead(s: Snapshot, b: nat, o: nat, x: nat, k: nat)
    requires Consistent(s) && b in s.held && s.held[b] == o + 1 && Maximal(Split(s, b, o).free, x, k)
    ensures Tagged(Split(s, b, o), x, k)
  {
    SplitMaximal(s, b, o, x, k);
    SplitUpperMaximal(s, b, o);
    BlockMembers(b + Pow2(o), o);
    assert Maximal(s.free, x, k) ==> Together(x, x, k) && x in s.free;
  }

  lemma SplitCovers(s: Snapshot, b: nat, o: nat)
    requires Consistent(s) && b in s.held && s.held[b] == o + 1
    ensures Covered(Split(s, b, o))
  {
    var t := Split(s, b, o);
    var u := b + Pow2(o);
    HalvesFacts(b, o);
    BlockMembers(u, o);
    forall z: nat | z in t.free
      ensures z < t.n
    {
      assert z in s.free || Holds(s.held, b, z);
    }
    forall z: nat | z < t.n && z !in t.free
      ensures InUse(t.held, z)
    {
      var a :| Holds(s.held, a, z);
      assert Holds(t.held, a, z);
    }
  }

  lemma SplitTag(s: Snapshot, b: nat, o: nat, p: nat)
    requires Consistent(s) && b in s.held && s.held[b] == o + 1
    requires p in s.tag && p != b + Pow2(o)
    ensures Whole(Split(s, b, o).free, p, s.tag[p]) || Interior(Split(s, b, o).held, p)
  {
    var t := Split(s, b, o);
    var u := b + Pow2(o);
    HalvesFacts(b, o);
    BlockMembers(u, o);
    if Interior(s.held, p) {
      var a :| Holds(s.held, a, p) && a != p;
      if a == b && Together(p, u, o) {
        InteriorFits(u, o, p, s.tag[p]);
        WholeFiner(t.free, u, p, s.tag[p], o);
      } else {
        assert Holds(t.held, a, p);
      }
    } else {
      assert Whole(t.free, p, s.tag[p]);
    }
  }

  // ----- growing by one order -----

  /** Merging (q, o) with its free buddy removes exactly that buddy from the blocks outside. */
  lemma MergeStep(free: set<nat>, q: nat, o: nat, b: nat, k: nat)
    requires Aligned(q, o) && o < MAX_ORDER - 1 && Maximal(free, Buddy(q, o), o)
    ensures var q' := And(q, Buddy(q, o));
            (Maximal(free, b, k) && !Together(b, q', o + 1)) <==>
            (Maximal(free, b, k) && !Together(b, q, o) && !(b == Buddy(q, o) && k == o))
  {
    var y := Buddy(q, o);
    BuddyFacts(q, o);
    if Maximal(free, b, k) {
      if Together(b, q, o) {
        Coarser(b, q, o, o + 1);
      } else if Together(b, q, o + 1) {
        MaximalUnique(free, b, k, y, o, b);
      }
    }
  }

  /** The lists hold the maximal free blocks that lie outside the block (q, order). */
  ghost predicate Outside(lists: seq<seq<nat>>, free: set<nat>, q: nat, order: nat)
  {
    && |lists| == MAX_ORDER
    && forall o, b: nat :: 0 <= o < MAX_ORDER ==>
         (b in lists[o] <==> Maximal(free, b, o) && !Together(b, q, order))
  }

  /** Taking the buddy off its list leaves the blocks outside the doubled block. */
  lemma MergeOutside(lists: seq<seq<nat>>, cut: seq<seq<nat>>, free: set<nat>, q: nat, order: nat)
    requires Outside(lists, free, q, order) && |cut| == MAX_ORDER
    requires Aligned(q, order) && order < MAX_ORDER - 1 && Maximal(free, Buddy(q, order), order)
    requires forall o :: 0 <= o < MAX_ORDER && o != order ==> cut[o] == lists[o]
    requires forall x :: x in cut[order] <==> x in lists[order] && x != Buddy(q, order)
    ensures Outside(cut, free, And(q, Buddy(q, order)), order + 1)
  {
    forall o, b: nat | 0 <= o < MAX_ORDER
      ensures b in cut[o] <==> Maximal(free, b, o) && !Together(b, And(q, Buddy(q, order)), order + 1)
    {
      MergeStep(free, q, order, b, o);
    }
  }

  /** The lists hold exactly the maximal free blocks. */
  ghost predicate Listing(lists: seq<seq<nat>>, free: set<nat>)
  {
    && |lists| == MAX_ORDER
    && forall o, b: nat :: 0 <= o < MAX_ORDER ==> (b in lists[o] <==> Maximal(free, b, o))
  }

  /** While the block at p0 is being given back: it has grown to (q, order), which is wholly
      free or p0's, and the blocks it swallowed are off the lists. */
  ghost predicate Growing(s: Snapshot, lists: seq<seq<nat>>, p0: nat, q: nat, order: nat)
  {
    && p0 in s.held && s.held[p0] <= order < MAX_ORDER && q < s.n
    && Aligned(q, order) && Together(p0, q, order)
    && Whole(s.free + Block(p0, s.held[p0]), q, order)
    && Outside(lists, s.free, q, order)
  }

  /** The block at p0 has grown as far as it can. */
  ghost predicate GrownFully(s: Snapshot, p0: nat, q: nat, order: nat)
  {
    p0 in s.held && Maximal(s.free + Block(p0, s.held[p0]), q, order)
  }

  lemma GrowTop(s: Snapshot, lists: seq<seq<nat>>, p0: nat, q: nat, order: nat)
    requires Growing(s, lists, p0, q, order) && order >= MAX_ORDER - 1
    ensures GrownFully(s, p0, q, order)
  {
  }

  lemma GrowStart(s: Snapshot, lists: seq<seq<nat>>, p0: nat)
    requires Consistent(s) && p0 in s.held && Listing(lists, s.free)
    ensures Growing(s, lists, p0, p0, s.held[p0])
  {
    BeforeMerging(s, p0);
  }

  /** What the allocator learns from probing the buddy. */
  lemma GrowProbe(s: Snapshot, lists: seq<seq<nat>>, p0: nat, q: nat, order: nat)
    requires Consistent(s) && Growing(s, lists, p0, q, order) && order < MAX_ORDER - 1
    ensures p0 in s.held && s.held[p0] <= order && q < s.n && Aligned(q, order) && Together(p0, q, order)
    ensures Maximal(s.free, Buddy(q, order), order) ==> Buddy(q, order) < s.n
    ensures Buddy(q, order) == s.n ==> Boundary(s.n, order)
    ensures |lists| == MAX_ORDER
    ensures Tagged(s, Buddy(q, order), order) <==> Maximal(s.free, Buddy(q, order), order)
    ensures Maximal(s.free, Buddy(q, order), order) ==> Buddy(q, order) in lists[order]
    ensures !Maximal(s.free, Buddy(q, order), order) ==> GrownFully(s, p0, q, order)
  {
    BuddyFacts(q, order);
    BuddyTest(s, p0, q, order);
    BuddyOrder(q, order);
    assert Maximal(s.free, Buddy(q, order), order) ==> Together(Buddy(q, order), Buddy(q, order), order);
    if !Maximal(s.free, Buddy(q, order), order) {
      ProbeFails(s, p0, q, order);
    }
  }

  /** Taking the free buddy off its list makes the block twice as large. */
  lemma GrowStep(s: Snapshot, lists: seq<seq<nat>>, cut: seq<seq<nat>>, p0: nat, q: nat, order: nat)
    requires Consistent(s)
    requires Growing(s, lists, p0, q, order) && order < MAX_ORDER - 1
    requires Maximal(s.free, Buddy(q, order), order) && |cut| == MAX_ORDER
    requires forall o :: 0 <= o < MAX_ORDER && o != order ==> cut[o] == lists[o]
    requires forall x :: x in cut[order] <==> x in lists[order] && x != Buddy(q, order)
    ensures Growing(s, cut, p0, And(q, Buddy(q, order)), order + 1)
  {
    MergeOutside(lists, cut, s.free, q, order);
    ProbeSucceeds(s, p0, q, order);
  }

  /** Putting the merged block on its list restores the listing. */
  lemma GrowEnd(s: Snapshot, lists: seq<seq<nat>>, p0: nat, q: nat, order: nat)
    requires Consistent(s) && Growing(s, lists, p0, q, order) && GrownFully(s, p0, q, order)
    ensures q < s.n && order < MAX_ORDER == |lists|
    ensures forall o :: 0 <= o < |lists| ==> q !in lists[o]
    ensures Listing(lists[order := [q] + lists[order]], s.free + Block(p0, s.held[p0]))
    ensures Consistent(Released(s, p0, q, order))
  {
    assert forall o :: 0 <= o < MAX_ORDER ==> (q in lists[o] ==> !Together(q, q, order));
    BeforeMerging(s, p0);
    forall o, b: nat | 0 <= o < MAX_ORDER
      ensures b in lists[order := [q] + lists[order]][o] <==> Maximal(s.free + Block(p0, s.held[p0]), b, o)
    {
      AddResult(s.free, p0, s.held[p0], q, order, b, o);
    }
    ReleaseConsistent(s, p0, q, order);
  }

  // ----- what stays on the lists, in order -----

  /** The entries of a list that are not in s, in their order. */
  function Except(list: seq<nat>, s: set<nat>): seq<nat>
  {
    if list == [] then []
    else (if list[0] in s then [] else [list[0]]) + Except(list[1..], s)
  }

  lemma {:induction false} ExceptSame(list: seq<nat>, s: set<nat>, t: set<nat>)
    requires forall x :: x in list ==> (x in s <==> x in t)
    ensures Except(list, s) == Except(list, t)
  {
    if list == [] {
    } else {
      ExceptSame(list[1..], s, t);
    }
  }

  lemma {:induction false} ExceptTwice(list: seq<nat>, s: set<nat>, t: set<nat>)
    ensures Except(Except(list, s), t) == Except(list, s + t)
  {
    if list == [] {
    } else {
      var rest := Except(list[1..], s);
      ExceptTwice(list[1..], s, t);
      assert ([list[0]] + rest)[1..] == rest;
      assert [] + rest == rest;
    }
  }

  lemma {:induction false} ExceptNone(list: seq<nat>, s: set<nat>)
    requires forall x :: x in list ==> x !in s
    ensures Except(list, s) == list
  {
    if list == [] {
    } else {
      ExceptNone(list[1..], s);
    }
  }

  lemma {:induction false} ExceptParts(a: seq<nat>, b: seq<nat>, s: set<nat>)
    ensures Except(a + b, s) == Except(a, s) + Except(b, s)
  {
    if a == [] {
      assert a + b == b;
    } else {
      assert (a + b)[1..] == a[1..] + b;
      ExceptParts(a[1..], b, s);
    }
  }

  lemma {:induction false} ExceptMiddle(low: seq<nat>, x: nat, high: seq<nat>)
    requires x !in low && x !in high
    ensures Except(low + ([x] + high), {x}) == low + high
  {
    ExceptParts(low, [x] + high, {x});
    ExceptNone(low, {x});
    ExceptNone(high, {x});
    ExceptHead(x, high);
  }

  lemma ExceptHead(x: nat, rest: seq<nat>)
    ensures Except([x] + rest, {x}) == Except(rest, {x})
  {
    assert ([x] + rest)[1..] == rest;
  }

  /** Leaving out an entry that stands on a list once. */
  lemma {:induction false} ExceptOne(list: seq<nat>, k: nat)
    requires k < |list| && list[k] !in list[..k] && list[k] !in list[k + 1..]
    ensures Except(list, {list[k]}) == list[..k] + list[k + 1..]
  {
    hide Except;
    ExceptMiddle(list[..k], list[k], list[k + 1..]);
    assert list[..k] + ([list[k]] + list[k + 1..]) == list;
  }

  /** Every list is the earlier one without the blocks inside (q, order), in the same order. */
  ghost predicate Swallowed(before: seq<seq<nat>>, lists: seq<seq<nat>>, q: nat, order: nat)
  {
    && |lists| == |before| == MAX_ORDER
    && forall k :: 0 <= k < MAX_ORDER ==> lists[k] == Except(before[k], Block(q, order))
  }

  lemma SwallowStart(s: Snapshot, lists: seq<seq<nat>>, p0: nat)
    requires Consistent(s) && p0 in s.held && Listing(lists, s.free)
    ensures Swallowed(lists, lists, p0, s.held[p0])
  {
    BeforeMerging(s, p0);
    BlockMembers(p0, s.held[p0]);
    forall k | 0 <= k < MAX_ORDER
      ensures lists[k] == Except(lists[k], Block(p0, s.held[p0]))
    {
      assert forall b: nat :: b in lists[k] ==> Maximal(s.free, b, k);
      ExceptNone(lists[k], Block(p0, s.held[p0]));
    }
  }

  /** Taking the free buddy off its list leaves what lies outside the doubled block. */
  lemma SwallowStep(free: set<nat>, before: seq<seq<nat>>, lists: seq<seq<nat>>, cut: seq<seq<nat>>,
                    q: nat, order: nat)
    requires Listing(before, free) && Swallowed(before, lists, q, order)
    requires Aligned(q, order) && order < MAX_ORDER - 1 && Maximal(free, Buddy(q, order), order)
    requires cut == lists[order := Except(lists[order], {Buddy(q, order)})]
    ensures Swallowed(before, cut, And(q, Buddy(q, order)), order + 1)
  {
    var y := Buddy(q, order);
    var q' := And(q, y);
    BuddyFacts(q, order);
    BlockMembers(q, order);
    BlockMembers(q', order + 1);
    hide Block, Maximal, Aligned, Together, Buddy;
    forall k: nat | k < MAX_ORDER
      ensures cut[k] == Except(before[k], Block(q', order + 1))
    {
      var gone := Block(q, order) + if k == order then {y} else {};
      ExceptTwice(before[k], Block(q, order), {y});
      assert Block(q, order) + {} == Block(q, order);
      assert cut[k] == Except(before[k], gone);
      forall b: nat | b in before[k]
        ensures b in gone <==> b in Block(q', order + 1)
      {
        MergeStep(free, q, order, b, k);
      }
      ExceptSame(before[k], gone, Block(q', order + 1));
    }
  }

  lemma SwallowEnd(s: Snapshot, before: seq<seq<nat>>, lists: seq<seq<nat>>, p0: nat, q: nat, order: nat)
    requires Growing(s, lists, p0, q, order) && Swallowed(before, lists, q, order)
    ensures InRange(p0, q, order) && order < MAX_ORDER == |lists| == |before|
    ensures forall k :: 0 <= k < MAX_ORDER ==> lists[k] == Except(before[k], Block(q, order))
  {
    TogetherInterval(p0, q, order);
  }

  // ----- giving pages back in ascending order -----

  ghost predicate Falls(list: seq<nat>)
  {
    forall i, j :: 0 <= i < j < |list| ==> list[i] > list[j]
  }

  /** Every list runs from the highest block to the lowest. */
  ghost predicate Descending(lists: seq<seq<nat>>)
  {
    |lists| == MAX_ORDER && forall k :: 0 <= k < MAX_ORDER ==> Falls(lists[k])
  }

  lemma FallsFrom(x: nat, rest: seq<nat>)
    requires Falls(rest) && forall y :: y in rest ==> y < x
    ensures Falls([x] + rest)
  {
    var list := [x] + rest;
    forall i, j | 0 <= i < j < |list|
      ensures list[i] > list[j]
    {
      assert list[j] == rest[j - 1] && rest[j - 1] in rest;
    }
  }

  lemma {:induction false} ExceptFalls(list: seq<nat>, s: set<nat>)
    requires Falls(list)
    ensures Falls(Except(list, s))
    ensures forall x :: x in Except(list, s) <==> x in list && x !in s
  {
    if list == [] {
    } else {
      var rest := Except(list[1..], s);
      ExceptFalls(list[1..], s);
      assert forall x :: x in list <==> x == list[0] || x in list[1..];
      assert forall x :: x in list[1..] ==> x < list[0];
      FallsFrom(list[0], rest);
      assert [] + rest == rest;
    }
  }

  /** Giving back a page above all free ones keeps every list descending: whatever block it ends up in
      starts above all blocks that remain. */
  lemma DescendingStep(before: seq<seq<nat>>, lists: seq<seq<nat>>, free: set<nat>, p: nat, head: nat, order: nat)
    requires Descending(before) && Listing(before, free) && (forall x :: x in free ==> x < p)
    requires |lists| == MAX_ORDER > order && InRange(p, head, order)
    requires forall k :: 0 <= k < MAX_ORDER ==>
               lists[k] == (if k == order then [head] else []) + Except(before[k], Block(head, order))
    ensures Descending(lists)
  {
    hide Except, Block, Maximal, Falls;
    forall k: nat | k < MAX_ORDER
      ensures Falls(lists[k])
    {
      var rest := Except(before[k], Block(head, order));
      ExceptFalls(before[k], Block(head, order));
      assert [] + rest == rest;
      forall b | b in rest
        ensures b < head
      {
        ListedFree(before, free, k, b);
        BlockMember(head, order, b);
      }
      if k == order {
        FallsFrom(head, rest);
      }
    }
  }

  lemma ListedFree(lists: seq<seq<nat>>, free: set<nat>, k: nat, b: nat)
    requires Listing(lists, free) && k < MAX_ORDER && b in lists[k]
    ensures b in free
  {
    assert Maximal(free, b, k) && Together(b, b, k);
  }

  // ----- steps of an allocation -----

  /** Taking a listed block off its list, as a block in use. */
  lemma TakeStep(s: Snapshot, lists: seq<seq<nat>>, cut: seq<seq<nat>>, b: nat, o: nat)
    requires Consistent(s) && Listing(lists, s.free) && o < MAX_ORDER && |cut| == MAX_ORDER && b in lists[o]
    requires forall p :: 0 <= p < MAX_ORDER && p != o ==> cut[p] == lists[p]
    requires forall x :: x in cut[o] <==> x in lists[o] && x != b
    ensures Aligned(b, o) && Block(b, o) <= s.free && b !in s.held && b < s.n
    ensures Consistent(Taken(s, b, o)) && Listing(cut, Taken(s, b, o).free)
  {
    assert Maximal(s.free, b, o);
    BlockMembers(b, o);
    TakeConsistent(s, b, o);
    assert Together(b, b, o);
    assert !Holds(s.held, b, b);
    forall p, x: nat | 0 <= p < MAX_ORDER
      ensures x in cut[p] <==> Maximal(Taken(s, b, o).free, x, p)
    {
      TakeMaximal(s.free, b, o, x, p);
    }
  }

  /** Listing the upper half of a block in use. */
  lemma SplitStep(s: Snapshot, lists: seq<seq<nat>>, b: nat, o: nat)
    requires Consistent(s) && Listing(lists, s.free) && b in s.held && s.held[b] == o + 1
    ensures b + Pow2(o) < s.n && o < MAX_ORDER
    ensures forall p :: 0 <= p < |lists| ==> b + Pow2(o) !in lists[p]
    ensures Consistent(Split(s, b, o))
    ensures Listing(lists[o := lists[o] + [b + Pow2(o)]], Split(s, b, o).free)
  {
    var u := b + Pow2(o);
    SplitUpperMaximal(s, b, o);
    HalvesFacts(b, o);
    assert Holds(s.held, b, u);
    assert forall p :: 0 <= p < MAX_ORDER ==> (Maximal(s.free, u, p) ==> Together(u, u, p));
    SplitConsistent(s, b, o);
    SplitListing(s, lists, b, o);
  }

  lemma SplitListing(s: Snapshot, lists: seq<seq<nat>>, b: nat, o: nat)
    requires Consistent(s) && Listing(lists, s.free) && b in s.held && s.held[b] == o + 1 && o < MAX_ORDER
    ensures Listing(lists[o := lists[o] + [b + Pow2(o)]], Split(s, b, o).free)
  {
    var u := b + Pow2(o);
    hide Consistent, Maximal, Split, Pow2;
    forall p, x: nat | 0 <= p < MAX_ORDER
      ensures x in lists[o := lists[o] + [u]][p] <==> Maximal(Split(s, b, o).free, x, p)
    {
      SplitMaximal(s, b, o, x, p);
    }
  }

  lemma SplitBlock(b: nat, o: nat)
    ensures Block(b, o + 1) == Block(b, o) + Block(b + Pow2(o), o)
    ensures Block(b, o) !! Block(b + Pow2(o), o)
  {
    assert Pow2(o + 1) == 2 * Pow2(o);
    hide Pow2;
    forall z: nat
      ensures z in Block(b, o + 1) <==> z in Block(b, o) || z in Block(b + Pow2(o), o)
      ensures z in Block(b, o) ==> z !in Block(b + Pow2(o), o)
    {
      BlockMember(b, o + 1, z);
      BlockMember(b, o, z);
      BlockMember(b + Pow2(o), o, z);
    }
    hide Block;
    assert Block(b, o + 1) == Block(b, o) + Block(b + Pow2(o), o);
  }

  /** With all lists from `order` up empty, no aligned block of that order is wholly free. */
  lemma NothingFits(lists: seq<seq<nat>>, free: set<nat>, order: nat)
    requires Listing(lists, free)
    requires forall o :: order <= o < MAX_ORDER ==> lists[o] == []
    ensures order >= MAX_ORDER || forall b: nat :: Aligned(b, order) ==> !Whole(free, b, order)
  {
    if order < MAX_ORDER {
      forall b: nat | Aligned(b, order)
        ensures !Whole(free, b, order)
      {
        if Whole(free, b, order) {
          SomeListFits(lists, free, order, b);
        }
      }
    }
  }

  lemma SomeListFits(lists: seq<seq<nat>>, free: set<nat>, order: nat, b: nat)
    requires Listing(lists, free) && order < MAX_ORDER && Aligned(b, order) && Whole(free, b, order)
    ensures exists o :: order <= o < MAX_ORDER && lists[o] != []
  {
    var a, p := MaximalCovers(free, b, b, order);
    assert a in lists[p];
  }

  /** The first 2^order pages of a free block of at least that order are a block. */
  lemma BlockPrefix(free: set<nat>, b: nat, order: nat, o: nat)
    requires Aligned(b, o) && Block(b, o) <= free && order <= o
    ensures Aligned(b, order) && Whole(free, b, order)
  {
    AlignedFiner(b, order, o);
    BlockMembers(b, o);
    forall z: nat | Together(z, b, order)
      ensures z in free
    {
      Coarser(z, b, order, o);
    }
  }

  // ----- the state before any page is given back -----

  predicate IsIndex(p: nat, n: nat)
  {
    p < n
  }

  function Singles(n: nat): map<nat, nat>
  {
    map p: nat | p < n && IsIndex(p, n) :: 0
  }

  lemma FreshConsistent(n: nat)
    ensures Consistent(Snapshot(n, {}, Singles(n), map[]))
  {
    var s := Snapshot(n, {}, Singles(n), map[]);
    assert forall b: nat, z: nat :: Holds(s.held, b, z) <==> IsIndex(b, n) && b == z;
    forall b, o
      ensures !Maximal({}, b, o)
    {
      NoneMaximal(b, o);
    }
    forall z: nat | z < n
      ensures InUse(s.held, z)
    {
      assert IsIndex(z, n) && Holds(s.held, z, z);
    }
  }

  lemma NoneMaximal(b: nat, o: nat)
    ensures !Maximal({}, b, o)
  {
    assert Together(b, b, o);
  }

  /** The head of a block in use carries no tag. */
  lemma HeldUntagged(s: Snapshot, b: nat)
    requires Consistent(s) && b in s.held
    ensures b !in s.tag && b !in s.free
  {
    assert Holds(s.held, b, b);
    if b in s.tag {
      assert Together(b, b, s.tag[b]);
    }
  }
}
