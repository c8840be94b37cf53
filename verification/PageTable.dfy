/** The kernel's page tables: what `init_page_table` stores, and what the processor's
    two-level walk makes of it (32-bit paging, 4-KiB pages). */
module PageTable {
  import opened Bits
  import opened Machine

  const PAGE_OFFSET: nat := 0xC000_0000
  const PTRS_PER_PGD: nat := 1024
  const PTRS_PER_PTE: nat := 1024

  const PRESENT: nat := 0x001
  const RW: nat := 0x002
  const USER: nat := 0x004
  const ACCESSED: nat := 0x020
  const DIRTY: nat := 0x040
  const PSE: nat := 0x080

  /** _PAGE_KERNEL_EXEC and _PAGE_KERNEL; _PAGE_NX is 0 here, so they are the same. */
  const KERNEL_EXEC := PRESENT + RW + DIRTY + ACCESSED
  const KERNEL := PRESENT + RW + DIRTY + ACCESSED

  /** Index of the directory entry for an address. */
  function PgdIndex(address: nat): nat
  {
    address / 0x40_0000 % PTRS_PER_PGD
  }

  // ----- the processor's walk -----

  datatype Translation = Fault | Page(physical: nat, writable: bool, user: bool)

  predicate BitSet(entry: nat, bit: nat)
    requires bit > 0
  {
    entry / bit % 2 == 1
  }

  /** Translation of a 32-bit virtual address through the directory at physical address `dir`,
      over physical memory given as 32-bit words. A large-page entry is not followed. */
  function Walk(mem: seq<nat>, dir: nat, va: nat): Translation
  {
    var d := dir / 4 + va / 0x40_0000;
    if d >= |mem| then Fault
    else
      var pde := mem[d];
      if !BitSet(pde, PRESENT) || BitSet(pde, PSE) then Fault
      else
        var t := pde / PAGE_SIZE * PAGE_SIZE / 4 + va / PAGE_SIZE % 1024;
        if t >= |mem| then Fault
        else
          var pte := mem[t];
          if !BitSet(pte, PRESENT) then Fault
          else Page(pte / PAGE_SIZE * PAGE_SIZE + va % PAGE_SIZE,
                    BitSet(pde, RW) && BitSet(pte, RW), BitSet(pde, USER) && BitSet(pte, USER))
  }

  // ----- entries -----

  /** `pfn_pte(pfn, flags)`. */
  function PfnPte(pfn: nat, flags: nat): nat
  {
    Or(pfn * PAGE_SIZE, flags)
  }

  /** The directory entry for a table at a kernel virtual address. */
  function TableEntry(pteBase: nat): nat
    requires pteBase < WORD
  {
    assert Pow2(32) == WORD by { WordIsPow2(); }
    (Or(Or(And(pteBase, Not(PAGE_SIZE - 1, 32)), RW), PRESENT) + WORD - PAGE_OFFSET) % WORD
  }

  lemma PfnPteIs(pfn: nat, flags: nat)
    requires flags < PAGE_SIZE
    ensures PfnPte(pfn, flags) == pfn * PAGE_SIZE + flags
  {
    assert Pow2(12) == PAGE_SIZE by { PageIsPow2(); }
    OrSum(pfn * PAGE_SIZE, flags, 12);
  }

  lemma PageIsPow2()
    ensures Pow2(12) == PAGE_SIZE
  {
    assert Pow2(6) == 64;
    Pow2Split(6, 6);
  }

  lemma TableEntryIs(pteBase: nat)
    requires PAGE_OFFSET <= pteBase < WORD && pteBase % PAGE_SIZE == 0
    ensures TableEntry(pteBase) == pteBase - PAGE_OFFSET + RW + PRESENT
  {
    assert Pow2(1) == 2;
    hide And, Or, Not, Pow2, RoundDown;
    WordIsPow2();
    PageIsPow2();
    AndMask(pteBase, 12, 32);
    RoundDownIs(pteBase, 12);
    OrSum(pteBase, RW, 12);
    EvenSum(pteBase);
    OrSum(pteBase + RW, PRESENT, 1);
  }

  lemma EvenSum(x: nat)
    requires x % PAGE_SIZE == 0
    ensures (x + RW) % 2 == 0
  {
    DivUnique(x + RW, 2, 2048 * (x / PAGE_SIZE) + 1, 0);
  }

  // ----- what the tables hold -----

  /** The kernel's part of the directory, at word `dir`, names 256 consecutive tables at word
      `tables`, whose entries map page frames 0, 1, 2, ... */
  ghost predicate Mapped(mem: seq<nat>, dir: nat, tables: nat)
  {
    && dir + PTRS_PER_PGD <= |mem| && tables + 256 * PTRS_PER_PTE <= |mem|
    && (forall w :: dir + 768 <= w < dir + PTRS_PER_PGD ==>
          mem[w] == tables * 4 + (w - dir - 768) * PAGE_SIZE + RW + PRESENT)
    && (forall w :: tables <= w < tables + 256 * PTRS_PER_PTE ==> mem[w] == (w - tables) * PAGE_SIZE + KERNEL)
  }

  /** The words stored: directory entries with the present and writable bits, table entries with the
      accessed and dirty bits as well, and none of the other flags. */
  lemma StoredWords(mem: seq<nat>, dir: nat, tables: nat, w: nat)
    requires Mapped(mem, dir, tables)
    ensures w < 256 ==> mem[dir + 768 + w] == 4 * tables + w * 4096 + 0x003
    ensures w < 0x4_0000 ==> mem[tables + w] == w * 4096 + 0x063
  {
    if w < 256 {
      assert mem[dir + 768 + w] == tables * 4 + (dir + 768 + w - dir - 768) * PAGE_SIZE + RW + PRESENT;
    }
    if w < 0x4_0000 {
      assert mem[tables + w] == (tables + w - tables) * PAGE_SIZE + KERNEL;
    }
  }

  /** Every kernel address translates to itself less PAGE_OFFSET, writable and for the kernel
      only. */
  lemma KernelWalk(mem: seq<nat>, dir: nat, tables: nat, va: nat)
    requires Mapped(mem, dir, tables) && tables % 1024 == 0
    requires PAGE_OFFSET <= va < WORD
    ensures Walk(mem, dir * 4, va) == Page(va - PAGE_OFFSET, true, false)
  {
    var i, j := va / 0x40_0000, va / PAGE_SIZE % 1024;
    var k := (i - 768) * 1024 + j;
    VirtualParts(va);
    assert mem[dir + i] == tables * 4 + (i - 768) * PAGE_SIZE + 3;
    assert mem[tables + k] == k * PAGE_SIZE + KERNEL;
    DirectoryBits(tables / 1024 + (i - 768));
    EntryBits(k);
    hide BitSet, Mapped;
    assert mem[dir + i] == (tables / 1024 + (i - 768)) * PAGE_SIZE + 3;
  }

  lemma VirtualParts(va: nat)
    requires PAGE_OFFSET <= va < WORD
    ensures 768 <= va / 0x40_0000 < 1024
    ensures va == (va / 0x40_0000) * 0x40_0000 + (va / PAGE_SIZE % 1024) * PAGE_SIZE + va % PAGE_SIZE
  {
  }

  lemma DirectoryBits(n: nat)
    ensures var e := n * PAGE_SIZE + 3;
            BitSet(e, PRESENT) && BitSet(e, RW) && !BitSet(e, USER) && !BitSet(e, PSE) && e / PAGE_SIZE == n
  {
    var e := n * PAGE_SIZE + 3;
    DivUnique(e, 2, n * 2048 + 1, 1);
    DivUnique(n * 2048 + 1, 2, n * 1024, 1);
    DivUnique(e, 4, n * 1024, 3);
    DivUnique(n * 1024, 2, n * 512, 0);
    DivUnique(e, 128, n * 32, 3);
    DivUnique(n * 32, 2, n * 16, 0);
    DivUnique(e, PAGE_SIZE, n, 3);
  }

  lemma EntryBits(n: nat)
    ensures var e := n * PAGE_SIZE + KERNEL;
            BitSet(e, PRESENT) && BitSet(e, RW) && !BitSet(e, USER) && e / PAGE_SIZE == n
  {
    var e := n * PAGE_SIZE + KERNEL;
    DivUnique(e, 2, n * 2048 + 49, 1);
    DivUnique(n * 2048 + 49, 2, n * 1024 + 24, 1);
    DivUnique(e, 4, n * 1024 + 24, 3);
    DivUnique(n * 1024 + 24, 2, n * 512 + 12, 0);
    DivUnique(e, PAGE_SIZE, n, KERNEL);
  }

  /** No two kernel addresses share a physical byte, and the first gigabyte is covered. */
  lemma KernelWalkBijective(mem: seq<nat>, dir: nat, tables: nat, physical: nat)
    requires Mapped(mem, dir, tables) && tables % 1024 == 0 && physical < WORD - PAGE_OFFSET
    ensures forall va: nat :: PAGE_OFFSET <= va < WORD ==>
              (Walk(mem, dir * 4, va).Page? && Walk(mem, dir * 4, va).physical == physical
               <==> va == physical + PAGE_OFFSET)
  {
    forall va: nat | PAGE_OFFSET <= va < WORD
      ensures Walk(mem, dir * 4, va).Page? && Walk(mem, dir * 4, va).physical == physical
              <==> va == physical + PAGE_OFFSET
    {
      KernelWalk(mem, dir, tables, va);
    }
  }

  predicate InTables(w: int, tables: nat)
  {
    tables <= w < tables + 256 * PTRS_PER_PTE
  }

  /** User addresses keep their translation, unless their own tables were overwritten. */
  lemma UserWalkKept(before: seq<nat>, after: seq<nat>, dir: nat, tables: nat, va: nat)
    requires |before| == |after| && dir + PTRS_PER_PGD <= |before| && va < PAGE_OFFSET
    requires forall w :: 0 <= w < |before| && !InTables(w, tables) && !(dir + 768 <= w < dir + 1024) ==>
               after[w] == before[w]
    requires dir + 1024 <= tables || tables + 256 * PTRS_PER_PTE <= dir
    requires var t := before[dir + va / 0x40_0000] / PAGE_SIZE * PAGE_SIZE / 4 + va / PAGE_SIZE % 1024;
             !InTables(t, tables) && !(dir + 768 <= t < dir + 1024)
    ensures Walk(after, dir * 4, va) == Walk(before, dir * 4, va)
  {
    assert va / 0x40_0000 < 768;
    assert after[dir + va / 0x40_0000] == before[dir + va / 0x40_0000];
  }

  // ----- building them -----

  predicate IsKernelText(address: nat, kernelStart: nat, kernelEnd: nat)
  {
    address > PAGE_OFFSET + kernelStart && address < kernelEnd
  }

  /** The inner loop: the 1024 entries of one table, from page frame pfn0 on. */
  method FillTable(mem: array<nat>, pte0: nat, pfn0: nat, address: nat, kernelStart: nat, kernelEnd: nat)
    returns (pte: nat, pfn: nat)
    requires pte0 + PTRS_PER_PTE <= mem.Length
    modifies mem
    ensures pte == pte0 + PTRS_PER_PTE && pfn == pfn0 + PTRS_PER_PTE
    ensures forall w :: pte0 <= w < pte0 + PTRS_PER_PTE ==> mem[w] == (pfn0 + w - pte0) * PAGE_SIZE + KERNEL
    ensures forall w :: 0 <= w < mem.Length && !(pte0 <= w < pte0 + PTRS_PER_PTE) ==> mem[w] == old(mem[w])
  {
    pte, pfn := pte0, pfn0;
    for ofs := 0 to PTRS_PER_PTE
      invariant pte == pte0 + ofs && pfn == pfn0 + ofs
      invariant forall w :: pte0 <= w < pte0 + ofs ==> mem[w] == (pfn0 + w - pte0) * PAGE_SIZE + KERNEL
      invariant forall w :: 0 <= w < mem.Length && !(pte0 <= w < pte0 + ofs) ==> mem[w] == old(mem[w])
    {
      hide PfnPte;
      PfnPteIs(pfn, KERNEL);
      if IsKernelText(address, kernelStart, kernelEnd) {
        mem[pte] := PfnPte(pfn, KERNEL_EXEC);
      } else {
        mem[pte] := PfnPte(pfn, KERNEL);
      }
      pte, pfn := pte + 1, pfn + 1;
    }
  }

  lemma WordOf(address: nat)
    requires PAGE_OFFSET <= address && address % PAGE_SIZE == 0
    ensures (address - PAGE_OFFSET) / 4 * 4 == address - PAGE_OFFSET
    ensures (address - PAGE_OFFSET) / 4 % 1024 == 0
  {
    var n := address / PAGE_SIZE - PAGE_OFFSET / PAGE_SIZE;
    DivUnique(address - PAGE_OFFSET, 4, 1024 * n, 0);
    DivUnique(1024 * n, 1024, n, 0);
  }

  /** The first `count` tables are filled and named by the directory, and nothing else is changed. */
  ghost predicate Built(before: seq<nat>, mem: seq<nat>, dir: nat, tables: nat, count: nat)
  {
    && |mem| == |before| && count <= 256
    && dir + PTRS_PER_PGD <= |mem| && tables + 256 * PTRS_PER_PTE <= |mem|
    && (forall w :: dir + 768 <= w < dir + 768 + count ==>
          mem[w] == tables * 4 + (w - dir - 768) * PAGE_SIZE + RW + PRESENT)
    && (forall w :: tables <= w < tables + count * 1024 ==> mem[w] == (w - tables) * PAGE_SIZE + KERNEL)
    && (forall w :: 0 <= w < |mem| && !InTables(w, tables) && !(dir + 768 <= w < dir + 1024) ==> mem[w] == before[w])
  }

  /** One pass of the outer loop. */
  method BuildTable(mem: array<nat>, pgd: nat, pte0: nat, pfn0: nat, pteBase0: nat, kernelStart: nat, kernelEnd: nat,
                    ghost before: seq<nat>, ghost dir: nat, ghost tables: nat, ghost count: nat)
    returns (pte: nat, pfn: nat, pteBase: nat)
    requires pgd == dir + 768 + count && pte0 == tables + pfn0 && pfn0 == count * 1024
    requires pteBase0 == PAGE_OFFSET + 4 * pte0
    requires dir + PTRS_PER_PGD <= tables || tables + 256 * PTRS_PER_PTE <= dir
    requires Built(before, mem[..], dir, tables, count) && count < 256
    requires tables % 1024 == 0 && 4 * (tables + 256 * PTRS_PER_PTE) <= WORD - PAGE_OFFSET
    modifies mem
    ensures pte == pte0 + PTRS_PER_PTE && pfn == pfn0 + PTRS_PER_PTE && pteBase == PAGE_OFFSET + 4 * pte
    ensures Built(before, mem[..], dir, tables, count + 1)
  {
    hide TableEntry;
    var address := pfn0 * PAGE_SIZE + PAGE_OFFSET;
    pte, pfn := FillTable(mem, pte0, pfn0, address, kernelStart, kernelEnd);
    TableAligned(tables, count);
    TableEntryIs(pteBase0);
    mem[pgd] := TableEntry(pteBase0);
    pteBase := PAGE_OFFSET + 4 * pte;
  }

  lemma TableAligned(tables: nat, count: nat)
    requires tables % 1024 == 0
    ensures (PAGE_OFFSET + 4 * (tables + count * 1024)) % PAGE_SIZE == 0
  {
    DivUnique(PAGE_OFFSET + 4 * (tables + count * 1024), PAGE_SIZE,
              PAGE_OFFSET / PAGE_SIZE + tables / 1024 + count, 0);
  }

  /** The outer loop, for a directory at word `dir` and tables from word `tables` on. */
  method BuildTables(mem: array<nat>, dir: nat, tables: nat, kernelStart: nat, kernelEnd: nat) returns (pte: nat)
    requires dir + PTRS_PER_PGD <= tables || tables + 256 * PTRS_PER_PTE <= dir
    requires dir + PTRS_PER_PGD <= mem.Length && tables + 256 * PTRS_PER_PTE <= mem.Length
    requires tables % 1024 == 0 && 4 * (tables + 256 * PTRS_PER_PTE) <= WORD - PAGE_OFFSET
    modifies mem
    ensures pte == tables + 256 * PTRS_PER_PTE
    ensures Mapped(mem[..], dir, tables)
    ensures forall w :: 0 <= w < mem.Length && !InTables(w, tables) && !(dir + 768 <= w < dir + 1024) ==>
              mem[w] == old(mem[w])
  {
    ghost var before := mem[..];
    var index := PgdIndex(PAGE_OFFSET);
    var pgd := dir + index;
    var pfn := 0;
    pte := tables;
    var pteBase := PAGE_OFFSET + 4 * pte;
    while index < PTRS_PER_PGD
      invariant 768 <= index <= PTRS_PER_PGD && pgd == dir + index
      invariant pfn == (index - 768) * 1024 && pte == tables + pfn && pteBase == PAGE_OFFSET + 4 * pte
      invariant Built(before, mem[..], dir, tables, index - 768)
    {
      pte, pfn, pteBase := BuildTable(mem, pgd, pte, pfn, pteBase, kernelStart, kernelEnd,
                                      before, dir, tables, index - 768);
      pgd, index := pgd + 1, index + 1;
    }
  }

  /** `init_page_table(pgd_base, pte_base)`, with both at kernel virtual addresses: word w of
      physical memory is at virtual address PAGE_OFFSET + 4 * w. */
  method InitPageTable(mem: array<nat>, pgdBase: nat, pteBase0: nat, kernelStart: nat, kernelEnd: nat)
    returns (pageDescStart: nat)
    requires PAGE_OFFSET <= pgdBase && pgdBase % PAGE_SIZE == 0
    requires PAGE_OFFSET <= pteBase0 && pteBase0 % PAGE_SIZE == 0 && pteBase0 + 256 * PAGE_SIZE <= WORD
    requires pgdBase + PAGE_SIZE <= pteBase0 || pteBase0 + 256 * PAGE_SIZE <= pgdBase
    requires (pgdBase - PAGE_OFFSET) / 4 + PTRS_PER_PGD <= mem.Length
    requires (pteBase0 - PAGE_OFFSET) / 4 + 256 * PTRS_PER_PTE <= mem.Length
    modifies mem
    ensures pageDescStart == pteBase0 + 256 * PAGE_SIZE
    ensures Mapped(mem[..], (pgdBase - PAGE_OFFSET) / 4, (pteBase0 - PAGE_OFFSET) / 4)
    ensures var dir, tables := (pgdBase - PAGE_OFFSET) / 4, (pteBase0 - PAGE_OFFSET) / 4;
            forall w :: 0 <= w < mem.Length && !InTables(w, tables) && !(dir + 768 <= w < dir + 1024) ==>
              mem[w] == old(mem[w])
  {
    hide Mapped;
    var dir, tables := (pgdBase - PAGE_OFFSET) / 4, (pteBase0 - PAGE_OFFSET) / 4;
    WordOf(pgdBase);
    WordOf(pteBase0);
    var pte := BuildTables(mem, dir, tables, kernelStart, kernelEnd);
    pageDescStart := PAGE_OFFSET + 4 * pte;
  }
}
