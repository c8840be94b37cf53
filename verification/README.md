# Verification of the kernel's core data structures

This project models, in Dafny, the parts of the kernel and its C library whose correctness is least obvious from
reading one function, and proves what they are there for.

- **Buddy page allocator** (`Bits`, `Blocks`, `BuddyTheory`, `Lists`, `PageLists`, `PageAlloc`, `BuddyResults`,
  `MemInit`). `BuddyTheory` treats a zone as a value: which pages are free, which blocks are in use, which pages carry
  a PG_private tag. `PageAlloc.Zone` is the allocator itself, over page descriptors linked into circular lists; its
  `Valid` says that the lists hold exactly the maximal free blocks and that free pages and blocks in use partition the
  zone. Freeing follows the code; splitting follows its header comment, with the repairs named below. `MemInit` is the
  boot loop that hands memory over.
- **Page tables** (`PageTable`): what `init_page_table` stores, against the processor's walk.
- **Slab** (`Slab`): object sizes, the chain threaded through a fresh slab's memory, and giving objects back.
- **Spinlock** (`SpinLock`): every interleaving of the instructions of N CPUs on one signed byte.
- **Time** (`Calendar`): `mktime` against a calendar that counts one day at a time; normalisation of timespecs.
- **Formatted output** (`DoDiv`, `FormatSpec`, `FormatFacts`, `FormatDirectives`, `FormatMeaning`, `Number`,
  `Vsnprintf`): `FormatSpec.Formatted` gives the text of a format as a value (ISO/IEC 9899:1999, section 7.19.6.1, except
  where the code differs: `%.0d` of 0 prints "0", `#` prefixes zero too, and the `0` flag survives a precision);
  `FormatDirectives` takes formats apart and puts them together, `FormatMeaning` says what each directive leaves for a
  reader; `Vsnprintf` is the scanner over a bounded buffer (section 7.19.6.5).
- **Kernel log** (`LogText`, `Printk`): the ring and the level prefixes, against the full history.
- **Interrupt lines** (`BitSets`, `IrqMask`, `IrqChain`, `Irq`): the mask and in-service registers of the two 8259A
  controllers, the chains of shared actions, and dispatch.

Integers are unbounded unless a definition reduces them or a type bounds them (`Machine`: `WORD` is 2^32, `Int` the
range of an `int`). Addresses of list nodes and pages are object references that carry the index `list_entry` and
pointer subtraction would find. Ghost fields record the meaning of the state: the lists' contents, the free set, the
blocks in use, the history of the log, the requests made on a line.

Places where the code falls short of its intent are stated with their exact condition:
`BuddyResults.PastProbeExact`, `BuddyResults.QuietExact`, `BuddyResults.ExpandAsWrittenOverlaps`,
`BuddyResults.StoredSizeHides`, `BuddyResults.UnclearedTagMerges`, `BuddyResults.CountDecides`, `MemInit.KeptTables`,
`MemInit.BootTablesFree`,
`SpinLock.SafeExactly`, `Calendar.MktimeExactUntil`, `Calendar.SetNormalizedTimespec`, `Vsnprintf.StoresExact` and
`Irq.IrqTable.DoIrq`.

`dafny verify dfyconfig.toml` checks the whole project.

## Model

| member | source | states |
|---|---|---|
| Lists.LinkBetween | kernel/include/kernel/list.h:19-27 | linking a node between two neighbours joins it to both in both directions and leaves the far sides of two different neighbours alone |
| Lists.ListAdd | kernel/include/kernel/list.h:31-33 | adding after the head puts the node first on that list; all lists stay well-formed and apart |
| Lists.ListAddTail | kernel/include/kernel/list.h:35-37 | adding before the head puts the node last on that list; all lists stay well-formed and apart |
| Lists.ListDel | kernel/include/kernel/list.h:39-45 | deleting from the node alone removes exactly that position; all lists stay well-formed and apart |
| Lists.ListEmptyExact | kernel/include/kernel/list.h:29 | on every well-formed list the emptiness test holds if and only if only the head is left |
| PageAlloc.Zone.InitFreeLists | kernel/arch/i386/mm.c:53-54 | all eleven lists start as empty circles with count zero |
| PageAlloc.Zone.Unlink | kernel/kernel/page_alloc.c:165-167 | unlinking a page keeps the lists well-formed, their counters equal to their lengths, and removes that page only, leaving the others in their order |
| PageAlloc.Zone.First | kernel/kernel/page_alloc.c:51 | `list_entry` of the head's next node is the first page on the list |
| Bits.XorBit | kernel/kernel/page_alloc.c:157 | XOR with 1 << order adds the block size where the bit is clear and subtracts it where it is set |
| Bits.AndXorBit | kernel/kernel/page_alloc.c:168 | ANDing an index with its XORed partner clears the order bit |
| Blocks.BuddyFacts | kernel/kernel/page_alloc.c:157-168 | the computed buddy is the other half of the enclosing block, and the AND is the first index of both halves together, aligned one order up |
| Blocks.MaximalUnique | kernel/kernel/page_alloc.c:156-170 | two unmergeable blocks of a free set that share a page are the same block |
| Blocks.MaximalCovers | kernel/kernel/page_alloc.c:156-170 | every free page lies in an unmergeable block of the free set |
| BuddyTheory.BuddyTest | kernel/kernel/page_alloc.c:128-136 | in every consistent state, while a block is being given back, the probed page looks like a free block of that order if and only if it heads one, and if and only if the buddy is wholly free, whatever stale tags earlier merges left |
| BuddyTheory.BuriedTag | kernel/kernel/page_alloc.c:128-136 | a page that the merge loop probes is never buried inside a block in use |
| BuddyTheory.AddResult | kernel/kernel/page_alloc.c:156-174 | after a block is merged in, the maximal blocks are the merged one and exactly the earlier ones outside it |
| BuddyTheory.ReleaseConsistent | kernel/kernel/page_alloc.c:149-176 | giving a block back keeps the partition into free pages and blocks in use and the soundness of all tags, old ones included |
| BuddyTheory.TakeConsistent | kernel/kernel/page_alloc.c:51-54 | taking a free block off its list with its tag cleared keeps partition and tags sound |
| BuddyTheory.SplitConsistent | kernel/kernel/page_alloc.c:33-41 | returning the upper half of a block in use keeps partition and tags sound |
| BuddyTheory.BuddyInside | kernel/kernel/page_alloc.c:138-143 | in a zone of whole largest blocks no probe leaves the zone |
| BuddyTheory.NothingFits | kernel/kernel/page_alloc.c:48-58 | when all lists from an order up are empty, no aligned block of that order is wholly free |
| BuddyTheory.SwallowStep | kernel/kernel/page_alloc.c:165-169 | unlinking the buddy leaves on every list, in order, exactly the earlier entries outside the doubled block |
| BuddyTheory.DescendingStep | kernel/kernel/page_alloc.c:172-175 | giving back a page above all free ones keeps every list in descending order, however far it merges |
| PageAlloc.Zone.ProbeExact | kernel/kernel/page_alloc.c:128-136 | while a block in use is being given back and has grown to (q, o), the test of flags, order, reservation and count on a buddy page of the zone holds if and only if that page heads a free block of order o; a buddy outside never heads one |
| PageAlloc.Zone.SetPageOrder | kernel/kernel/page_alloc.c:19-22 | setting a page's order changes that page's tag and no other |
| PageAlloc.Zone.TakeBuddy | kernel/kernel/page_alloc.c:157-169 | one pass of the merge loop, for zones of any size whose descriptor past the end is quiet: a free buddy is unlinked and the block doubles, the lists losing just what it has swallowed; otherwise the block is fully grown and nothing changed |
| PageAlloc.Zone.FreePages | kernel/kernel/page_alloc.c:149-176 | `__free_pages` on a block in use, in a zone of any size whose descriptor past the end is quiet: exactly its pages become free, it leaves the blocks in use, the lists are again exactly the maximal free blocks, the merged block that holds the freed page is first on its list, and every list is otherwise the old one without the blocks merged in, in the old order |
| PageAlloc.Zone.FreshValid | kernel/kernel/mm_init.c:117-132 | a zone of clean pages with empty lists is a valid state in which every page is in use by itself |
| PageAlloc.Zone.AddUpperHalf | kernel/kernel/page_alloc.c:34-39 | one pass of the repaired split loop: the upper half becomes a free block, last on its list, the lower half stays in use |
| PageAlloc.Zone.Expand | kernel/kernel/page_alloc.c:31-43 | the repaired split: all of the block beyond its first 2^low pages becomes free, one block of each order from low up, last on its list |
| PageAlloc.Zone.RmQueue | kernel/kernel/page_alloc.c:45-59 | allocation fails, changing nothing, if and only if no aligned block of the order is wholly free; otherwise it returns the start of the first block on the smallest non-empty list, aligned, formerly free, now in use; that list loses its first entry, the empty ones below it down to the order get one half each, and nothing else changes |
| BuddyResults.ListsAreLargestRuns | kernel/kernel/page_alloc.c:149-176 | in every valid state b is on list o if and only if b starts an aligned run of 2^o free pages that is of order 10 or whose doubled run is not wholly free: the lists depend on the set of free pages only, never on the order of frees |
| BuddyResults.PagesPartitioned | kernel/kernel/page_alloc.c:45-176 | every page is in exactly one listed block or exactly one block in use, never both |
| BuddyResults.CountersExact | kernel/kernel/page_alloc.c:167-175 | the nr_free counters weighted by 2^o sum to the number of free pages |
| BuddyResults.AllocateThenFree | kernel/kernel/page_alloc.c:45-176 | freeing a block straight after allocating it restores free pages, blocks in use and the contents of every list |
| BuddyResults.Serve | kernel/kernel/page_alloc.c:45-176 | over any interleaving of allocations and matching frees from any valid state: the zone stays valid, the formerly free pages are those still free and those handed out, and once all is given back free pages, blocks in use and list contents are as before |
| BuddyResults.ProbePastEndExact | kernel/kernel/page_alloc.c:139 | the bounds test lets index spanned_pages through; some probe hits that index if and only if the zone size is not a multiple of 1024 |
| BuddyResults.MergesInsideExact | kernel/kernel/page_alloc.c:138-143 | the bounds test by itself: every buddy it admits lies in the zone with its whole block if and only if the zone size is a multiple of 1024 |
| BuddyResults.WholeZoneQuiet | kernel/kernel/page_alloc.c:138-163 | in a zone of a multiple of 1024 pages every descriptor past the end is quiet |
| BuddyResults.PastProbeExact | kernel/kernel/page_alloc.c:138-169 | a probe of index spanned_pages finds the block fully grown; the step the test then takes is right if and only if the descriptor there does not look free, since a merge would take pages that are not all free |
| BuddyResults.QuietExact | kernel/kernel/page_alloc.c:138-163 | the descriptor past the end is quiet if and only if in no consistent state of the zone a probe takes it for a buddy |
| BuddyResults.ExpandAsWrittenOverlaps | kernel/kernel/page_alloc.c:33-41 | for every request, the split as it is written lists a page of the block it hands out |
| BuddyResults.UnclearedTagMisleads | kernel/kernel/page_alloc.c:51-56 | the head of a listed block passes the whole buddy test, though once handed out it heads no free block |
| BuddyResults.TakeAsWritten | kernel/kernel/page_alloc.c:51-54 | taking the first block off its list as written leaves its head passing the buddy test |
| BuddyResults.UnclearedTagMerges | kernel/kernel/page_alloc.c:45-59 | with that tag in place, giving back the buddy of the block handed out merges with the block while it is in use |
| BuddyResults.StoredSizeHides | kernel/kernel/page_alloc.c:39 | with a size stored in place of an order, a split-off half is a free block that never passes the test |
| BuddyResults.CountDecides | kernel/kernel/page_alloc.c:128-136 | the head of a free block passes the test if and only if it is not reserved and its count is -1 |
| MemInit.KeptTables | kernel/kernel/mm_init.c:141 | all pages from 16 MiB to the end of the descriptors are reserved if and only if the kernel image reaches beyond the first of them |
| MemInit.Node.PageBooted | kernel/kernel/mm_init.c:138-148 | after booting, page i of the page array is free if and only if it is not below the kernel end, is below max_pfn, and is at most page 4096 or beyond the descriptors; it is reserved if and only if it is below max_pfn and below the kernel end or above page 4096 up to the end of the descriptors |
| MemInit.Node.DivideAmongZones | kernel/kernel/mm_init.c:117-132 | the zones are consecutive slices of the page array, and every page names its own zone |
| MemInit.Node.ZonesApart | kernel/kernel/mm_init.c:117-132 | two zones share neither pages nor list nodes |
| MemInit.SettlePage | kernel/kernel/mm_init.c:138-148 | one pass of the boot loop keeps the zone valid, frees the page if it is not to be kept and reserves it otherwise |
| MemInit.FreeZonePages | kernel/kernel/mm_init.c:138-148 | after the loop a zone's free pages are exactly those not to be kept, all others are in use one by one, exactly the kept ones below max_pfn are reserved, and every list is in descending order |
| MemInit.Node.PastQuiet | kernel/kernel/mm_init.c:107-148 | while a zone is booted the descriptor past its end is still untagged, except behind the last zone |
| MemInit.Node.AllocMemMap | kernel/kernel/mm_init.c:107-149 | after booting, for zones of any size, every zone is valid and its pages name it; a page is free, or reserved, under exactly the conditions of MemInit.Node.PageBooted, here spelled out for all pages; every page not free is in use by itself |
| MemInit.BootedLists | kernel/kernel/mm_init.c:107-149 | after booting, each list holds exactly the largest aligned runs of the pages given back |
| MemInit.BootedHighest | kernel/kernel/mm_init.c:138-148 | after booting, the first block on a list, the next one to be handed out, is the highest free block of its size |
| MemInit.BootTablesFree | kernel/kernel/mm_init.c:141-146 | after booting, a page of the boot tables or descriptors is free if and only if it is the first one, it is below max_pfn, and the kernel image does not reach beyond it |
| PageTable.PfnPteIs | kernel/include/i386/page_table.h:89 | a page table entry is the frame address plus its flags |
| PageTable.TableEntryIs | kernel/kernel/mm_init.c:59 | the directory entry is the physical address of the table plus the present and writable bits |
| PageTable.FillTable | kernel/kernel/mm_init.c:47-57 | the inner loop maps 1024 consecutive frames and writes no other word |
| PageTable.InitPageTable | kernel/kernel/mm_init.c:36-65 | the directory's kernel part and the 256 tables map frames 0, 1, 2, ... in order; every other word, the user entries included, is unchanged |
| PageTable.StoredWords | kernel/kernel/mm_init.c:47-60 | the words stored, flag bits included: table addresses with 0x003 in the directory, frame addresses with 0x063 in the tables |
| PageTable.KernelWalk | kernel/kernel/mm_init.c:36-65 | the two-level hardware walk of every address from PAGE_OFFSET up is present, writable, kernel-only and yields the address less PAGE_OFFSET (Intel SDM volume 3A, section 4.3) |
| PageTable.KernelWalkBijective | kernel/kernel/mm_init.c:36-65 | a physical byte of the first gigabyte is reached from exactly one kernel address |
| PageTable.UserWalkKept | kernel/kernel/mm_init.c:36-65 | an address below PAGE_OFFSET translates as before, provided its own table was not overwritten |
| Slab.CacheSizesFit | kernel/kernel/slab.c:248-259 | for every size and power-of-two alignment, payload, link word and next object do not overlap, links are word aligned and objects keep the alignment |
| Slab.NewSlab | kernel/kernel/slab.c:156-189 | the free chain is ascending, NULL-terminated, starts at the first link and has exactly ceil((slab bytes - offset) / object_size) links; no other word of memory changes |
| Slab.SlabObjects | kernel/kernel/slab.c:156-259 | in a fresh slab every payload and link lies inside the slab and is disjoint from all others, and objects are aligned as asked if the slab is |
| Slab.LinkAgainstObject | kernel/kernel/slab.c:408 | comparing a link with an object's address orders it against the object's own link |
| Slab.SlabPage.Search | kernel/kernel/slab.c:374-414 | the search stops at the link after which the freed object keeps the tail in order |
| Slab.SlabPage.Free | kernel/kernel/slab.c:374-421 | freeing an object puts exactly its link on the chain, which stays NULL-terminated and acyclic with everything after the first link ascending; inuse drops by one; no word off the chain changes |
| Slab.SlabPage.FreeAll | kernel/kernel/slab.c:374-421 | giving back any objects, each once, leaves in memory exactly the chain the run of insertions describes |
| Slab.Splice | kernel/kernel/slab.c:415-419 | storing a link behind a chain's h-th one gives the chain with the link inserted there |
| Slab.InsertAscending | kernel/kernel/slab.c:407-414 | inserting before the first larger link keeps the links in order |
| Slab.FreedAllChain | kernel/kernel/slab.c:374-419 | after any run of frees into a full page, the first freed object heads the chain and the others follow in address order, none lost and none added |
| Slab.FreeOrderIrrelevant | kernel/kernel/slab.c:374-419 | the chain depends only on which object was freed first and on the set of the others |
| SpinLock.StepSound | kernel/include/kernel/sync.h:28-41 | every instruction of every CPU keeps the accounting of holders, failed decrements and the byte |
| SpinLock.RunSound | kernel/include/kernel/sync.h:28-57 | the accounting holds after every interleaving of at most 129 CPUs |
| SpinLock.MutualExclusion | kernel/include/kernel/sync.h:26-57 | in every interleaving of at most 129 CPUs at most one is past the acquire, the byte is 1 if the lock is free, and `spin_is_locked` is exact |
| SpinLock.NeverWraps | kernel/include/kernel/sync.h:28-37 | a decrement never finds the byte at -128 |
| SpinLock.FreeLockIsTaken | kernel/include/kernel/sync.h:28-37 | once the lock is free, any CPU that calls or waits acquires it within two of its own steps |
| SpinLock.EntriesAndReleases | kernel/include/kernel/sync.h:28-57 | under every schedule, for any number of CPUs, a CPU has entered once more than it has released while it is in the lock code, and as often while it is elsewhere |
| SpinLock.InsideCount | kernel/include/kernel/sync.h:28-57 | under every schedule the CPUs at the decrement, spinning or past the acquire number the entries less the releases |
| SpinLock.HeldKeepsOut | kernel/include/kernel/sync.h:28-37 | while the holder does not release, however the others are scheduled, nobody else gets past the acquire and a spinning CPU keeps spinning without touching the byte |
| SpinLock.TooManyCpus | kernel/include/kernel/sync.h:28-37 | for 130 CPUs or more an interleaving exists in which two are past the acquire |
| SpinLock.SafeExactly | kernel/include/kernel/sync.h:28-57 | the lock excludes in all interleavings if and only if there are at most 129 CPUs |
| SpinLock.Lock.ValidExclusive | kernel/include/kernel/sync.h:26-57 | in a valid state at most one CPU is past the acquire and `spin_is_locked` is exact |
| SpinLock.Lock.Execute | kernel/include/kernel/sync.h:28-57 | one instruction on the shared byte is one step of the protocol; from a valid state of at most 129 CPUs it leads to a valid state in which at most one is past the acquire |
| Calendar.FormulaCounts | kernel/include/kernel/time.h:48-56 | the closed day formula takes the n-th calendar day after 1 January 1970 to n |
| Calendar.FormulaInverts | kernel/include/kernel/time.h:48-56 | every date from 1970 on is the day its count says |
| Calendar.CountsOrderDates | kernel/include/kernel/time.h:48-56 | day counts order dates as the calendar does |
| Calendar.MktimeCounts | kernel/include/kernel/time.h:43-59 | for every valid date and time from 1970 on, `mktime` in 32-bit arithmetic is the number of seconds counted day by day, modulo 2^32 |
| Calendar.MktimeNextDay | kernel/include/kernel/time.h:43-59 | the next calendar day at the same time is 86400 later, modulo 2^32 |
| Calendar.MktimeExactUntil | kernel/include/kernel/time.h:43-59 | `mktime` equals the true count of seconds, unreduced, if and only if the time is not after 06:28:15 on 7 February 2106 |
| Calendar.SetNormalizedTimespec | kernel/include/kernel/time.h:103-116 | both loops stop, the instant is preserved, nanoseconds end in 0..10^9, and at 10^9 itself exactly for positive multiples of it |
| Calendar.TimeInit | kernel/kernel/time.c:12-17 | wall clock and its offset to monotonic time sum to zero nanoseconds, and both are normalised |
| DoDiv.QuotientFits | kernel/include/kernel/util.h:25 | with an upper half below the divisor, `divl` does not overflow |
| DoDiv.LongDivision | kernel/include/kernel/util.h:17-28 | the two-step division is division of the whole |
| DoDiv.Divide64 | kernel/include/kernel/util.h:15-29 | for every 64-bit dividend and non-zero 32-bit divisor: quotient and remainder, the divl within its range |
| DoDiv.Divide | kernel/include/kernel/util.h:10-32 | the dividend is replaced by the quotient and the remainder returned, for 4 and for 8 bytes; any other size changes nothing |
| FormatFacts.DigitsValue | libc/stdio/vsnprintf.c:60-64 | the digits written for n, read in the base, denote n |
| FormatFacts.DigitsMinimal | libc/stdio/vsnprintf.c:60-64 | only zero itself starts with a zero digit |
| FormatFacts.DigitsShort | libc/stdio/vsnprintf.c:28 | a 64-bit value has at most 64 digits in any base, so tmp does not overflow |
| FormatFacts.BodyValue | libc/stdio/vsnprintf.c:101-110 | digits with leading zeros still denote the magnitude |
| FormatFacts.NumberLength | libc/stdio/vsnprintf.c:26-117 | the text has length max(width, sign + prefix + max(precision, digits)) |
| FormatFacts.DecimalRoundTrip | libc/stdio/vsnprintf.c:8-15 | reading back the decimal digits of n, followed by a non-digit, gives n and stops there |
| FormatFacts.PercentDRoundTrip | libc/stdio/vsnprintf.c:296-333 | the text `%d` produces, read as an integer, is the signed 32-bit argument |
| FormatFacts.SignedRoundTrip | libc/stdio/vsnprintf.c:315-333 | the text of a signed directive with any qualifier, read as an integer, is the value its argument was widened to |
| FormatFacts.IntegerArgumentMeans | libc/stdio/vsnprintf.c:315-331 | an `L` or `ll` argument joins two words; a signed argument of 16 or 32 bits keeps its two's complement value in 64 bits, an unsigned one its plain value |
| FormatFacts.LiteralText | libc/stdio/vsnprintf.c:144-150 | text without a percent sign is copied unchanged in front of the rest |
| FormatDirectives.ParseShown | libc/stdio/vsnprintf.c:152-203 | from any directive, as written and whatever follows, the parser reads back its flags, width, precision, qualifier and conversion, a negative width argument asking for left justification |
| FormatDirectives.EveryDirective | libc/stdio/vsnprintf.c:152-313 | whatever follows a percent sign is a directive and a rest, so that what holds of all directives holds of all formats |
| FormatDirectives.EveryFormat | libc/stdio/vsnprintf.c:144-334 | every format is a sequence of plain texts and directives |
| FormatDirectives.DirectiveThenRest | libc/stdio/vsnprintf.c:144-334 | the text and stores of a directive stand in front of what the rest of the format makes of the arguments behind those it takes |
| FormatDirectives.FormatsCompose | libc/stdio/vsnprintf.c:144-334 | the text of two formats in a row is the text of the first and the text of the second, from the argument and the position at which the first ends |
| FormatMeaning.NumberPlacedUnique | libc/stdio/vsnprintf.c:67-115 | field, precision, sign, prefix and digits determine the text of a number |
| FormatMeaning.IntegerDirective | libc/stdio/vsnprintf.c:286-333 | every integer directive, with any flags, width, precision and qualifier: minus sign for exactly the negative values, else the plus or space asked for; prefix 0, 0x or 0X for # with o, x or X; digits that denote the value in the base of the conversion, none wasted, letters in its case; zeros up to the precision; spaces on the side the flags say, or zeros behind the prefix for 0 |
| FormatMeaning.PointerDirective | libc/stdio/vsnprintf.c:253-261 | %p: the argument in base 16, with zeros up to eight characters if no width is given |
| FormatMeaning.CharDirective | libc/stdio/vsnprintf.c:209-226 | %c: the low byte of the argument, padded with spaces on the side the flags say |
| FormatMeaning.StringDirective | libc/stdio/vsnprintf.c:227-251 | %s: the string of the argument, <NULL> for an address below 4096, cut at the precision, padded with spaces on the side the flags say |
| FormatMeaning.CountDirective | libc/stdio/vsnprintf.c:264-277 | %n writes nothing and stores the number of characters before it; no other directive stores anything |
| FormatMeaning.CountStored | libc/stdio/vsnprintf.c:264-277 | %n behind any format stores how many characters that format has produced, at the address the next argument gives |
| FormatMeaning.OtherDirective | libc/stdio/vsnprintf.c:279-313 | %% is one percent sign; an unknown conversion comes out behind a percent sign without its flags, width and precision; a directive the format ends in is a percent sign |
| FormatMeaning.UnsignedRoundTrip | libc/stdio/vsnprintf.c:286-333 | the text of %u, %o, %x or %X with any qualifier denotes the argument in base 10, 8 or 16, in letters of the case of the conversion |
| FormatMeaning.WordRoundTrip | libc/stdio/vsnprintf.c:286-333 | %u, %o, %x and %X, plain or with l: reading the text in base 10, 8 or 16 gives the argument word |
| FormatMeaning.SignedArgumentMeans | libc/stdio/vsnprintf.c:315-331 | a signed argument of 16, 32 or 64 bits is the two's complement value of the unsigned one |
| FormatMeaning.SignedDirective | libc/stdio/vsnprintf.c:296-333 | %d and %i with any qualifier: a minus sign for exactly the negative arguments, then the magnitude in base 10 |
| FormatMeaning.SignFlag | libc/stdio/vsnprintf.c:41-53 | %+d and % d: plus or space where the minus sign would stand |
| FormatMeaning.PrefixFlag | libc/stdio/vsnprintf.c:80-93 | %#o, %#x, %#X: the prefix, even of zero, then the argument in that base |
| FormatMeaning.StringField | libc/stdio/vsnprintf.c:227-251 | %5s and %-5s, for every width: spaces in front of the whole string, or behind it |
| FormatMeaning.StringStar | libc/stdio/vsnprintf.c:168-176 | %*s: the width is the next argument; a negative one stands for its magnitude and left justification |
| FormatMeaning.StringCut | libc/stdio/vsnprintf.c:178-232 | %.2s, for every precision: the string up to that many characters |
| FormatMeaning.StringCutStar | libc/stdio/vsnprintf.c:178-232 | %.*s: the precision is the next argument, a negative one counting as zero |
| FormatMeaning.ZeroField | libc/stdio/vsnprintf.c:67-115 | %05d, for every width: sign, zeros and digits that fill the width, and no space |
| Number.WriteDigits | libc/stdio/vsnprintf.c:60-64 | tmp receives the digits of the number in reverse, at most 64 of them |
| Number.PutRun | libc/stdio/vsnprintf.c:69-73 | a padding loop emits its character max(count, 0) times and leaves the counter as C does |
| Number.SizesFit | libc/stdio/vsnprintf.c:53-115 | for a number text of at most INT_MAX - 3 characters, what is left of the width stays an int through every decrement |
| Number.Format | libc/stdio/vsnprintf.c:26-117 | `number` emits exactly padding, sign, prefix, zeros, digits and padding as specified, stores only up to `end`, overflows no int, and returns NULL with nothing written for a base outside 2..36 |
| Number.Assembled | libc/stdio/vsnprintf.c:67-115 | the pieces in code order are the specified text for every combination of flags |
| Vsnprintf.SkipAtoi | libc/stdio/vsnprintf.c:8-15 | reads the longest run of digits; the result is its decimal value wrapped to an int, so the value itself up to INT_MAX |
| Vsnprintf.ScanFlags | libc/stdio/vsnprintf.c:152-162 | the goto loop consumes exactly the flag characters, never passing the NUL |
| Vsnprintf.ScanWidth | libc/stdio/vsnprintf.c:164-176 | width from digits or an argument, a negative one setting the left flag |
| Vsnprintf.ScanPrecision | libc/stdio/vsnprintf.c:178-191 | precision from digits or an argument, at least 0 once a dot is present |
| Vsnprintf.ScanQualifier | libc/stdio/vsnprintf.c:193-203 | the length qualifier, with ll read as L |
| Vsnprintf.ConvertString | libc/stdio/vsnprintf.c:227-251 | the string cut at the precision and padded to the width |
| Vsnprintf.Convert | libc/stdio/vsnprintf.c:205-333 | one directive emits the specified text, which FormatMeaning reads directive by directive, takes the specified arguments, and leaves the format position where the specification does, the back-step at a trailing percent included |
| Vsnprintf.FormatOne | libc/stdio/vsnprintf.c:144-334 | one pass of the main loop peels one piece off the recursive specification |
| Vsnprintf.LastByteExact | libc/stdio/vsnprintf.c:136-142 | among the addresses from the buffer up to the top of memory, the store test admits exactly the bytes of the buffer if and only if the buffer is not at address 0 |
| Vsnprintf.StoresExact | libc/stdio/vsnprintf.c:136-341 | for a text of any length, behind a pointer that wraps at 2^32, every store test on the way is right if and only if address + length < 2^32, or, at address 0, the text is shorter than the buffer |
| Vsnprintf.Vsnprintf | libc/stdio/vsnprintf.c:121-344 | for every NUL-terminated format, arguments and size whose text overflows no int and no pointer: terminates, returns the full length L of the recursive specification, stores min(L, size - 1) of its characters and a NUL when size > 0, and leaves the rest of the buffer alone |
| Printk.Log.EmitLogChar | kernel/kernel/printk.c:23-29 | the ring stays the tail of the history extended by the character, across wrap-around of the 32-bit counters |
| Printk.Log.RetainedExact | kernel/kernel/printk.c:13-29 | log_start..log_end holds exactly the last min(total, 32768) characters ever emitted |
| Printk.Log.EmitLevel | kernel/kernel/printk.c:43-50 | the default level is put in exactly when the line does not bring one of 0..7 |
| Printk.Log.EmitMessage | kernel/kernel/printk.c:42-54 | the loop emits the message with levels as the line-by-line specification has it |
| Printk.MessageCut | kernel/kernel/printk.c:35-42 | the message logged is the text cut at 1023 characters and at its first NUL |
| Printk.Log.Print | kernel/kernel/printk.c:31-61 | one call with a text that overflows no int and no pointer appends it, cut to 1023 characters, to the messages logged, and keeps the log valid |
| LogText.LogKeepsMessages | kernel/kernel/printk.c:42-54 | over every sequence of calls, deleting the inserted prefixes gives back the concatenated messages |
| LogText.LogLinesHaveLevels | kernel/kernel/printk.c:42-54 | over every sequence of calls, every line of the history begins with a level 0..7 in angle brackets |
| LogText.OneLine | kernel/kernel/printk.c:42-54 | a message of one line is logged as it is, with <4> in front if and only if it starts a line of the log and begins with none of <0> to <7> |
| LogText.LineByLine | kernel/kernel/printk.c:42-54 | the lines of a message are treated one by one, each after the first as the start of a line |
| Printk.Log.LogMeaning | kernel/kernel/printk.c:31-61 | both facts hold of the log in every valid state |
| IrqMask.InitialMask | kernel/arch/i386/i8259.c:22 | the initial 0xffff masks every line |
| IrqMask.SetLineIs | kernel/arch/i386/i8259.c:54-66 | setting a line's bit masks that line only and leaves the byte of the other controller alone |
| IrqMask.ClearLineIs | kernel/arch/i386/i8259.c:68-78 | clearing a line's bit unmasks that line only and leaves the byte of the other controller alone |
| IrqMask.MaskUnmask | kernel/arch/i386/i8259.c:26-31 | masking and unmasking a line restores the mask if and only if the line was unmasked |
| IrqMask.ByteBits | kernel/include/i386/i8259.h:30-32 | bit i of the master byte is line i's mask bit, bit i of the slave byte line 8 + i's |
| Irq.IrqTable.InitIsaIrqs | kernel/arch/i386/i8259.c:223-246 | initialisation writes both mask bytes, and leaves a valid table if and only if every line is masked |
| Irq.IrqTable.Enable | kernel/arch/i386/i8259.c:68-84 | unmasks that line only, writes one byte to its controller, both mask registers keep agreeing with the cached mask, no in-service bit changes, status becomes IRQ_PER_CPU |
| Irq.IrqTable.ImrBits | kernel/arch/i386/i8259.c:54-78 | whenever the registers agree with the cached mask, each line's bit in the mask register of its controller is set if and only if the line is masked |
| Irq.IrqTable.Startup | kernel/arch/i386/i8259.c:37-41 | starting a line keeps every invariant of the table |
| Irq.IrqTable.InitIrq | kernel/arch/i386/i8259.c:250-256 | from the initial mask, initialisation reaches a valid table in which exactly lines 0 and 1 are unmasked and per-CPU, and no line has an action yet |
| Irq.Boot | kernel/kernel/handle.c:10-15 | the static descriptors and the initial mask, taken through initialisation, give a valid table: the base case of every run |
| Irq.IrqTable.Disable | kernel/arch/i386/i8259.c:54-66 | masks that line only, writes one byte to its controller, changes no in-service bit and keeps every invariant of the table |
| Irq.IrqTable.MaskAndAck | kernel/arch/i386/i8259.c:109-176 | masks that line only; clears its in-service bit and, for a line of the slave, the master's bit of the cascade, and no other; a line masked before is first looked up in the in-service register and counted as an error if not in service; the writes are the specified ones in order |
| Irq.AckOrder | kernel/arch/i386/i8259.c:103-145 | among the writes of an acknowledgement, the line is masked at its controller when its end of interrupt is sent there, and a line of the slave is out of service there when the master is told |
| Irq.IrqTable.RealIrq | kernel/arch/i386/i8259.c:86-101 | the look at the in-service register of the line's controller tells whether the line is in service |
| Irq.IrqTable.End | kernel/arch/i386/i8259.c:26-31 | in a valid table exactly a line with an action is unmasked |
| Irq.IrqTable.UnmaskedIsPerCpu | kernel/arch/i386/i8259.c:68-84 | in every valid table an unmasked line has status IRQ_PER_CPU |
| Irq.IrqTable.ActionExact | kernel/kernel/manage.c:35-52 | in a valid table a line has an action if and only if one was ever requested on it |
| Irq.IrqTable.DoIrq | kernel/kernel/handle.c:71-92 | the per-CPU path follows a NULL action if and only if none was ever requested on the line; otherwise it calls each action once in order and returns with the mask as found if and only if the line was unmasked; the line, and for the slave the cascade, is out of service afterwards, and no other in-service bit changes |
| IrqChain.HandleIrqEvent | kernel/kernel/handle.c:47-69 | every action of the chain is called exactly once, in order, and the results are ORed |
| IrqChain.OrAllBit | kernel/kernel/handle.c:55-61 | a bit of the result is set if and only if some action returned it |
| IrqChain.BothShare | kernel/kernel/manage.c:39 | the combined flag test holds if and only if both actions allow sharing |
| IrqChain.LastAction | kernel/kernel/manage.c:45-48 | the pointer walk stops at the last action of the chain |
| Irq.IrqDesc.Store | kernel/kernel/manage.c:36-52 | the action is refused, or linked behind the last one; the chain in memory stays the one the requests add up to |
| Irq.IrqTable.SetupIrq | kernel/kernel/manage.c:6-71 | -ENOSYS without controller, -EBUSY unless both ends of the share agree, otherwise 0 with the action at the end of the chain; the first action of a line enables it; every invariant is kept for all lines |
| IrqChain.RequestedChain | kernel/kernel/manage.c:35-52 | over every run of requests a line's chain is its first action followed, in registration order, by exactly the later ones that allow sharing, and by none if the first does not |
| IrqChain.RequestedShare | kernel/kernel/manage.c:38-42 | all members of a chain of two or more allow sharing |

## Left out

- PageAlloc.Zone.Expand: models the split with three repairs, because as written it never yields a sound state. The order goes down from the one found to the one required, the stored value is an order and not a size (line 39), and PG_private is cleared on the head that is handed out (in PageAlloc.Zone.TakeFirst). BuddyResults.ExpandAsWrittenOverlaps, BuddyResults.StoredSizeHides and BuddyResults.UnclearedTagMerges show why.
- PageAlloc.Zone.FreePages: asks that the descriptor just past the zone does not look like a free block of the one order at which it can be probed, which the code does not test (BuddyResults.QuietExact and BuddyResults.PastProbeExact show that no less will do; BuddyResults.WholeZoneQuiet that nothing is asked of zones of a multiple of 1024 pages), and that the pages given back are not reserved and have count -1, as at boot (BuddyResults.CountDecides says what happens otherwise). The free_pages counter, which freeing never raises, is not modelled.
- PageAlloc.Zone.RmQueue: leaves out free_pages as well; pages carry their index in the page array in place of their address.
- MemInit.Node.AllocMemMap: runs the boot loop zone by zone instead of in one sweep over mem_map; the zones are consecutive and share nothing, so the pages come in the same order. Behind the last zone, if it is not a multiple of 1024 pages, what lies in memory must not look like a free block. A max_pfn beyond the pages of all zones, for which the code goes on past the initialised descriptors, is left out. The physical layout (end of kernel, end of descriptors) is a parameter.
- PageTable.InitPageTable: takes page-aligned bases, directory and tables disjoint, below the top of memory; the hardware walk is the 4-KiB case of 32-bit paging, without accessed and dirty bits.
- Slab.NewSlab: the page allocation of kmem_getpages and the page flags are not modelled, nor is wrap-around of slab addresses.
- Slab.SlabPage.Free: covers the two branches for a page no CPU is allocating from, up to the inuse update; the object must be one of the slab's and not already free, which the code does not test. The 15-bit width of inuse is not modelled.
- SpinLock.Lock.Execute: models the byte alone; preempt_disable, local_irq_save and memory ordering on other locations are left out, each instruction being atomic.
- Calendar.SetNormalizedTimespec: uses unbounded seconds and nanoseconds; overflow of time_t is not modelled. The first loop tests for more than 10^9, so 10^9 itself is a possible result, and the contract says exactly when.
- Calendar.TimeInit: takes the CMOS time as a parameter.
- Number.Format: is for widths and precisions from -1 on, as the scanner produces them, and for number texts of at most INT_MAX - 3 characters; beyond that int arithmetic can overflow.
- Vsnprintf.Vsnprintf: asks for Vsnprintf.Representable: every width and precision in the format is an int, the text has at most INT_MAX characters and each number in it at most INT_MAX - 3, and the pointer does not wrap (for which Vsnprintf.StoresExact shows that no less will do). The buffer is not at address 0, where no object lies. Pointers for `%n` point outside the buffer: the words to be stored are returned with the target addresses. Strings for `%s` are NUL-terminated, and the arguments are one list of 32-bit words.
- Printk.Log.Print: asks for the same premise as Vsnprintf.Vsnprintf; the console call is only a comment in the code.
- Irq.IrqTable.InitIsaIrqs: abstracts init_8259A to its last two mask writes; the command words sent before are left out.
- Irq.IrqTable.MaskAndAck: the controllers are their mask and in-service registers, obeying mask bytes and specific ends of interrupt (Irq.Obey); that a controller sets an in-service bit when it passes an interrupt on, the request registers and the dummy reads are left out, and so is the mask that remembers which spurious interrupts were seen, which only guards a disabled message.
- Irq.IrqTable.DoIrq: handlers are values that leave the controllers alone and no second interrupt arrives in between. What happens after following a NULL action is not modelled: the method stops there. A masked line ends unmasked, which the contract says. Locks and the processor's interrupt flag are not modelled.
- Irq.IrqTable.SetupIrq: the new action has a NULL next pointer and is on no chain, which the code does not test.
- The path of `__do_IRQ` for lines that are not per-CPU: it takes a lock and never releases it.
- Per-CPU page lists, buffered_rmqueue, `__alloc_pages` and the zone lists: the lists are never set up, so there is no invariant to keep.
- kmem_cache_alloc, the partial lists and the retirement of slabs: the retire test reads one link too far. kmalloc and kfree index past their table for some sizes.
- The branch of kmem_cache_free for the slab a CPU is allocating from: a lesser variant of the same insertion.
- Terminal, keyboard, CMOS and timer ports, multiboot data, traps and boot code: device access and platform set-up.
- String and memory primitives, bit scans, ilog2 and BCD macros: they would only add easy members.
