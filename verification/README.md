# The /proc/pid address-space interfaces of `task_mmu.c`

This project models the part of the kernel that shows a process's address space under
`/proc/pid`, and proves what its readers may rely on. Five components are covered.

**PAGEMAP_SCAN** (`ScanTypes`, `Regions`, `ScanBuffer`, `ScanSpec`, `ScanFastPath`,
`ScanSplit`, `ScanWalk`, `PagemapScan`, `ScanResults`). A scan walks a range of pages, selects
those whose categories pass a filter, run-length encodes them into a bounded buffer that is filled in place, copies the
buffer out and walks on, up to `max_pages` and the length of the caller's vector; on request it
write-protects what it selects. `ScanSpec.Matches` is the plain page-by-page list of selected
pages. The contract of `DoPagemapScan` (`ScanPost`) ties the vector, the page table, the result
and `walk_end` of a whole scan to that list. A huge page is reported as a whole, or, when only
part of it fits and it has to be protected, backed out of the buffer and split; `seen` is the
page table as the scan met it, the initial one with such pages split. Which pages those are is
determined (`SplitsExactly`), and `ScanResults` states what a caller can rely on over the table
the caller had.

**Reading maps, PROCMAP_QUERY and smaps_rollup** (`AddressSpace`, `MapsIteration`,
`ProcmapQuery`, `SmapsRollup`, `GrownMapping`). Other threads may change the address space whenever no lock
protects it: it is a snapshot for each point in time, and every lookup is made in the snapshot
of its own time. `Trace` records the steps of a reader's position; `Accounted` says what
became of an address the position has passed.

**Reading pagemap** (`PagemapEntry`, `PagemapView`, `PagemapRead`). The chunked read with
its callbacks, the packed entries, and the two userspace readers that decode them.

**smaps accounting** (`Smaps`, `SmapsTally`, `SmapsWalk`, `Pss`). What a walk over the page
tables adds to the statistics of a VMA, what each figure stands for, which pages are counted, and
the proportional set size over all processes.

**clear_refs and soft-dirty** (`SoftDirty`). Clearing, and whole runs of writes, evictions and
clearings observed through pagemap.

Objects the kernel updates in place are classes: the scan's private data with its array
buffer, the seq_file reader, the query context, the pagemap buffer, the statistics. Each of
their methods is proved against a function of the old state or against what it means; the
lemmas are about those functions. Locks and references are counters of the reader's own share
(`Held`). Whatever the kernel cannot foresee is a parameter: failing copies, pending signals,
the outcome of each attempt to lock a VMA, and how far the address space has moved on. Pages
are numbered, since every address that reaches the modelled code is page aligned; `pagemap`
byte positions, 64-bit wrap-around in the excess of a scan and in the range of a read, and the
bits of pagemap entries are modelled as such.

Where the code and its documentation disagree, or it does not do what one would expect, the
model follows the code, shows an input, and proves the condition under which all is well:

* The loop for requests that ask for WRITTEN pages alone takes an empty PTE for a WRITTEN page,
  which the general loop does not. The scan reports the documented list if and only if no
  admitted page of the range has an empty PTE (`SelectedIsWanted`, `DocumentedIffNoEmptyPte`,
  `StepsAgree`; input: `EmptyPteIsReported`).
* A huge page that has to be split is reported and backed out, and then its pages are filtered
  again, now without the HUGE category: a request that asks for HUGE loses them, although no
  limit is used up. The vector is the list of matches of the caller's table if and only if no
  huge page that has to be split loses by it (`SplitKeepsMatches`, `VectorIsTheMatches`); none
  of an anonymous mapping does if no mask mentions HUGE (`NothingLost`). In a file mapping the
  split unmaps the page, so that even a request for WRITTEN alone loses it. Inputs:
  `SplitPageIsMissed` and `SplitFilePageIsMissed`, where 512 pages match, none is reported, and
  `walk_end` is left in the middle.
* Without an output vector a protecting scan protects every PTE of the VMAs it walks, whatever
  its filter says. It protects wanted pages only if and only if all unprotected PTEs it passes
  are wanted (`ProtectsUnwantedPages`; input: `UnwantedPageIsProtected`).
* A huge page that is neither present nor migrating is reported as WRITTEN but not protected.
  A scan that protects WRITTEN pages takes all its matches away if and only if there is no
  such page among them (`ProtectsWhatItReports`, `ScanClearsItsMatches`; input:
  `HugePageStaysWritten`).
* `walk_end` is set to the end of the range only if it was never set. A scan that completes
  after its buffer was refilled leaves the page where the last walk began, or the mark of a
  huge page it backed out (`EndOfCompleteScan` in `ScanPost`). Resuming there is right if and
  only if everything reported lies below it, which a caller can see (`WalkEndIsInRange`,
  `ResumeContinues`).
* clear_refs takes the soft-dirty flag off every VMA. In a PFN mapping, where pagemap shows
  nothing else, every later write is lost; elsewhere a write to a pinned page is lost whose PTE
  is writable and was not soft-dirty itself. No write is lost if and only if the page is tracked
  in the sense of `TrackedAt` (`NoWriteIsLost`; inputs: `WriteIsLostInPfnMapping`,
  `WriteIsLostWhenPinned`). Conversely some pages stay soft-dirty; exactly which is part of
  `ShowsExactlyTheWrites`.
* smaps_rollup resumes in the middle of a mapping that has grown while the lock was dropped. If
  the position lies inside a huge page by then, the walk counts all of it, including pages that
  were counted before. No page is counted by two steps if and only if no step begins inside a
  huge page (`CountedOnceIffNoneInside`); a page is counted twice at most (`RecountedOnce`).
  Input: `GrownMappingIsCountedTwice`, where 512 pages are reported as 768.

## Model

| member | source | states |
|---|---|---|
| `ScanTypes.LazyFile` | investigations/mapping_field_decode/task_mmu.c:2330-2378 | looking up FILE only when some mask mentions it changes neither the decision, nor the reported categories, nor the write-protect decision |
| `ScanTypes.UnmentionedBits` | investigations/mapping_field_decode/task_mmu.c:2540-2550 | categories that differ only in bits outside all masks are filtered and reported alike |
| `ScanTypes.VmaFilterDropsNothing` | investigations/mapping_field_decode/task_mmu.c:2552-2604 | a VMA that is skipped or that fails the scan holds no selected page |
| `ScanTypes.WrittenOnlyFilter` | investigations/mapping_field_decode/task_mmu.c:2760-2762 | under a WRITTEN-only request the documented filter is the WRITTEN bit, and the report is WRITTEN alone |
| `ScanTypes.WrittenIsUnprotected` | investigations/mapping_field_decode/task_mmu.c:2344-2363 | a page is WRITTEN if and only if it has an entry, and the entry is not write-protected |
| `ScanTypes.SelectedIsWanted` | investigations/mapping_field_decode/task_mmu.c:2760-2782 | a page is selected and reported as documented if and only if it is not an admitted empty PTE under a WRITTEN-only request |
| `ScanTypes.CategoriesMean` | investigations/mapping_field_decode/task_mmu.c:2330-2442 | each of the nine categories computed for a page holds if and only if the VMA or the entry of the page says so, field by field: SOFT_DIRTY if either is soft-dirty, GUARD for a PTE with a guard marker, and so on |
| `ScanTypes.WantedMeans` | investigations/mapping_field_decode/task_mmu.c:2540-2550 | the documented filter bit by bit: the VMA may be scanned, every required category is met, had or lacked as the request says, and one of the alternatives if there are any |
| `ScanTypes.TestWalkMeans` | investigations/mapping_field_decode/task_mmu.c:2564-2604 | a VMA fails the scan, is skipped, or is walked, exactly under the stated conditions on its protection, its kind and the request |
| `ScanTypes.ProtectMeans` | investigations/mapping_field_decode/task_mmu.c:2380-2396 | protecting an entry changes its protection and nothing else; an empty one becomes a marker with SWAPPED as its only category; a huge page changes if and only if it is mapped or migrating |
| `Regions.ExpandHolds` | investigations/mapping_field_decode/task_mmu.c:2606-2634 | every page of every region of a vector is in the list the vector stands for |
| `Regions.ExpandFrom` | investigations/mapping_field_decode/task_mmu.c:2606-2634 | every page of that list comes from a region with the same categories |
| `Regions.AscendingRegions` | investigations/mapping_field_decode/task_mmu.c:2606-2634 | non-empty regions whose pages ascend are sorted and disjoint |
| `Regions.RunLengthUnique` | investigations/mapping_field_decode/task_mmu.c:2606-2634 | for every list of pages there is only one vector of non-empty regions in which no region continues the one before |
| `ScanBuffer.ExcessIsTrue` | investigations/mapping_field_decode/task_mmu.c:2648-2655 | the excess over `max_pages` computed from the sum modulo 2^64 is the true excess, also when the addition wraps, and is computed exactly when there is one |
| `ScanBuffer.ScanState.Clamp` | investigations/mapping_field_decode/task_mmu.c:2648-2655 | the run is cut to exactly the pages that `max_pages` still allows |
| `ScanBuffer.ScanState.PushMeaning` | investigations/mapping_field_decode/task_mmu.c:2606-2634 | a push adds the run to the buffered regions, joined to the last one where it continues it; it fails only when the buffer is full and the run does not continue the last region, and then changes nothing |
| `ScanBuffer.ScanState.PushRegions` | investigations/mapping_field_decode/task_mmu.c:2606-2634 | over everything reported so far, copied out or not, a push appends exactly the pages of the run and keeps the vector non-empty region by region and coalesced, also across a flush |
| `ScanBuffer.ScanState.OutputMeaning` | investigations/mapping_field_decode/task_mmu.c:2636-2668 | an output appends exactly the pages up to the end it returns, and keeps `found_pages` equal to the pages reported and at most `max_pages` |
| `ScanBuffer.ScanState.OutputStops` | investigations/mapping_field_decode/task_mmu.c:2649-2661 | ENOSPC means that `max_pages` is reached, or that the buffer is full and the run does not continue its last region |
| `ScanBuffer.ScanState.OutputFrame` | investigations/mapping_field_decode/task_mmu.c:2657-2667 | the result is 0 if and only if the whole run was taken; `walk_end` is set to the returned end exactly on ENOSPC |
| `ScanBuffer.ScanState.BackoutRegions` | investigations/mapping_field_decode/task_mmu.c:2523-2537 | a back-out cuts the last region of the whole vector at the given page, or drops it |
| `ScanBuffer.ScanState.BackoutMeaning` | investigations/mapping_field_decode/task_mmu.c:2523-2537 | a back-out undoes the output before it: the list of reported pages and `found_pages` are again what they were |
| `ScanBuffer.ScanState.FlushMeaning` | investigations/mapping_field_decode/task_mmu.c:2982-3007 | a flush hands over all buffered regions and no more, empties the buffer, and the buffer has a slot again unless the caller's vector is full |
| `ScanBuffer.ScanPrivate.constructor` | investigations/mapping_field_decode/task_mmu.c:2964-2980 | a new scan has reported nothing and, if there is an output vector, has a buffer for as many regions as it holds, but at most 512 |
| `ScanBuffer.ScanPrivate.PushRange` | investigations/mapping_field_decode/task_mmu.c:2606-2634 | the in-place push on the buffer array does what `Push` does, within the array |
| `ScanBuffer.ScanPrivate.Output` | investigations/mapping_field_decode/task_mmu.c:2636-2668 | result, end and new state are those of the specification, with machine arithmetic |
| `ScanBuffer.ScanPrivate.BackoutRange` | investigations/mapping_field_decode/task_mmu.c:2523-2537 | the in-place back-out is that of the specification |
| `ScanBuffer.ScanPrivate.FlushBuffer` | investigations/mapping_field_decode/task_mmu.c:2982-3007 | returns the number of regions copied out, or EFAULT with the state unchanged if the copy failed |
| `ScanSpec.MatchesExactly` | investigations/mapping_field_decode/task_mmu.c:2540-2550 | the list of matches holds a page if and only if it is in the range and selected, with the categories to report |
| `ScanSpec.MatchesAscend` | investigations/mapping_field_decode/task_mmu.c:2784-2806 | the list of matches is in address order, each page once |
| `ScanSpec.SkipRun` | investigations/mapping_field_decode/task_mmu.c:2790-2791 | passing over pages that are not selected keeps the scan's invariant: all matches so far reported, all pages so far protected as asked |
| `ScanSpec.ReportRun` | investigations/mapping_field_decode/task_mmu.c:2636-2668 | reporting a run of selected pages keeps the invariant up to the page returned, also if the run is cut short, and an error tells why the scan is blocked there |
| `ScanSpec.FlushProgress` | investigations/mapping_field_decode/task_mmu.c:3055-3065 | a flush keeps the invariant; a blocked scan has something to flush, and can report again at the page where it was blocked unless `max_pages` or the vector is used up |
| `ScanSpec.BackoutProgress` | investigations/mapping_field_decode/task_mmu.c:2699-2709 | after part of a huge page was reported, backed out, and the page split, the scan is where it was before, over the table it would have met had the page been split beforehand |
| `ScanSpec.PageReported` | investigations/mapping_field_decode/task_mmu.c:2784-2806 | the general loop reports a selected page, and protects it if it is WRITTEN and that was asked for; or does neither and stops at it |
| `ScanSpec.WrittenReported` | investigations/mapping_field_decode/task_mmu.c:2763-2780 | likewise for the WRITTEN-only loop, which never looks at the categories |
| `ScanSpec.WrittenSkipped` | investigations/mapping_field_decode/task_mmu.c:2767-2769 | the page the WRITTEN-only loop passes over is not selected |
| `ScanSpec.ExclusivePage` | investigations/mapping_field_decode/task_mmu.c:2744-2758 | without an output vector each page is protected, protected already or not |
| `ScanSpec.HoleReported` | investigations/mapping_field_decode/task_mmu.c:2887-2902 | a selected range without page tables is reported, and markers are installed in exactly the part that was reported |
| `ScanSpec.ThpReported` | investigations/mapping_field_decode/task_mmu.c:2684-2715 | a huge page, or part of one, that needs no splitting is reported and protected alike |
| `ScanSpec.PieceSkipped` | investigations/mapping_field_decode/task_mmu.c:2564-2604 | skipping a VMA passes over no selected page |
| `ScanSpec.SplitStaysPassable` | investigations/mapping_field_decode/task_mmu.c:2573-2577 | splitting huge pages changes nothing about which VMAs make the scan fail |
| `ScanFastPath.SameOffer` | investigations/mapping_field_decode/task_mmu.c:2760-2802 | under a WRITTEN-only request both loops decide alike on a page if and only if its entry is not empty, and if both take it they report and protect it alike |
| `ScanFastPath.StepsAgree` | investigations/mapping_field_decode/task_mmu.c:2760-2806 | at any page the two loops leave the same buffer, count, `walk_end`, page table and result if and only if its entry is not empty |
| `ScanFastPath.LoopsAgree` | investigations/mapping_field_decode/task_mmu.c:2760-2806 | if no entry of the table is empty to begin with, the WRITTEN-only loop run to its end or to its first error leaves the same buffer, count, `walk_end`, page table and result as the general loop |
| `ScanSplit.OutputCuts` | investigations/mapping_field_decode/task_mmu.c:2690-2703 | the end of the report of a huge page tells whether the page is cut, and whether `max_pages` cut it |
| `ScanSplit.SplitsOn` | investigations/mapping_field_decode/task_mmu.c:3047-3066 | over several walks exactly the huge pages that are to be protected and cut get split |
| `ScanSplit.ClampsOn` | investigations/mapping_field_decode/task_mmu.c:2664-2665 | over several pieces `walk_end` bears the mark of the last huge page whose cut report was backed out |
| `ScanSplit.SplitTakesHuge` | investigations/mapping_field_decode/task_mmu.c:2684-2685 | splitting a WRITTEN huge page takes the HUGE category away and no other, or, in a file mapping, all but those of the VMA |
| `ScanSplit.KeptIff` | investigations/mapping_field_decode/task_mmu.c:2699-2709 | a matching huge page still matches after its split, with the same report, if and only if the request neither requires nor reports HUGE nor relies on it among the categories of which one is enough; or, in a file mapping, is content with the categories of the VMA |
| `ScanSplit.SplitKeepsMatches` | investigations/mapping_field_decode/task_mmu.c:2699-2709 | the matches of the caller's table and those of the table as it was met agree if and only if no huge page that has to be split loses by it, all told from the caller's table |
| `ScanWalk.Mm.MakeUffdWpPte` | investigations/mapping_field_decode/task_mmu.c:2380-2396 | protects one PTE, an empty one by a marker, and touches no other |
| `ScanWalk.Mm.MakeUffdWpPmd` | investigations/mapping_field_decode/task_mmu.c:2444-2457 | protects a whole huge page if it is present or migrating, and touches nothing else |
| `ScanWalk.ScanPage` | investigations/mapping_field_decode/task_mmu.c:2784-2806 | one page of the general loop keeps the scan's invariant, or stops with ENOSPC at the page; it takes the step of `PageStep` |
| `ScanWalk.ScanWrittenPage` | investigations/mapping_field_decode/task_mmu.c:2763-2780 | one page of the WRITTEN-only loop, likewise |
| `ScanWalk.ProtectPage` | investigations/mapping_field_decode/task_mmu.c:2746-2756 | one page of the loop that only protects |
| `ScanWalk.ScanPtes` | investigations/mapping_field_decode/task_mmu.c:2735-2816 | the loops keep the invariant up to the end or to `walk_end`, every entry that changed lies inside the one range flushed from the TLB, and state, table and result are those of `Loop` for the loop the request takes |
| `ScanWalk.SplitAndBackOut` | investigations/mapping_field_decode/task_mmu.c:2699-2709 | splitting and backing out leave the scan at the start of the piece, with nothing before it touched, and PTEs there, or nothing in a file mapping; only a huge page that is cut is split, and `walk_end` is marked exactly if `max_pages` cut it |
| `ScanWalk.ThpEntry` | investigations/mapping_field_decode/task_mmu.c:2670-2719 | a huge entry is reported, skipped, or split and left to the PTE loops; it is split if and only if it is to be protected and is cut |
| `ScanWalk.PmdEntry` | investigations/mapping_field_decode/task_mmu.c:2721-2817 | whatever the entry holds, the invariant is kept up to its end or to where the scan ran out of room, unless the entry is gone after a split; then the scan is where it was and the walker is asked to look again |
| `ScanWalk.PteHole` | investigations/mapping_field_decode/task_mmu.c:2880-2902 | the same for a range without page tables, inside or outside VMAs |
| `ScanWalk.WalkPmd` | investigations/mapping_field_decode/task_mmu.c:2736-2740 | looking again at an entry that is gone treats the range as a hole, and keeps the invariant like any other piece |
| `ScanWalk.EnterVma` | investigations/mapping_field_decode/task_mmu.c:2564-2604 | enters, skips or fails as specified, and sets the categories of the VMA when it enters (what that means: `ScanTypes.TestWalkMeans`, `ScanTypes.CategoriesMean`) |
| `ScanWalk.WalkPageRange` | investigations/mapping_field_decode/task_mmu.c:3047-3048 | however the range is cut into pieces, the walk keeps the invariant up to its end, up to where it ran out of room, or up to the first VMA that makes the scan fail; exactly the huge pages that have to be are split, and `walk_end` bears the mark of the last back-out |
| `PagemapScan.FlushRound` | investigations/mapping_field_decode/task_mmu.c:3055-3065 | after the flush the regions copied out are the matches up to the stop point, or up to an earlier page if the copy failed; a further round follows only with room regained |
| `PagemapScan.RoundAdvances` | investigations/mapping_field_decode/task_mmu.c:3026-3027 | a round that reported something new has moved `walk_start` strictly on |
| `PagemapScan.ScanRound` | investigations/mapping_field_decode/task_mmu.c:3026-3066 | every round that is followed by another strictly lowers `vec_len` and raises `walk_start`, and the next round starts with an empty buffer that has a slot |
| `PagemapScan.Undelivered` | investigations/mapping_field_decode/task_mmu.c:2996-2997 | what was copied out before a copy failed is still the list of matches below some page |
| `PagemapScan.DoPagemapScan` | investigations/mapping_field_decode/task_mmu.c:3009-3080 | a whole scan terminates; the vector is the run-length code of the matches below the stop point in the table as it was met, exactly the pages below it are protected as asked, exactly the huge pages that have to be are split, the stop point is the end of the range unless `max_pages` or `vec_len` is used up, `walk_end` is the stop point of a scan that stopped early and has a stated value in any other; a scan is interrupted by the first signal it meets and by nothing else, and each other error has its cause |
| `ScanResults.VectorIsTheMatches` | investigations/mapping_field_decode/task_mmu.c:3009-3080 | the vector is sorted and disjoint; it is the list of the matches of the caller's table below the stop point if and only if no huge page that has to be split loses by it; the stop point is the end of the range unless a limit is used up |
| `ScanResults.VectorIsAPrefix` | investigations/mapping_field_decode/task_mmu.c:3009-3080 | if no huge page of the range that has to be split loses by it, the vector is a prefix of all matches of the caller's table, and all of them unless a limit is used up |
| `ScanResults.NothingLost` | investigations/mapping_field_decode/task_mmu.c:2699-2709 | no huge page loses by a split if no mask mentions HUGE and none is in a file mapping, if the request does not protect, or if its range and `max_pages` cut none |
| `ScanResults.SplitPageIsMissed` | investigations/mapping_field_decode/task_mmu.c:2699-2709 | an instance: 512 pages of a huge page match, `max_pages` is 100, and the completed scan reports nothing and leaves 100 pages as `walk_end` |
| `ScanResults.SplitFilePageIsMissed` | investigations/mapping_field_decode/task_mmu.c:2699-2709 | an instance: the same happens to a huge page of a file mapping under a request for WRITTEN pages alone |
| `ScanResults.VectorCoversTheMatches` | investigations/mapping_field_decode/task_mmu.c:2784-2806 | under the same condition a region with given categories covers a page if and only if the page is below the stop point and selected in the caller's table, with those categories |
| `ScanResults.RegionsTellCategories` | investigations/mapping_field_decode/task_mmu.c:2784-2806 | under the same condition a region with given categories covers a page if and only if the page is below the stop point, wanted (or an empty PTE that passes for WRITTEN), and has exactly those of the categories asked for, as its VMA and its entry tell |
| `ScanResults.VectorIsCanonical` | investigations/mapping_field_decode/task_mmu.c:2606-2634 | without a back-out the vector is the only coalesced one for its pages, however often the buffer was refilled |
| `ScanResults.ProtectsWhatItReports` | investigations/mapping_field_decode/task_mmu.c:2690-2817 | no page is protected but a selected one, or, without an output vector, a PTE of a walked VMA; with one, no page that is not reported, and a reported WRITTEN page if and only if it is not in a huge page that cannot be; nothing beyond the stop point changes; protection is never lost |
| `ScanResults.ProtectsExactly` | investigations/mapping_field_decode/task_mmu.c:2380-2457 | which pages become protected, exactly, and what is left in them: the entry with its protection changed, or a marker where there was none; every other page keeps its entry |
| `ScanResults.ProtectsUnwantedPages` | investigations/mapping_field_decode/task_mmu.c:2744-2758 | without an output vector only wanted pages become protected if and only if every unprotected PTE of a walked VMA below the stop point is wanted |
| `ScanResults.UnwantedPageIsProtected` | investigations/mapping_field_decode/task_mmu.c:2744-2758 | an instance: a mapped page is protected by a request for swapped pages |
| `ScanResults.ScanClearsItsMatches` | investigations/mapping_field_decode/task_mmu.c:2744-2817 | after a protecting scan for WRITTEN pages no page below the stop point matches any more, if and only if none of the matches is in a huge page that cannot be protected; to be told from the caller's table if it has no such page at all |
| `ScanResults.ResumeContinues` | investigations/mapping_field_decode/task_mmu.c:3026-3080 | a second request from `walk_end` on, above everything reported, continues the first: together they report one list of matches and protect one range, and what the first did is kept |
| `ScanResults.WalkEndIsInRange` | investigations/mapping_field_decode/task_mmu.c:3064-3074 | `walk_end` lies in the range; everything reported is what matches below it if and only if no region ends above it, which is so in every scan that stopped early |
| `ScanResults.CompleteWalkEnd` | investigations/mapping_field_decode/task_mmu.c:3072-3074 | a completed scan without a back-out leaves the end of the range if its buffer was never refilled, else the page where its last walk began |
| `ScanResults.DocumentedIffNoEmptyPte` | investigations/mapping_field_decode/task_mmu.c:2760-2782 | the list reported is the documented one if and only if the request is not WRITTEN-only or no admitted page of the range has an empty PTE |
| `ScanResults.EmptyPteIsReported` | investigations/mapping_field_decode/task_mmu.c:2763-2771 | an instance: a page with an empty PTE is reported as WRITTEN though the documented list is empty |
| `ScanResults.HugePageStaysWritten` | investigations/mapping_field_decode/task_mmu.c:2449-2456 | an instance: a huge page that is neither present nor migrating is selected by a protecting scan that leaves it as it is |
| `AddressSpace.NothingBefore` | investigations/mapping_field_decode/task_mmu.c:182-197 | nothing is mapped between an address and the VMA found for it, nor anything from the address on if none is found |
| `AddressSpace.FirstIsLowest` | investigations/mapping_field_decode/task_mmu.c:549-557 | the VMA found lies below every other one that ends after the address |
| `AddressSpace.EveryAddressAccounted` | investigations/mapping_field_decode/task_mmu.c:243-273 | however the address space changes between steps, every address below the position is covered by a reported VMA or was unmapped in the snapshot in which the position passed it |
| `AddressSpace.WholeSpaceAccounted` | investigations/mapping_field_decode/task_mmu.c:243-273 | once no VMA is left after the position this holds of every address |
| `AddressSpace.PositionsIncrease` | investigations/mapping_field_decode/task_mmu.c:260-266 | each step begins where an earlier one ended or later, and moves the position strictly on |
| `MapsIteration.MapsReader.UnlockCtxVma` | investigations/mapping_field_decode/task_mmu.c:141-147 | gives back the VMA lock if one is held, once |
| `MapsIteration.MapsReader.GetNextVma` | investigations/mapping_field_decode/task_mmu.c:182-197 | the first VMA after the position in the current snapshot, protected while it is used; or an error exactly when its lock could not be taken |
| `MapsIteration.MapsReader.FallbackToMmapLock` | investigations/mapping_field_decode/task_mmu.c:199-214 | RCU is exchanged for the mmap lock, at most once, with the iterator at the position |
| `MapsIteration.MapsReader.ProcGetVma` | investigations/mapping_field_decode/task_mmu.c:243-273 | a record moves the position strictly on, to its end, and is remembered together with the position it was looked up from; EAGAIN never reaches the reader; an interruption leaves the position and what is remembered alone |
| `MapsIteration.MapsReader.LockVmaRange` | investigations/mapping_field_decode/task_mmu.c:151-170 | takes the mmap lock or enters RCU, or fails with nothing taken |
| `MapsIteration.MapsReader.Acquire` | investigations/mapping_field_decode/task_mmu.c:286-303 | takes one task and one mm reference and a lock, or reports which of them failed and keeps nothing |
| `MapsIteration.MapsReader.MStart` | investigations/mapping_field_decode/task_mmu.c:275-317 | whatever was delivered last, resuming in the same snapshot delivers it again, and in another one what has taken its place; a dead task, a dead mm and a killed lock each give their result; the trace of records stays sound |
| `MapsIteration.MapsReader.MNext` | investigations/mapping_field_decode/task_mmu.c:319-326 | the next record starts the step where the last one ended, moves strictly on and is the one remembered; after the gate the end |
| `MapsIteration.PauseLosesNothing` | investigations/mapping_field_decode/task_mmu.c:259-310 | stop and start after a delivered record: in the same snapshot the reader gets the same record again, and the next one it gets starts the step where that one ended |
| `MapsIteration.MapsReader.MStop` | investigations/mapping_field_decode/task_mmu.c:328-341 | whatever the reader holds is given back, each lock and reference once; nothing if it holds nothing |
| `MapsIteration.ReadMaps` | investigations/mapping_field_decode/task_mmu.c:243-341 | over every sequence of start, next and stop, with any interference: nothing is held afterwards; the call after a pause delivers the record before the pause again, if its snapshot is the same and it is not interrupted; every record kept has reached the reader; every address passed is accounted for, all addresses at the end |
| `ProcmapQuery.LookupStep` | investigations/mapping_field_decode/task_mmu.c:609-648 | one lookup finds the answer, or rules out everything up to the end of the VMA it found, or shows that there is no answer |
| `ProcmapQuery.TurnedDownFor` | investigations/mapping_field_decode/task_mmu.c:617-636 | a VMA is turned down if and only if it lacks the file or one of the four permissions that a flag of the query asks for |
| `ProcmapQuery.AnswerIsUnique` | investigations/mapping_field_decode/task_mmu.c:604-652 | a query has at most one answer in a snapshot, and not both an answer and none |
| `ProcmapQuery.PassedOverForAReason` | investigations/mapping_field_decode/task_mmu.c:643-648 | over an address space that changes, every address the query passed was in a VMA that failed the filters when it was found, or was not mapped then |
| `ProcmapQuery.QueryContext.FindByAddr` | investigations/mapping_field_decode/task_mmu.c:549-582 | the first VMA after the address, under its own lock or, after EAGAIN, under the mmap lock, never both |
| `ProcmapQuery.QueryContext.QueryMatchingVma` | investigations/mapping_field_decode/task_mmu.c:604-652 | terminates; the VMA returned is protected, in the current snapshot and passes the filters; over an address space that does not change it is the lowest one that may be returned, and ENOENT means that there is none; over any, it is what the lookup found after the VMAs that failed the filters; it is interrupted if and only if a lookup is before any needed the mmap lock |
| `ProcmapQuery.QueryContext.Teardown` | investigations/mapping_field_decode/task_mmu.c:539-547 | only the mm reference is left |
| `ProcmapQuery.QueryContext.DoProcmapQuery` | investigations/mapping_field_decode/task_mmu.c:685-803 | on every exit all locks and references are given back; the reply is the answer |
| `SmapsWalk.GatherStats` | investigations/mapping_field_decode/task_mmu.c:1306-1310 | the walk accounts exactly the entries of the VMA, from the given start on or all of it if that is 0, on top of the statistics there are |
| `SmapsWalk.EntriesCountPages` | investigations/mapping_field_decode/task_mmu.c:1095-1117 | a walk counts every page of its range once, and before them the pages of the huge page it begins inside of |
| `SmapsWalk.BlockCounted` | investigations/mapping_field_decode/task_mmu.c:1085-1086 | a huge entry counts the pages of its block one by one |
| `SmapsRollup.GatherStep` | investigations/mapping_field_decode/task_mmu.c:1472-1483 | in all cases after a dropped lock the walk begins at the position if that lies in the VMA, else at the start of the VMA, and the position moves to its end |
| `SmapsRollup.GatherRound` | investigations/mapping_field_decode/task_mmu.c:1414-1485 | one round makes exactly the one or two steps of `Run`, adds what they account, and stops only if nothing is left or the lock could not be taken again |
| `SmapsRollup.ShowSmapsRollup` | investigations/mapping_field_decode/task_mmu.c:1408-1485 | the steps are those of `Run`, the total is what their walks account, and it ends with nothing left after the position, or with EINTR if and only if the lock could not be taken again |
| `SmapsRollup.CountedOnceIffNoneInside` | investigations/mapping_field_decode/task_mmu.c:1431-1483 | whatever changes while the lock is dropped, no page is counted by two steps if and only if no step begins inside a huge page |
| `SmapsRollup.RangesAreDisjoint` | investigations/mapping_field_decode/task_mmu.c:1431-1483 | the ranges from where the steps begin to where they end are disjoint |
| `SmapsRollup.StepBounds` | investigations/mapping_field_decode/task_mmu.c:1472-1483 | a step begins inside a huge page only where the step before it ended, and ends inside none |
| `SmapsRollup.CountedAgain` | investigations/mapping_field_decode/task_mmu.c:1480-1483 | a step that begins inside a huge page counts the page before it, which the step before counted too |
| `SmapsRollup.RecountedOnce` | investigations/mapping_field_decode/task_mmu.c:1480-1483 | no page is counted again by two steps, so none is counted more than twice |
| `GrownMapping.GrownMappingIsCountedTwice` | investigations/mapping_field_decode/task_mmu.c:1422-1483 | an instance: a mapping of 256 pages grows to 512 and collapses into a huge page while the lock is dropped; page 600, mapped all the time, is counted by both steps, and 768 pages are reported |
| `SmapsRollup.MappedIsCountedOnce` | investigations/mapping_field_decode/task_mmu.c:1413-1485 | an address that is mapped all the time is gathered by exactly one step of a rollup that is not interrupted, and counted exactly once if and only if no step counts it again |
| `SmapsRollup.RollupIsTheTotal` | investigations/mapping_field_decode/task_mmu.c:1413-1485 | every figure of the total is the sum over the pages the steps count, each with the property the figure stands for |
| `SmapsRollup.StepsGatherVmas` | investigations/mapping_field_decode/task_mmu.c:1413-1485 | over one snapshot the steps so far and the VMAs after the position add up to all VMAs |
| `SmapsRollup.UncontendedIsTheSum` | investigations/mapping_field_decode/task_mmu.c:1413-1485 | without contention the total is the sum of the figures smaps has for the VMAs |
| `PagemapEntry.PackDecodes` | investigations/mapping_field_decode/task_mmu.c:1848-1864 | every flag and the low 55 bits of the frame come back from an entry, and bits 59 and 60 are zero |
| `PagemapEntry.BitPositions` | investigations/mapping_field_decode/task_mmu.c:1848-1857 | the seven flags stand at bits 55 to 58 and 61 to 63 of an entry |
| `PagemapEntry.SwapFrameDecodes` | investigations/mapping_field_decode/task_mmu.c:2180-2181 | swap type and offset come back from the fields of a frame |
| `PagemapEntry.SwapFrameStep` | investigations/mapping_field_decode/task_mmu.c:2055-2060 | adding one step to a swap frame raises the offset by one and never disturbs the type |
| `PagemapEntry.DecodersAgree` | investigations/struct_page_course/dirty_trace_v2.c:36-42 | the two decoders give the same result for every entry: the frame field if the present bit is set, else 0 |
| `PagemapView.EntriesAt` | investigations/mapping_field_decode/task_mmu.c:2173-2200 | one entry for each page, in order |
| `PagemapView.VmaSoftDirtyMeans` | investigations/mapping_field_decode/task_mmu.c:1881-1919 | the lookup finds a soft-dirty VMA if and only if one covers the page |
| `PagemapView.FrameStepRefines` | investigations/mapping_field_decode/task_mmu.c:1992-2061 | stepping the frame along a huge page always gives the base frame plus the page's index, or the swap type below base offset plus index |
| `PagemapView.EntryTells` | investigations/mapping_field_decode/task_mmu.c:1921-2063 | each flag of an entry if and only if the page or its VMA has what the flag stands for: present, swap, soft-dirty (of the VMA or the entry), uffd-wp (the entry or its marker), guard, file, exclusive; without the privilege no frame is shown |
| `PagemapView.SwappedEntryDecodes` | investigations/mapping_field_decode/task_mmu.c:2180-2181 | to a privileged reader the entry of a swapped page gives its swap type, and its offset within 50 bits, also inside a huge page |
| `PagemapView.HoleDecodes` | investigations/mapping_field_decode/task_mmu.c:1890-1910 | the entry of a page without page tables tells only whether its VMA is soft-dirty |
| `PagemapRead.Reader.AddToPagemap` | investigations/mapping_field_decode/task_mmu.c:1866-1872 | appends the entry inside the buffer and reports the end of the buffer exactly when it is full |
| `PagemapRead.Reader.PteHole` | investigations/mapping_field_decode/task_mmu.c:1881-1919 | appends exactly the entries of the pages of the range, across any number of VMAs and gaps |
| `PagemapRead.Reader.PmdRangeThp` | investigations/mapping_field_decode/task_mmu.c:1988-2063 | the incremental loop appends the entries of the direct formula, from any page of the huge page on |
| `PagemapRead.Reader.PteRange` | investigations/mapping_field_decode/task_mmu.c:2093-2105 | appends exactly the entries of the PTEs |
| `PagemapRead.Reader.WalkPageRange` | investigations/mapping_field_decode/task_mmu.c:2262-2272 | the walk appends the entries of all pages of a range that fits the buffer; the end of the buffer never cuts it short |
| `PagemapRead.ReadRange` | investigations/mapping_field_decode/task_mmu.c:2233-2255 | the guarded 64-bit computation yields the pages from the file position on, as many as were asked for, up to the end of the address space, or an empty range |
| `PagemapRead.ChunkEnd` | investigations/mapping_field_decode/task_mmu.c:2263-2266 | a chunk is not empty, stays in the range and fits the buffer |
| `PagemapRead.FillBuffer` | investigations/mapping_field_decode/task_mmu.c:2262-2272 | the buffer holds the entries of the chunk, all of them and no others |
| `PagemapRead.PagemapRead` | investigations/mapping_field_decode/task_mmu.c:2201-2293 | a read of n entries from entry p on delivers the entries of the pages p up to the smaller of p + n and the end of the address space, and moves the position past them; each error has its cause in the very round it ends in, leaves the position, and follows chunks that were delivered |
| `PagemapRead.ReadEntriesAt` | investigations/mapping_field_decode/task_mmu.c:2233-2285 | a read delivers one entry for each page asked for and there is, in order |
| `PagemapRead.TwoReadsAreOne` | investigations/mapping_field_decode/task_mmu.c:2283-2285 | on an address space that does not change two reads in a row deliver what one read does |
| `PagemapRead.DecodeEntry` | investigations/malloc_pagefault/malloc_user.c:96-102 | either decoder recovers the frame from the entry of a present page and 0 from any other |
| `PagemapRead.PrivilegedReaderSeesPfn` | investigations/mapping_field_decode/task_mmu.c:1931-1933 | to a privileged reader the frame of a present page is its PFN, if that is below 2^55 |
| `PagemapRead.GetPfnMasked` | investigations/struct_page_course/dirty_trace_v2.c:16-43 | index, read and mask undo the kernel's packing for every address; what is not 0 is the frame of the page |
| `PagemapRead.GetPfnShifted` | investigations/malloc_pagefault/malloc_user.c:63-103 | the same of the reader that shifts |
| `Smaps.AccountConserves` | investigations/mapping_field_decode/task_mmu.c:903-976 | accounting a page or a huge page keeps the conservation laws |
| `Smaps.WalkConserves` | investigations/mapping_field_decode/task_mmu.c:1005-1049 | after any walk resident is the sum of the four buckets, pss that of its three kinds, pss is at most resident, and pss_dirty and pss_locked at most pss |
| `Smaps.PagesMappedOnce` | investigations/mapping_field_decode/task_mmu.c:963-975 | the page-by-page loop over pages that are each mapped once adds up to one exclusive run |
| `Smaps.ShortcutIsTheLoop` | investigations/mapping_field_decode/task_mmu.c:947-975 | the shortcut for a reference count of one gives what the loop gives when every page is mapped once |
| `Smaps.MemSizeStats.PageAccumulate` | investigations/mapping_field_decode/task_mmu.c:873-901 | the fields that depend on sharing change as the specification says whose sums and conservation laws are proved |
| `Smaps.MemSizeStats.CountSize` | investigations/mapping_field_decode/task_mmu.c:913-930 | likewise the fields that depend on the size and kind of the page alone, and no others |
| `Smaps.MemSizeStats.Account` | investigations/mapping_field_decode/task_mmu.c:903-976 | likewise the statistics as a whole for one mapping, by the shortcut or by the loop |
| `Smaps.MemSizeStats.WalkRange` | investigations/mapping_field_decode/task_mmu.c:1095-1120 | the loop over a range computes the specified statistics and keeps the conservation laws |
| `SmapsTally.AccountStep` | investigations/mapping_field_decode/task_mmu.c:903-976 | by the shortcut or by the loop, accounting a run of pages counts its last page on top of the rest: in full if the folio has one reference or the entry is not present, else divided by its mapcount, and private if that is at most 1; without precise mapcounts by the average, and private unless the folio may be shared |
| `SmapsTally.AccountAddsPages` | investigations/mapping_field_decode/task_mmu.c:903-976 | accounting a huge page adds the same to every figure as counting its pages one by one, whatever is there already |
| `SmapsTally.WalkAddsTotal` | investigations/mapping_field_decode/task_mmu.c:1005-1049 | a walk adds to every figure what the figure stands for, over exactly the pages of its entries |
| `SmapsTally.WalkIsTotal` | investigations/mapping_field_decode/task_mmu.c:1005-1049 | after any walk each figure is the sum of the sizes or shares of exactly those pages that have the property it stands for (private and dirty, anonymous, locked, swapped out, and so on) |
| `Pss.PssOfPush` | investigations/mapping_field_decode/task_mmu.c:963-975 | a page adds its share to the figure of each process that maps it, and nothing to the others |
| `Pss.TotalPssPush` | investigations/mapping_field_decode/task_mmu.c:831-834 | over all processes a page adds its share as often as it is mapped |
| `Pss.SharesOfOnePage` | investigations/mapping_field_decode/task_mmu.c:836-845 | the shares of a page add up to at most the page and fall short of it by less than their number of units |
| `Pss.TotalPssBounds` | investigations/mapping_field_decode/task_mmu.c:828-845 | over any pages and processes the proportional sizes sum to at most the pages there are, and are short of them by less than the sum of the mapcounts |
| `Pss.PrivateIffMappedAlone` | investigations/mapping_field_decode/task_mmu.c:873-975 | in the smaps of any process the private figures are the pages it maps alone and the shared figures those it maps with others, the dirty ones those its PTE or the folio has as dirty |
| `SoftDirty.Tracker.ClearRefsWrite` | investigations/mapping_field_decode/task_mmu.c:1755-1828 | exactly the VMAs and entries the kind of request concerns are cleared, by the specification that the tracking theorems are about; on an invalid kind or without the lock nothing changes |
| `SoftDirty.ClearsByKind` | investigations/mapping_field_decode/task_mmu.c:1603-1747 | what a request of each kind does to each page and VMA, field by field: which pages lose the young bit and by which kind of VMA they are left out, which lose the soft-dirty bit and the permission to write, which flag VMAs lose; and that nothing else changes |
| `SoftDirty.Tracker.ClearVmaFlags` | investigations/mapping_field_decode/task_mmu.c:1801-1807 | every VMA loses its soft-dirty flag |
| `SoftDirty.Tracker.ClearEntries` | investigations/mapping_field_decode/task_mmu.c:1667-1747 | every entry of a VMA that is not left out is cleared as its kind demands, and no other |
| `SoftDirty.StepKeepsTracked` | investigations/mapping_field_decode/task_mmu.c:1603-1659 | every event keeps a tracked page tracked: unless its entry tells, its VMA does and the next clearing disarms it |
| `SoftDirty.RunKeepsTracked` | investigations/mapping_field_decode/task_mmu.c:1603-1659 | and so does every run |
| `SoftDirty.NoWriteIsLost` | investigations/mapping_field_decode/task_mmu.c:1603-1659 | in every run of writes, evictions, pins and clearings a write since the last clearing shows, if and only if the page is tracked to begin with, for every page of every address space |
| `SoftDirty.LostWrite` | investigations/mapping_field_decode/task_mmu.c:1603-1632 | for every page that is not tracked a run of at most three events that loses a write |
| `SoftDirty.WriteIsLostInPfnMapping` | investigations/mapping_field_decode/task_mmu.c:1733-1734 | an instance: any mapped page of a PFN mapping |
| `SoftDirty.WriteIsLostWhenPinned` | investigations/mapping_field_decode/task_mmu.c:1622-1623 | an instance: a pinned page that is soft-dirty only through its VMA |
| `SoftDirty.ShowsExactlyTheWrites` | investigations/mapping_field_decode/task_mmu.c:1603-1659 | in every run after a clearing a page shows exactly the writes since then and what the clearing leaves soft-dirty, if and only if it is in no PFN mapping and the clearing disarms it where it is silently writable |

## Left out

- Huge pages of hugetlbfs, in scans, pagemap, smaps and clear_refs; in a scan, a partial one sets `walk_end` without stopping.
- Copies to and from the user (only their success or failure is modelled), seq_file output, VMA names, build ids and their buffers.
- Validation of scan and query arguments: requests are those that have passed it, with `start` at most `end` and `max_pages` not 0.
- Changes to the page tables during a scan or a pagemap read, and between the rounds of a scan; the retry when a page table has vanished meanwhile, unless the scan's own split removed it; failures of uffd_wp_range.
- TLB, lazy MMU mode, MMU notifiers and RCU, beyond the flushed range and the counters of what the reader holds.
- The generic page table walker is not part of this model; it is taken to visit contiguous pieces in address order, to stop at the first error, and to treat PFN mappings like ranges without page tables where the caller does not decide for itself.
- Kernels without per-VMA locks, and the gate VMA beyond its place in the order.
- `ScanWalk.SplitAndBackOut`: splitting a huge page is taken to leave PTEs with the bits of the PMD in an anonymous mapping and nothing in any other; the code that does it is not part of this model.
- `ScanWalk.EnterVma`: the model asks once for each piece of the walk, the kernel once for each VMA; the answer is the same, since VMAs do not change during a walk.
- `PagemapView.EntryTells`: exclusivity of the pages of a huge page is a property of the huge page, since the code looks at the same page for all of them.
- `PagemapRead.PagemapRead`: assumes that a read is no longer than the virtual file system allows, an untagged address space and a page-aligned end of it.
- `Smaps.WalkConserves`: shmem swap usage, the counters of huge pages by kind, and overflow of the 64-bit counters.
- `Pss.TotalPssBounds`: precise mapcounts and PTE mappings; with averaged mapcounts no such bound holds page by page.
- `SoftDirty.Tracker.ClearRefsWrite`: parsing of the text, lookup of the task, the peak resident set size and the young and referenced flags of folios.
- `SmapsWalk.GatherStats`: the shortcuts for swapped-out pages of shmem mappings.
- `SmapsRollup.ShowSmapsRollup`: task and mm references, the first acquisition of the lock, and the printed range.
- task_mem, task_statm, numa_maps, open and release handlers: plumbing.
- The other copies of the same file and the teaching modules around it.
