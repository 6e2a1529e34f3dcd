/** What a caller of PAGEMAP_SCAN can rely on, and where the scan does something else than its
    documentation says: theorems about the contract of `DoPagemapScan`. */
module ScanResults {
  import opened Kernel
  import opened ScanTypes
  import opened Regions
  import opened ScanSpec
  import opened ScanSplit
  import opened PagemapScan

  /** A region of the vector covers the page. */
  ghost predicate Covered(vec: seq<PageRegion>, page: nat, categories: Categories) {
    exists k :: 0 <= k < |vec| && vec[k].start <= page < vec[k].end && vec[k].categories == categories
  }

  lemma CoveredIsReported(vec: seq<PageRegion>, page: nat, c: Categories)
    ensures Covered(vec, page, c) <==> Report(page, c) in Expand(vec)
  {
    if Report(page, c) in Expand(vec) {
      var k := ExpandFrom(vec, Report(page, c));
    } else if Covered(vec, page, c) {
      var k :| 0 <= k < |vec| && vec[k].start <= page < vec[k].end && vec[k].categories == c;
      ExpandHolds(vec, k, page);
    }
  }

  lemma CoversWhatItMet(arg: ScanArg, before: Table, after: Table, o: Outcome, page: nat, c: Categories)
    requires ScanPost(arg, before, after, o) && o.ret >= 0 && arg.vecLen > 0
    ensures Covered(o.vec, page, c) <==>
              arg.start <= page < o.stop && Selected(arg, o.seen[page]) && c == Reported(arg, o.seen[page])
  {
    hide Selected, Reported, Scanned, SplitOf, SplitsExactly, Expand, Matches, Covered, WellFormed;
    CoveredIsReported(o.vec, page, c);
    MatchesExactly(arg, o.seen, arg.start, o.stop, Report(page, c));
  }

  /** Below the stop point the vector covers exactly the pages selected in the table the scan
      was given, each with its categories, if no huge page that has to be split loses by it. */
  lemma VectorCoversTheMatches(arg: ScanArg, before: Table, after: Table, o: Outcome, page: nat, c: Categories)
    requires ScanPost(arg, before, after, o) && o.ret >= 0 && arg.vecLen > 0
    requires AllKept(arg, before, arg.start, o.stop)
    ensures Covered(o.vec, page, c) <==>
              arg.start <= page < o.stop && Selected(arg, before[page]) && c == Reported(arg, before[page])
  {
    hide Selected, Reported, Scanned, SplitOf, SplitsExactly, AllKept, Expand, Matches, Covered, WellFormed;
    CoveredIsReported(o.vec, page, c);
    SplitKeepsMatches(arg, before, o.seen, o.stop, o.stop);
    MatchesExactly(arg, before, arg.start, o.stop, Report(page, c));
  }

  /** A page is reported with the categories of the return mask that it has. */
  lemma ReportedMeans(arg: ScanArg, slot: Slot, cs: Categories)
    ensures Selected(arg, slot) && cs == Reported(arg, slot) <==>
              && (Wanted(arg, slot) || MistakenForWritten(arg, slot))
              && forall c :: c in cs <==>
                   c in arg.returnMask && (HasCategory(slot, c) || (c == Written && MistakenForWritten(arg, slot)))
  {
    hide HasCategory, CategoriesOf;
    SelectedIsWanted(arg, slot);
    if TakesWrittenLoop(arg, slot) {
      WrittenOnlyFilter(arg, slot);
    }
    forall c: Category
      ensures c in CategoriesOf(slot) <==> HasCategory(slot, c)
    {
      CategoriesMean(slot, c);
    }
  }

  /** A region covers a page with just these categories if and only if the page lies below the
      stop point, is wanted (or an empty PTE that passes for WRITTEN), and has exactly these of
      the categories asked for, as its VMA and its entry tell. */
  lemma RegionsTellCategories(arg: ScanArg, before: Table, after: Table, o: Outcome, page: nat, cs: Categories)
    requires ScanPost(arg, before, after, o) && o.ret >= 0 && arg.vecLen > 0
    requires AllKept(arg, before, arg.start, o.stop)
    ensures Covered(o.vec, page, cs) <==>
              && arg.start <= page < o.stop
              && (Wanted(arg, before[page]) || MistakenForWritten(arg, before[page]))
              && forall c :: c in cs <==>
                   && c in arg.returnMask
                   && (HasCategory(before[page], c) || (c == Written && MistakenForWritten(arg, before[page])))
  {
    hide Selected, Reported, Wanted, MistakenForWritten, HasCategory, ScanPost, AllKept, Covered;
    StopInRange(arg, before, after, o);
    VectorCoversTheMatches(arg, before, after, o, page, cs);
    if arg.start <= page < o.stop {
      ReportedMeans(arg, before[page], cs);
    }
  }

  lemma StopInRange(arg: ScanArg, before: Table, after: Table, o: Outcome)
    requires ScanPost(arg, before, after, o)
    ensures o.stop <= |before| == |after|
  {
  }

  /** The vector is sorted and disjoint. It is the list of the matches of the table the scan was
      given, up to the stop point, if and only if no huge page that has to be split loses by it;
      and the stop point is the end of the range unless `max_pages` or the length of the vector
      is used up. */
  lemma VectorIsTheMatches(arg: ScanArg, before: Table, after: Table, o: Outcome)
    requires ScanPost(arg, before, after, o) && o.ret >= 0 && arg.vecLen > 0
    ensures SortedDisjoint(o.vec) && NonEmpty(o.vec)
    ensures Expand(o.vec) == Matches(arg, before, arg.start, o.stop) <==> AllKept(arg, before, arg.start, o.stop)
    ensures |Expand(o.vec)| < arg.maxPages && |o.vec| < arg.vecLen ==> o.stop == arg.end
  {
    hide Selected, Reported, Scanned, SplitOf, SplitsExactly, AllKept, Expand, Matches, Ascending;
    MatchesAscend(arg, o.seen, arg.start, o.stop);
    AscendingRegions(o.vec);
    SplitKeepsMatches(arg, before, o.seen, o.stop, o.stop);
  }

  /** What a caller can tell beforehand: if no huge page of the range that has to be split loses
      by it, the vector is a prefix of the list of all matches, and the whole list unless a limit
      is used up. */
  lemma VectorIsAPrefix(arg: ScanArg, before: Table, after: Table, o: Outcome)
    requires ScanPost(arg, before, after, o) && o.ret >= 0 && arg.vecLen > 0
    requires AllKept(arg, before, arg.start, arg.end)
    ensures Expand(o.vec) <= Matches(arg, before, arg.start, arg.end)
    ensures |Expand(o.vec)| < arg.maxPages && |o.vec| < arg.vecLen ==>
              Expand(o.vec) == Matches(arg, before, arg.start, arg.end)
  {
    hide Selected, Reported, Scanned, SplitOf, SplitsExactly, Expand, Matches, KeptBySplit, Cut;
    assert AllKept(arg, before, arg.start, o.stop);
    VectorIsTheMatches(arg, before, after, o);
    MatchesSplit(arg, before, arg.start, o.stop, arg.end);
  }

  /** No huge page of an anonymous mapping loses by a split if no mask mentions HUGE; none at all
      is split by a request that does not protect, or whose range cuts no huge page and whose
      `max_pages` covers it. */
  lemma NothingLost(arg: ScanArg, t: Table)
    requires arg.start <= arg.end <= |t|
    requires || (Huge !in arg.MasksOfInterest()
                 && forall page :: arg.start <= page < arg.end && t[page].Pmd? ==> !t[page].vma.file)
             || !arg.wpMatching
             || (Base(arg.start) == arg.start && Base(arg.end) == arg.end
                 && (arg.vecLen == 0 || arg.end - arg.start <= arg.maxPages))
    ensures AllKept(arg, t, arg.start, arg.end)
  {
    hide CategoriesOf, Selected, Matches;
    if arg.wpMatching && Base(arg.start) == arg.start && Base(arg.end) == arg.end
       && (arg.vecLen == 0 || arg.end - arg.start <= arg.maxPages) {
      forall page | arg.start <= page < arg.end && ToProtect(arg, t[page])
        ensures !Cut(arg, t, page)
      {
        FewMatches(arg, t, arg.start, From(arg, page));
        WholeBlocks(arg, page);
      }
    }
  }

  lemma WholeBlocks(arg: ScanArg, page: nat)
    requires Base(arg.start) == arg.start <= page < arg.end && Base(arg.end) == arg.end
    ensures arg.start <= From(arg, page) && To(arg, page) == From(arg, page) + HPAGE_NR <= arg.end
  {
  }

  lemma {:induction false} FewMatches(arg: ScanArg, t: Table, lo: nat, hi: nat)
    requires lo <= hi <= |t|
    ensures |Matches(arg, t, lo, hi)| <= hi - lo
  {
    hide Selected, Reported;
    if lo < hi {
      FewMatches(arg, t, lo, hi - 1);
    }
  }

  /** Without a back-out the vector is the one and only maximally coalesced vector for its
      pages, however often the buffer was refilled. */
  lemma VectorIsCanonical(arg: ScanArg, before: Table, after: Table, o: Outcome, other: seq<PageRegion>)
    requires ScanPost(arg, before, after, o) && !o.backedOut
    requires NonEmpty(other) && Coalesced(other) && Expand(other) == Expand(o.vec)
    ensures o.vec == other
  {
    RunLengthUnique(o.vec, other);
  }

  /** The page belongs to a huge page that is not present and does not migrate: its entry
      has the WRITTEN category, but protecting leaves it alone. */
  predicate Unprotectable(slot: Slot) {
    slot.Pmd? && !CanProtectPmd(slot.leaf)
  }

  /** The scan write-protects no page but those it selects, and, if there is no output vector,
      the PTEs of the VMAs it walks. With one, what is protected is reported, and a WRITTEN page
      that is reported is protected if and only if it can be. Nothing beyond the stop point
      changes, and what was protected stays so. */
  lemma ProtectsWhatItReports(arg: ScanArg, before: Table, after: Table, o: Outcome, page: nat)
    requires ScanPost(arg, before, after, o) && page < |after|
    ensures Protected(after[page]) && !Protected(o.seen[page]) ==>
              && arg.wpMatching && arg.start <= page < o.stop
              && (Selected(arg, o.seen[page])
                  || (arg.vecLen == 0 && o.seen[page].Pte? && TestWalk(arg, o.seen[page].vma) == 0))
    ensures o.ret >= 0 && arg.vecLen > 0 && Protected(after[page]) && !Protected(o.seen[page]) ==>
              exists c :: Covered(o.vec, page, c)
    ensures o.ret >= 0 && arg.vecLen > 0 && arg.wpMatching && IsWritten(o.seen[page])
            && (exists c :: Covered(o.vec, page, c)) ==>
              (Protected(after[page]) <==> !Unprotectable(o.seen[page]))
    ensures page < arg.start || o.stop <= page || !arg.wpMatching ==> after[page] == o.seen[page]
    ensures Protected(o.seen[page]) ==> Protected(after[page])
    ensures Protected(o.seen[page]) <==> Protected(before[page])
  {
    hide Expand, Matches, Covered, CategoriesOf, IsInterestingPage, TestWalk, SplitsExactly;
    WrittenIsUnprotected(o.seen[page]);
    WrittenIsUnprotected(before[page]);
    if o.ret >= 0 && arg.vecLen > 0 {
      forall c
        ensures Covered(o.vec, page, c)
           <==> arg.start <= page < o.stop && Selected(arg, o.seen[page]) && c == Reported(arg, o.seen[page])
      {
        CoversWhatItMet(arg, before, after, o, page, c);
      }
      assert Selected(arg, o.seen[page]) && arg.start <= page < o.stop
          ==> Covered(o.vec, page, Reported(arg, o.seen[page]));
    }
  }

  /** What is asked of an unprotected page for the scan to protect it. */
  predicate TakenToProtect(arg: ScanArg, slot: Slot) {
    match slot
    case Unmapped => false
    case Hole(_) => Selected(arg, slot)
    case Pte(v, leaf) =>
      if arg.vecLen == 0 then TestWalk(arg, v) == 0
      else Selected(arg, slot) && (!leaf.Empty? || MistakenForWritten(arg, slot))
    case Pmd(_, leaf) => Selected(arg, slot) && (leaf.Mapped? || (leaf.Swap? && leaf.migration))
  }

  /** A protecting scan protects exactly these of the pages it passes. A protected page keeps
      everything else its entry tells; an empty PTE, or a hole, gets a marker. No other page
      changes. */
  lemma ProtectsExactly(arg: ScanArg, before: Table, after: Table, o: Outcome, page: nat)
    requires ScanPost(arg, before, after, o) && page < |after|
    ensures var was, now := o.seen[page], after[page];
            var taken := arg.wpMatching && arg.start <= page < o.stop && TakenToProtect(arg, was);
      && (Protected(now) <==> Protected(was) || taken)
      && (taken ==> now == if was.Hole? || was.leaf.Empty? then Pte(was.vma, Swap(true, false, false, false, false))
                           else was.(leaf := was.leaf.(uffdWp := true)))
      && (!taken ==> now == was)
  {
    hide Expand, Matches, CategoriesOf, IsInterestingPage, TestWalk, SplitsExactly;
    WrittenIsUnprotected(o.seen[page]);
  }

  /** The page is an unprotected PTE of a VMA the scan walks. */
  predicate OpenPte(arg: ScanArg, slot: Slot) {
    slot.Pte? && TestWalk(arg, slot.vma) == 0 && !UffdWp(slot.leaf)
  }

  /** Without an output vector a protecting scan protects none but wanted pages if and only if
      all unprotected PTEs it passes are wanted: the loop it takes asks for no category. */
  lemma ProtectsUnwantedPages(arg: ScanArg, before: Table, after: Table, o: Outcome)
    requires ScanPost(arg, before, after, o) && arg.wpMatching && arg.vecLen == 0
    ensures (forall page :: 0 <= page < |before| && Protected(after[page]) && !Protected(before[page]) ==>
               Wanted(arg, before[page]))
       <==> (forall page :: arg.start <= page < o.stop && OpenPte(arg, before[page]) ==> Wanted(arg, before[page]))
  {
    hide Expand, Matches, CategoriesOf, IsInterestingPage, TestWalk, SplitsExactly;
    forall page | 0 <= page < |before|
      ensures Protected(after[page]) && !Protected(before[page]) ==>
                Wanted(arg, before[page]) || (arg.start <= page < o.stop && OpenPte(arg, before[page]))
      ensures arg.start <= page < o.stop && OpenPte(arg, before[page]) ==>
                Protected(after[page]) && !Protected(before[page])
    {
      assert o.seen[page] == before[page] || ToProtect(arg, before[page]);
    }
  }

  /** A protecting request for WRITTEN pages takes its matches away: after the scan no page
      below the stop point matches again until it is written to, if and only if none of them
      is in a huge page that cannot be protected. */
  lemma ScanClearsItsMatches(arg: ScanArg, before: Table, after: Table, o: Outcome)
    requires ScanPost(arg, before, after, o)
    requires arg.wpMatching && Written in arg.mask && Written !in arg.inverted
    ensures Matches(arg, after, arg.start, o.stop) == []
       <==> forall page :: arg.start <= page < o.stop && Selected(arg, o.seen[page]) ==> !Unprotectable(o.seen[page])
    ensures (forall page :: arg.start <= page < arg.end && Selected(arg, before[page]) ==> !Unprotectable(before[page]))
        ==> Matches(arg, after, arg.start, o.stop) == []
  {
    hide Expand, Matches, Selected, AfterScan, SplitsExactly, CanProtectPmd;
    forall page | arg.start <= page < o.stop
      ensures Selected(arg, after[page]) <==> Selected(arg, o.seen[page]) && Unprotectable(o.seen[page])
    {
      ClearedSlot(arg, o.seen[page]);
    }
    if page :| arg.start <= page < o.stop && Selected(arg, after[page]) {
      MatchesExactly(arg, after, arg.start, o.stop, Report(page, Reported(arg, after[page])));
      assert Unprotectable(o.seen[page]);
    } else {
      MatchesNone(arg, after, arg.start, arg.start, o.stop);
      EmptyRange(arg, after, arg.start);
      assert forall page :: arg.start <= page < o.stop && Selected(arg, o.seen[page]) ==> !Selected(arg, after[page]);
    }
  }

  lemma EmptyRange(arg: ScanArg, t: Table, lo: nat)
    requires lo <= |t|
    ensures Matches(arg, t, lo, lo) == []
  {
  }

  /** Asking for WRITTEN, a page that is not WRITTEN is not wanted. */
  lemma WantedIsWritten(arg: ScanArg, slot: Slot)
    requires Written in arg.mask && Written !in arg.inverted
    ensures Wanted(arg, slot) ==> IsWritten(slot)
  {
    var c := CategoriesOf(slot);
    if Wanted(arg, slot) {
      assert Written in Xor(c, arg.inverted) * arg.mask;
    }
  }

  lemma ClearedSlot(arg: ScanArg, slot: Slot)
    requires arg.wpMatching && Written in arg.mask && Written !in arg.inverted
    ensures Selected(arg, AfterScan(arg, slot)) <==> Selected(arg, slot) && Unprotectable(slot)
  {
    hide IsInterestingPage, CategoriesOf, IsInterestingVma;
    if !slot.Unmapped? && Selected(arg, slot) {
      VmaFilterDropsNothing(arg, slot);
    }
    WantedIsWritten(arg, slot);
    WantedIsWritten(arg, AfterScan(arg, slot));
    WrittenIsUnprotected(slot);
    WrittenIsUnprotected(AfterScan(arg, slot));
  }

  /** The table two successive scans have met: the first up to `mid`, the second from there. */
  ghost function Joined(a: Table, b: Table, mid: nat): Table
    requires mid <= |a| == |b|
  {
    a[..mid] + b[mid..]
  }

  /** Where a request starts plays no part in what it selects. */
  lemma SameSlot(arg: ScanArg, start: nat, slot: Slot)
    ensures var arg2 := arg.(start := start);
      && Selected(arg2, slot) == Selected(arg, slot) && Reported(arg2, slot) == Reported(arg, slot)
      && AfterScan(arg2, slot) == AfterScan(arg, slot)
  {
    hide CategoriesOf, Protect;
  }

  lemma {:induction false} SameFilter(arg: ScanArg, start: nat, t: Table, lo: nat, hi: nat)
    requires hi <= |t|
    ensures Matches(arg.(start := start), t, lo, hi) == Matches(arg, t, lo, hi)
  {
    hide Selected, Reported;
    if lo < hi {
      SameFilter(arg, start, t, lo, hi - 1);
      SameSlot(arg, start, t[hi - 1]);
    }
  }

  /** Where the scan would be resumed, nothing has been reported yet. */
  predicate ResumesCleanly(o: Outcome) {
    o.vec == [] || o.vec[|o.vec| - 1].end <= o.walkEnd
  }

  /** `walk_end` lies in the range; it is the stop point of a scan that stopped early. Whether
      everything reported lies below it, so that the scan can be resumed there, can be told from
      the vector; it does in every scan that stopped early. */
  lemma WalkEndIsInRange(arg: ScanArg, before: Table, after: Table, o: Outcome)
    requires ScanPost(arg, before, after, o) && o.ret >= 0 && arg.vecLen > 0
    ensures arg.start <= o.walkEnd <= o.stop
    ensures Expand(o.vec) == Matches(arg, o.seen, arg.start, o.walkEnd) <==> ResumesCleanly(o)
    ensures o.stop < arg.end ==> ResumesCleanly(o)
  {
    hide Expand, Selected, Reported, AfterScan, Matches, Scanned, SplitsExactly, SplitOf, LastClamp;
    if o.stop == arg.end {
      MarkInRange(arg, o.met, o.seen, o.resumed, arg.end, if o.resumed == arg.start then 0 else o.resumed);
    }
    VectorEnds(arg, before, after, o);
    MatchesSplit(arg, o.seen, arg.start, o.walkEnd, o.stop);
    if ResumesCleanly(o) {
      forall page | o.walkEnd <= page < o.stop
        ensures !Selected(arg, o.seen[page])
      {
        MatchesExactly(arg, o.seen, arg.start, o.stop, Report(page, Reported(arg, o.seen[page])));
      }
      MatchesNone(arg, o.seen, arg.start, o.walkEnd, o.stop);
    } else {
      var last := o.vec[|o.vec| - 1].end - 1;
      MatchesExactly(arg, o.seen, arg.start, o.walkEnd, Report(last, o.vec[|o.vec| - 1].categories));
    }
  }

  lemma {:induction false} MarkInRange(arg: ScanArg, from: Table, to: Table, lo: nat, hi: nat, otherwise: nat)
    requires arg.start <= lo <= hi <= arg.end <= |from| == |to|
    requires otherwise == 0 || arg.start <= otherwise <= arg.end
    ensures var mark := LastClamp(arg, from, to, lo, hi, otherwise); mark == 0 || arg.start <= mark <= arg.end
  {
    hide Matches;
    if lo < hi && !Clamped(arg, from, to, hi - 1) {
      MarkInRange(arg, from, to, lo, hi - 1, otherwise);
    }
  }

  /** Every page reported lies below the end of the last region; the page before that end is
      reported. */
  lemma VectorEnds(arg: ScanArg, before: Table, after: Table, o: Outcome)
    requires ScanPost(arg, before, after, o) && o.ret >= 0 && arg.vecLen > 0
    ensures Expand(o.vec) == Matches(arg, o.seen, arg.start, o.stop)
    ensures forall r :: r in Expand(o.vec) ==> o.vec != [] && r.page < o.vec[|o.vec| - 1].end
    ensures o.vec != [] ==>
              var last := o.vec[|o.vec| - 1];
              0 < last.end <= o.stop && Report(last.end - 1, last.categories) in Expand(o.vec)
  {
    hide Selected, Reported, AfterScan, Matches, Scanned, SplitsExactly, SplitOf, LastClamp, Expand, Ascending;
    MatchesAscend(arg, o.seen, arg.start, o.stop);
    AscendingRegions(o.vec);
    forall r | r in Expand(o.vec)
      ensures o.vec != [] && r.page < o.vec[|o.vec| - 1].end
    {
      var i := ExpandFrom(o.vec, r);
    }
    if o.vec != [] {
      var last := o.vec[|o.vec| - 1];
      ExpandHolds(o.vec, |o.vec| - 1, last.end - 1);
      MatchesExactly(arg, o.seen, arg.start, o.stop, Report(last.end - 1, last.categories));
    }
  }

  /** The two reports of a scan that is resumed at `walk_end`, above everything reported. */
  lemma ResumedReports(arg: ScanArg, t0: Table, t1: Table, t2: Table, first: Outcome, second: Outcome)
    requires ScanPost(arg, t0, t1, first) && first.ret >= 0 && ResumesCleanly(first) && arg.vecLen > 0
    requires ScanPost(arg.(start := first.walkEnd), t1, t2, second) && second.ret >= 0
    ensures arg.start <= first.walkEnd <= first.stop && |t0| == |t1| == |t2| == |first.seen| == |second.seen|
    ensures first.walkEnd <= second.stop <= |first.seen|
    ensures Expand(first.vec) + Expand(second.vec)
         == Matches(arg, Joined(first.seen, second.seen, first.walkEnd), arg.start, second.stop)
  {
    hide Expand, Selected, Matches, SplitsExactly, EndOfCompleteScan, WellFormed, SplitOf, AfterScan, ResumesCleanly;
    var mid := first.walkEnd;
    WalkEndIsInRange(arg, t0, t1, first);
    var seen := Joined(first.seen, second.seen, mid);
    MatchesAgree(arg, first.seen, seen, arg.start, mid);
    MatchesAgree(arg, second.seen, seen, mid, second.stop);
    MatchesSplit(arg, seen, arg.start, mid, second.stop);
    SameFilter(arg, mid, second.seen, mid, second.stop);
  }

  /** A scan that resumes at `walk_end`, above everything reported, completes the first one:
      together they report the matches of one list and protect the pages of one range. */
  lemma ResumeContinues(arg: ScanArg, t0: Table, t1: Table, t2: Table, first: Outcome, second: Outcome)
    requires ScanPost(arg, t0, t1, first) && first.ret >= 0 && ResumesCleanly(first) && arg.vecLen > 0
    requires ScanPost(arg.(start := first.walkEnd), t1, t2, second) && second.ret >= 0
    ensures first.walkEnd <= |first.seen| == |second.seen| && second.stop <= |first.seen|
    ensures var seen := Joined(first.seen, second.seen, first.walkEnd);
      && Expand(first.vec) + Expand(second.vec) == Matches(arg, seen, arg.start, second.stop)
      && (forall i :: 0 <= i < |seen| ==>
            seen[i] == t0[i] || (t0[i].Pmd? && seen[i] == SplitSlot(t0[i])))
      && (forall i :: first.walkEnd <= i < second.stop ==> t2[i] == AfterScan(arg, seen[i]))
      && (forall i :: 0 <= i < first.walkEnd ==> t2[i] == t1[i] || (t1[i].Pmd? && t2[i] == SplitSlot(t1[i])))
  {
    hide Expand, Selected, IsWritten, AfterScan, Matches, SplitsExactly, EndOfCompleteScan, WellFormed, ResumesCleanly;
    ResumedReports(arg, t0, t1, t2, first, second);
    Unreported(arg, t0, t1, first);
    var seen := Joined(first.seen, second.seen, first.walkEnd);
    forall i | first.walkEnd <= i < second.stop
      ensures t2[i] == AfterScan(arg, seen[i])
    {
      SameSlot(arg, first.walkEnd, second.seen[i]);
    }
  }

  /** From `walk_end` on a scan that can be resumed there has changed nothing. */
  lemma Unreported(arg: ScanArg, before: Table, after: Table, o: Outcome)
    requires ScanPost(arg, before, after, o) && o.ret >= 0 && ResumesCleanly(o) && arg.vecLen > 0
    ensures forall i :: o.walkEnd <= i < |after| ==> after[i] == o.seen[i]
  {
    hide Expand, Selected, Reported, Matches, SplitsExactly, SplitOf, EndOfCompleteScan, WellFormed, IsWritten;
    WalkEndIsInRange(arg, before, after, o);
    forall i | o.walkEnd <= i < |after|
      ensures after[i] == o.seen[i]
    {
      if i < o.stop {
        MatchesExactly(arg, o.seen, arg.start, o.walkEnd, Report(i, Reported(arg, o.seen[i])));
        MatchesExactly(arg, o.seen, arg.start, o.stop, Report(i, Reported(arg, o.seen[i])));
        assert !Selected(arg, o.seen[i]);
      }
    }
  }

  /** A complete scan without a back-out leaves the end of the range in `walk_end` if and only
      if its buffer was never refilled. */
  lemma CompleteWalkEnd(arg: ScanArg, before: Table, after: Table, o: Outcome)
    requires ScanPost(arg, before, after, o) && o.ret >= 0 && o.stop == arg.end && arg.vecLen > 0 && !o.backedOut
    ensures o.walkEnd == if o.resumed == arg.start then arg.end else o.resumed
  {
    hide Expand, Matches, Scanned, Selected, IsWritten;
    assert o.met == before;
    Unclamped(arg, before, o.resumed, arg.end, if o.resumed == arg.start then 0 else o.resumed);
  }

  // ---- the WRITTEN-only loop against the documented filter ----

  /** The list the interface documents. */
  ghost function WantedMatches(arg: ScanArg, t: Table, lo: nat, hi: nat): seq<Report>
    requires hi <= |t|
  {
    if hi <= lo then []
    else WantedMatches(arg, t, lo, hi - 1)
         + (if Wanted(arg, t[hi - 1]) then [Report(hi - 1, CategoriesOf(t[hi - 1]) * arg.returnMask)] else [])
  }

  /** The scan reports the documented list if and only if the request is not WRITTEN-only
      or no admitted page of the range has an empty PTE. */
  lemma {:induction false} DocumentedIffNoEmptyPte(arg: ScanArg, t: Table, lo: nat, hi: nat)
    requires hi <= |t|
    ensures Matches(arg, t, lo, hi) == WantedMatches(arg, t, lo, hi)
       <==> forall i :: lo <= i < hi ==> !MistakenForWritten(arg, t[i])
  {
    hide CategoriesOf, IsInterestingPage;
    if lo < hi {
      DocumentedIffNoEmptyPte(arg, t, lo, hi - 1);
      var slot := t[hi - 1];
      SelectedIsWanted(arg, slot);
      if MistakenForWritten(arg, slot) {
        NotWantedWhenEmpty(arg, slot);
      }
      LastReport(arg, t, lo, hi);
      if Matches(arg, t, lo, hi) == WantedMatches(arg, t, lo, hi) {
        var m, w := Matches(arg, t, lo, hi), WantedMatches(arg, t, lo, hi);
        assert Selected(arg, slot) <==> (m != [] && m[|m| - 1].page == hi - 1);
        assert Wanted(arg, slot) <==> (w != [] && w[|w| - 1].page == hi - 1);
        assert Matches(arg, t, lo, hi - 1) == if Selected(arg, slot) then m[..|m| - 1] else m;
        assert WantedMatches(arg, t, lo, hi - 1) == if Wanted(arg, slot) then w[..|w| - 1] else w;
      }
    }
  }

  lemma NotWantedWhenEmpty(arg: ScanArg, slot: Slot)
    requires MistakenForWritten(arg, slot)
    ensures Selected(arg, slot) && !Wanted(arg, slot)
  {
    WrittenOnlyFilter(arg, slot);
  }

  const SOME_VMA := Vma(true, false, false, false)

  /** A protecting request for WRITTEN pages alone. */
  function WrittenRequest(end: nat): ScanArg {
    ScanArg(0, end, 1, 1, true, false, {}, {Written}, {}, {Written})
  }

  /** For instance: a page with an empty PTE is reported, although it has no category. */
  lemma EmptyPteIsReported()
    ensures var t := [Pte(SOME_VMA, Empty)];
      && Matches(WrittenRequest(1), t, 0, 1) == [Report(0, {Written})]
      && WantedMatches(WrittenRequest(1), t, 0, 1) == []
  {
    var arg, slot := WrittenRequest(1), Pte(SOME_VMA, Empty);
    NotWantedWhenEmpty(arg, slot);
    EmptyRange(arg, [slot], 0);
  }

  /** For instance: a huge page that is neither present nor migrating matches again after the scan. */
  lemma HugePageStaysWritten()
    ensures var slot := Pmd(SOME_VMA, Swap(false, false, false, false, false));
      && Selected(WrittenRequest(HPAGE_NR), slot) && AfterScan(WrittenRequest(HPAGE_NR), slot) == slot
  {
    WrittenOnlyFilter(WrittenRequest(HPAGE_NR), Pmd(SOME_VMA, Swap(false, false, false, false, false)));
  }

  /** For instance: a mapped page is protected by a request for swapped pages without an output
      vector. */
  lemma UnwantedPageIsProtected()
    ensures var arg := ScanArg(0, 1, 0, 1, true, false, {}, {Swapped}, {}, {Swapped});
            var slot := Pte(SOME_VMA, Mapped(false, false, false, false));
      && OpenPte(arg, slot) && !Selected(arg, slot) && Protected(AfterScan(arg, slot))
  {
    var arg := ScanArg(0, 1, 0, 1, true, false, {}, {Swapped}, {}, {Swapped});
    var c := CategoriesOf(Pte(SOME_VMA, Mapped(false, false, false, false)));
    assert Swapped !in Xor(c, arg.inverted) * arg.mask;
    assert arg.mask * {WpAllowed} == {};
  }

  /** A protecting request for written huge pages, and a table of one such page. */
  function HugeRequest(): ScanArg {
    ScanArg(0, HPAGE_NR, 1, 100, true, false, {}, {Written, Huge}, {}, {Written, Huge})
  }

  const WRITTEN_THP := Pmd(SOME_VMA, Mapped(false, false, false, false))

  ghost function OneHugePage(): Table { seq(HPAGE_NR, _ => WRITTEN_THP) }

  lemma WrittenThp()
    ensures ToProtect(HugeRequest(), WRITTEN_THP) && !Selected(HugeRequest(), SplitSlot(WRITTEN_THP))
  {
    var arg, c := HugeRequest(), CategoriesOf(WRITTEN_THP);
    assert Xor(c, {}) == c && c * arg.mask == arg.mask;
    assert Huge !in Xor(CategoriesOf(SplitSlot(WRITTEN_THP)), {}) * arg.mask;
  }

  /** For instance: all 512 pages of a huge page match, `max_pages` allows for 100, and the scan
      reports none of them, though no limit is used up; `walk_end` is 100. */
  lemma SplitPageIsMissed(after: Table, o: Outcome)
    requires ScanPost(HugeRequest(), OneHugePage(), after, o) && o.ret >= 0
    ensures Matches(HugeRequest(), OneHugePage(), 0, HPAGE_NR) == Pages(0, HPAGE_NR, {Written, Huge})
    ensures o.vec == [] && o.stop == HPAGE_NR && o.walkEnd == 100
  {
    hide ToProtect, Selected, Reported, Matches, LastClamp, Pages, Expand;
    var arg, before := HugeRequest(), OneHugePage();
    WrittenThp();
    AllPagesMatch(arg, before);
    forall i | 0 <= i < o.stop
      ensures !Selected(arg, o.seen[i]) && o.seen[i] != before[i]
    {
      CutAtOnce(arg, o.seen, i);
    }
    MatchesNone(arg, o.seen, 0, 0, o.stop);
    EmptyRange(arg, o.seen, 0);
    if o.vec != [] {
      ExpandHolds(o.vec, 0, o.vec[0].start);
    }
    CutAtOnce(arg, o.seen, 0);
    assert Clamped(arg, before, o.seen, 0);
    OneClamp(arg, before, o.seen, 0, HPAGE_NR, 0);
  }

  /** For instance: the same happens in a file mapping if the request asks for WRITTEN alone. */
  lemma SplitFilePageIsMissed(before: Table, after: Table, o: Outcome)
    requires before == seq(HPAGE_NR, _ => FILE_THP)
    requires ScanPost(WrittenFileRequest(), before, after, o) && o.ret >= 0
    ensures Matches(WrittenFileRequest(), before, 0, HPAGE_NR) == Pages(0, HPAGE_NR, {Written})
    ensures o.vec == [] && o.stop == HPAGE_NR && o.walkEnd == 100
  {
    hide ToProtect, Selected, Reported, Matches, LastClamp, Pages, Expand;
    var arg := WrittenFileRequest();
    FileThp();
    MatchesRun(arg, before, 0, 0, HPAGE_NR, {Written});
    EmptyRange(arg, before, 0);
    forall i | 0 <= i < o.stop
      ensures !Selected(arg, o.seen[i]) && o.seen[i] != before[i]
    {
      CutAtOnce(arg, o.seen, i);
    }
    MatchesNone(arg, o.seen, 0, 0, o.stop);
    EmptyRange(arg, o.seen, 0);
    if o.vec != [] {
      ExpandHolds(o.vec, 0, o.vec[0].start);
    }
    CutAtOnce(arg, o.seen, 0);
    assert Clamped(arg, before, o.seen, 0);
    OneClamp(arg, before, o.seen, 0, HPAGE_NR, 0);
  }

  const FILE_THP := Pmd(Vma(true, false, false, true), Mapped(false, true, false, false))

  function WrittenFileRequest(): ScanArg {
    ScanArg(0, HPAGE_NR, 1, 100, true, false, {}, {Written}, {}, {Written})
  }

  lemma FileThp()
    ensures var arg := WrittenFileRequest();
      && ToProtect(arg, FILE_THP) && !Selected(arg, SplitSlot(FILE_THP)) && Reported(arg, FILE_THP) == {Written}
  {
    WrittenOnlyFilter(WrittenFileRequest(), FILE_THP);
    WrittenOnlyFilter(WrittenFileRequest(), SplitSlot(FILE_THP));
  }

  lemma AllPagesMatch(arg: ScanArg, t: Table)
    requires arg == HugeRequest() && t == OneHugePage()
    ensures Matches(arg, t, 0, HPAGE_NR) == Pages(0, HPAGE_NR, {Written, Huge})
  {
    WrittenThp();
    assert CategoriesOf(WRITTEN_THP) * arg.returnMask == {Written, Huge};
    hide Selected, Reported, Matches, Pages;
    MatchesRun(arg, t, 0, 0, HPAGE_NR, {Written, Huge});
    EmptyRange(arg, t, 0);
  }

  lemma CutAtOnce(arg: ScanArg, seen: Table, page: nat)
    requires page < HPAGE_NR == |seen| && arg.start == 0 && arg.end == HPAGE_NR
    requires arg.vecLen > 0 && arg.maxPages < HPAGE_NR
    ensures Overflows(arg, seen, page) && Cut(arg, seen, page)
    ensures From(arg, page) == 0 && ReportedBefore(arg, seen, page) == 0
  {
    EmptyRange(arg, seen, 0);
  }

  /** The lists up to `hi - 1` hold no report of page `hi - 1`. */
  lemma {:induction false} LastReport(arg: ScanArg, t: Table, lo: nat, hi: nat)
    requires lo < hi <= |t|
    ensures forall r :: r in Matches(arg, t, lo, hi - 1) || r in WantedMatches(arg, t, lo, hi - 1) ==> r.page < hi - 1
  {
    hide Selected, Wanted, Reported, CategoriesOf;
    if lo < hi - 1 {
      LastReport(arg, t, lo, hi - 1);
    }
  }
}
