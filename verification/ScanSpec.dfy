/** What a whole scan is for. `Matches` is the plain page-by-page list of selected pages;
    `Progress` ties the state of a scan that has reached page `pos` to that list and to the
    page table; the lemmas move it forward. `seen` is the page table as the scan met it:
    the initial one, with some huge pages split. */
module ScanSpec {
  import opened Kernel
  import opened ScanTypes
  import opened Regions
  import opened ScanBuffer

  /** The selected pages of `lo .. hi` in address order, with what is reported of them. */
  ghost function Matches(arg: ScanArg, seen: Table, lo: nat, hi: nat): seq<Report>
    requires hi <= |seen|
  {
    if hi <= lo then []
    else Matches(arg, seen, lo, hi - 1)
         + (if Selected(arg, seen[hi - 1]) then [Report(hi - 1, Reported(arg, seen[hi - 1]))] else [])
  }

  /** The table of a scan that started at `arg.start` and has reached `pos`. */
  ghost predicate Scanned(arg: ScanArg, table: Table, seen: Table, pos: nat) {
    && |table| == |seen|
    && forall i :: 0 <= i < |seen| ==>
         table[i] == if arg.start <= i < pos then AfterScan(arg, seen[i]) else seen[i]
  }

  /** `next` continues `from` by having passed the pages `pos .. end`. */
  ghost predicate Passed(arg: ScanArg, from: Table, next: Table, seen: Table, pos: nat, end: nat) {
    && |from| == |next| == |seen|
    && forall i :: 0 <= i < |seen| ==>
         next[i] == if pos <= i < end then AfterScan(arg, seen[i]) else from[i]
  }

  /** After a flush the next page must be a match that does not continue the last region. */
  ghost predicate Resumable(st: ScanState, seen: Table, pos: nat)
    requires st.Shape()
  {
    st.backedOut || st.Content() != [] || st.out == []
    || (pos < |seen| && Selected(st.arg, seen[pos])
        && !Joins(st.out[|st.out| - 1], pos, Reported(st.arg, seen[pos])))
  }

  /** Everything selected below `pos` is reported and protected, nothing else is. */
  ghost predicate Done(st: ScanState, table: Table, seen: Table, pos: nat) {
    && st.Valid()
    && st.arg.start <= pos <= |seen|
    && (st.HasBuffer() ==> Expand(st.Regions()) == Matches(st.arg, seen, st.arg.start, pos))
    && Scanned(st.arg, table, seen, pos)
  }

  ghost predicate Progress(st: ScanState, table: Table, seen: Table, pos: nat) {
    Done(st, table, seen, pos) && Resumable(st, seen, pos)
  }

  /** Why a scan stopped with ENOSPC at `pos`. */
  ghost predicate Blocked(st: ScanState, seen: Table, pos: nat)
    requires st.Shape()
  {
    || st.found == st.arg.maxPages
    || (pos < |seen| && Selected(st.arg, seen[pos]) && 0 < st.bufLen == |st.Content()| && st.Regions() != []
        && !Joins(st.Regions()[|st.Regions()| - 1], pos, Reported(st.arg, seen[pos])))
  }

  // ---- the list of matches ----

  lemma {:induction false} MatchesSplit(arg: ScanArg, seen: Table, lo: nat, mid: nat, hi: nat)
    requires lo <= mid <= hi <= |seen|
    ensures Matches(arg, seen, lo, hi) == Matches(arg, seen, lo, mid) + Matches(arg, seen, mid, hi)
  {
    if mid < hi {
      MatchesSplit(arg, seen, lo, mid, hi - 1);
    }
  }

  lemma {:induction false} MatchesAgree(arg: ScanArg, a: Table, b: Table, lo: nat, hi: nat)
    requires hi <= |a| && hi <= |b| && forall i :: lo <= i < hi ==> a[i] == b[i]
    ensures Matches(arg, a, lo, hi) == Matches(arg, b, lo, hi)
  {
    if lo < hi {
      MatchesAgree(arg, a, b, lo, hi - 1);
    }
  }

  /** A run of pages reported alike. */
  lemma {:induction false} MatchesRun(arg: ScanArg, seen: Table, lo: nat, mid: nat, hi: nat, c: Categories)
    requires lo <= mid <= hi <= |seen|
    requires forall i :: mid <= i < hi ==> Selected(arg, seen[i]) && Reported(arg, seen[i]) == c
    ensures Matches(arg, seen, lo, hi) == Matches(arg, seen, lo, mid) + Pages(mid, hi, c)
  {
    if mid < hi {
      MatchesRun(arg, seen, lo, mid, hi - 1, c);
    }
  }

  lemma {:induction false} MatchesNone(arg: ScanArg, seen: Table, lo: nat, mid: nat, hi: nat)
    requires lo <= mid <= hi <= |seen|
    requires forall i :: mid <= i < hi ==> !Selected(arg, seen[i])
    ensures Matches(arg, seen, lo, hi) == Matches(arg, seen, lo, mid)
  {
    if mid < hi {
      MatchesNone(arg, seen, lo, mid, hi - 1);
    }
  }

  /** The list holds exactly the selected pages, each once, in address order. */
  lemma {:induction false} MatchesExactly(arg: ScanArg, seen: Table, lo: nat, hi: nat, r: Report)
    requires hi <= |seen|
    ensures r in Matches(arg, seen, lo, hi) <==>
              lo <= r.page < hi && Selected(arg, seen[r.page]) && r.categories == Reported(arg, seen[r.page])
  {
    if lo < hi {
      MatchesExactly(arg, seen, lo, hi - 1, r);
    }
  }

  lemma {:induction false} MatchesAscend(arg: ScanArg, seen: Table, lo: nat, hi: nat)
    requires hi <= |seen|
    ensures Ascending(Matches(arg, seen, lo, hi))
  {
    if lo < hi {
      MatchesAscend(arg, seen, lo, hi - 1);
      var m := Matches(arg, seen, lo, hi - 1);
      forall i | 0 <= i < |m|
        ensures m[i].page < hi - 1
      {
        MatchesExactly(arg, seen, lo, hi - 1, m[i]);
      }
    }
  }

  // ---- moving forward ----

  lemma ScannedOn(arg: ScanArg, table: Table, after: Table, seen: Table, pos: nat, next: nat)
    requires Scanned(arg, table, seen, pos) && Passed(arg, table, after, seen, pos, next)
    requires arg.start <= pos <= next
    ensures Scanned(arg, after, seen, next)
  {
  }

  /** What a scan at `pos` still has in front of it. */
  lemma Ahead(st: ScanState, table: Table, seen: Table, pos: nat)
    requires Progress(st, table, seen, pos)
    ensures st.Shape() && st.found <= st.arg.maxPages <= ULONG_MAX
    ensures st.arg.start <= pos <= |seen| == |table|
    ensures forall i :: pos <= i < |seen| ==> table[i] == seen[i]
  {
  }

  /** Pages that are not selected are passed over. */
  lemma SkipRun(st: ScanState, table: Table, after: Table, seen: Table, pos: nat, next: nat)
    requires Progress(st, table, seen, pos) && pos <= next <= |seen|
    requires Passed(st.arg, table, after, seen, pos, next)
    requires st.HasBuffer() ==> forall i :: pos <= i < next ==> !Selected(st.arg, seen[i])
    ensures Progress(st, after, seen, next)
  {
    ScannedOn(st.arg, table, after, seen, pos, next);
    if st.HasBuffer() {
      MatchesNone(st.arg, seen, st.arg.start, pos, next);
    }
  }

  /** A run of selected pages is reported. */
  lemma ReportRun(st: ScanState, categories: Categories, table: Table, after: Table, seen: Table,
                  pos: nat, end: nat)
    requires Progress(st, table, seen, pos) && st.Ready() && pos < end <= |seen| <= ULONG_MAX
    requires st.HasBuffer() ==> forall i :: pos <= i < end ==>
               Selected(st.arg, seen[i]) && Reported(st.arg, seen[i]) == categories * st.arg.returnMask
    requires Passed(st.arg, table, after, seen, pos, st.Output(categories, pos, end).2)
    ensures var (s, ret, next) := st.Output(categories, pos, end);
      && Progress(s, after, seen, next)
      && (ret != 0 ==> Blocked(s, seen, next))
      && (next > pos ==> s.Ready())
  {
    hide Selected, Reported, AfterScan, Matches, Expand, Pages;
    var c := categories * st.arg.returnMask;
    assert st.MayFollow(pos, c);
    st.OutputFrame(categories, pos, end);
    st.OutputMeaning(categories, pos, end);
    st.OutputStops(categories, pos, end);
    var (s, ret, next) := st.Output(categories, pos, end);
    ScannedOn(st.arg, table, after, seen, pos, next);
    if st.HasBuffer() {
      MatchesRun(st.arg, seen, st.arg.start, pos, next, c);
    }
  }

  /** A flush loses nothing, and the walk may go on from where it was blocked. */
  lemma FlushProgress(st: ScanState, table: Table, seen: Table, pos: nat)
    requires Progress(st, table, seen, pos)
    ensures st.HasBuffer() ==> st.Count() <= st.vecLen && st.Count() <= |st.slots|
    ensures st.Shape() && st.Count() == |st.Content()|
    ensures var s := st.Flush();
      && Flushed(s, table, seen, pos) && s.found == st.found && s.bufLen <= st.bufLen
      && s.out == st.out + st.Content()
      && (Blocked(st, seen, pos) ==> st.HasBuffer() && st.arg.start < pos)
      && (Blocked(st, seen, pos) && st.found < st.arg.maxPages ==>
            st.Count() > 0 && Progress(s, table, seen, pos) && (s.bufLen == 0 <==> s.vecLen == 0)
            && (s.vecLen > 0 ==> s.Ready()))
  {
    st.FlushMeaning();
  }

  /** Everything reported has been copied out. */
  ghost predicate Flushed(st: ScanState, table: Table, seen: Table, pos: nat) {
    Done(st, table, seen, pos) && st.out == st.Regions()
  }

  /** A prefix of the list of matches is the list of the matches below some page. */
  lemma {:induction false} PrefixCut(arg: ScanArg, seen: Table, lo: nat, hi: nat, n: nat) returns (k: nat)
    requires lo <= hi <= |seen| && n <= |Matches(arg, seen, lo, hi)|
    ensures lo <= k <= hi && Matches(arg, seen, lo, k) == Matches(arg, seen, lo, hi)[..n]
  {
    if n == |Matches(arg, seen, lo, hi)| {
      k := hi;
    } else {
      k := PrefixCut(arg, seen, lo, hi - 1, n);
    }
  }

  // ---- huge pages ----

  /** Huge pages are aligned and map all their pages alike. */
  ghost predicate HugeAligned(t: Table) {
    forall i :: 0 <= i < |t| && t[i].Pmd? ==> HugeBlock(t, i)
  }

  /** The position a walk can be in: not inside a huge page, unless it started there. */
  ghost predicate AtBoundary(arg: ScanArg, seen: Table, pos: nat) {
    pos == arg.start || (pos < |seen| && seen[pos].Pmd? ==> Base(pos) == pos)
  }

  /** A slot of a huge page after the page was split: a PTE with the same bits, or nothing, since
      a huge page of a file mapping is unmapped instead. Guard markers are a matter of PTEs;
      splitting makes none. */
  function SplitSlot(slot: Slot): Slot
    requires slot.Pmd?
  {
    if slot.vma.file then Hole(slot.vma)
    else Pte(slot.vma, if slot.leaf.Swap? then slot.leaf.(guard := false) else slot.leaf)
  }

  /** The scan is to write-protect the huge page, so that it may have to split it. */
  predicate ToProtect(arg: ScanArg, slot: Slot) {
    arg.wpMatching && slot.Pmd? && Selected(arg, slot) && IsWritten(slot)
  }

  /** Nothing the scan has passed on its way to `pos` is split afterwards. */
  ghost predicate SameBelow(arg: ScanArg, from: Table, to: Table, pos: nat) {
    |from| == |to| && forall i :: arg.start <= i < pos && i < |from| ==> to[i] == from[i]
  }

  /** `to` is `from` with the huge page around `pos` split. */
  ghost predicate SplitAt(from: Table, to: Table, pos: nat) {
    && pos < |from| == |to| && from[pos].Pmd?
    && forall i :: 0 <= i < |from| ==>
         to[i] == if InBlock(i, Base(pos)) then SplitSlot(from[pos]) else from[i]
  }

  /** `seen` is `initial` with some huge pages split, and only those that the scan was to
      write-protect: selected WRITTEN ones, in a protecting scan. */
  ghost predicate SplitOf(arg: ScanArg, initial: Table, seen: Table) {
    && |initial| == |seen|
    && forall i :: 0 <= i < |seen| && seen[i] != initial[i] ==>
         && initial[i].Pmd? && seen[i] == SplitSlot(initial[i])
         && arg.wpMatching && Selected(arg, initial[i]) && IsWritten(initial[i])
  }

  /** All pages of `lo .. hi` are in VMAs the scan may enter or skip. */
  ghost predicate AllPassable(arg: ScanArg, t: Table, lo: nat, hi: nat)
    requires hi <= |t|
  {
    forall i :: lo <= i < hi ==> Passable(arg, t[i])
  }

  /** Splitting huge pages changes no VMA. */
  lemma SplitStaysPassable(arg: ScanArg, from: Table, to: Table, lo: nat, hi: nat)
    requires SplitOf(arg, from, to) && hi <= |to|
    ensures AllPassable(arg, from, lo, hi) <==> AllPassable(arg, to, lo, hi)
  {
    hide TestWalk, Selected, IsWritten;
    forall i | lo <= i < hi
      ensures Passable(arg, from[i]) <==> Passable(arg, to[i])
    {
    }
  }

  lemma PassableOn(arg: ScanArg, from: Table, to: Table, lo: nat, mid: nat, hi: nat)
    requires SplitOf(arg, from, to) && mid <= hi <= |to|
    requires AllPassable(arg, from, lo, mid) && AllPassable(arg, to, mid, hi)
    ensures AllPassable(arg, to, lo, hi)
  {
    SplitStaysPassable(arg, from, to, lo, mid);
  }

  lemma SplitOnce(arg: ScanArg, seen: Table, split: Table, pos: nat)
    requires HugeAligned(seen) && SplitAt(seen, split, pos)
    requires arg.wpMatching && Selected(arg, seen[pos]) && IsWritten(seen[pos])
    ensures SplitOf(arg, seen, split)
  {
    hide Selected, IsWritten;
    assert HugeBlock(seen, pos);
  }

  lemma SplitTransitive(arg: ScanArg, a: Table, b: Table, c: Table)
    requires SplitOf(arg, a, b) && SplitOf(arg, b, c)
    ensures SplitOf(arg, a, c)
  {
    hide Selected, IsWritten;
    forall i | 0 <= i < |c| && c[i] != a[i]
      ensures a[i].Pmd? && c[i] == SplitSlot(a[i]) && arg.wpMatching && Selected(arg, a[i]) && IsWritten(a[i])
    {
      assert b[i] == a[i] || b[i] == SplitSlot(a[i]);
    }
  }

  lemma SameBlock(i: nat, j: nat, k: nat)
    requires InBlock(j, Base(i)) && InBlock(j, Base(k))
    ensures InBlock(i, Base(k))
  {
  }

  lemma SplitStaysAligned(from: Table, to: Table, pos: nat)
    requires HugeAligned(from) && SplitAt(from, to, pos)
    ensures HugeAligned(to)
  {
    forall i | 0 <= i < |to| && to[i].Pmd?
      ensures HugeBlock(to, i)
    {
      assert from[i].Pmd? && HugeBlock(from, i);
      forall j | Base(i) <= j < Base(i) + HPAGE_NR
        ensures to[j] == to[i]
      {
        if InBlock(j, Base(pos)) {
          SameBlock(i, j, pos);
        }
      }
    }
  }

  /** After the report of part of a huge page is backed out and the page is split, the scan
      is where it was, on the table it would have met had the page been split before. */
  lemma BackoutProgress(st: ScanState, categories: Categories, table: Table, after: Table,
                        seen: Table, split: Table, pos: nat, end: nat)
    requires Progress(st, table, seen, pos) && st.Ready() && pos < end <= |seen| <= ULONG_MAX
    requires HugeAligned(seen) && AtBoundary(st.arg, seen, pos)
    requires SplitAt(seen, split, pos) && SplitAt(table, after, pos)
    requires st.HasBuffer() ==> Selected(st.arg, seen[pos])
                                && Reported(st.arg, seen[pos]) == categories * st.arg.returnMask
    requires st.Output(categories, pos, end).2 > pos
    ensures var (s, _, next) := st.Output(categories, pos, end);
      && (s.HasBuffer() ==> s.index < |s.slots| && next - pos <= s.found)
      && Progress(s.Backout(pos, next), after, split, pos)
      && s.Backout(pos, next).Ready()
  {
    var c := categories * st.arg.returnMask;
    var lo := st.arg.start;
    var (s, _, next) := st.Output(categories, pos, end);
    assert st.HasBuffer() ==> st.MayFollow(pos, c);
    st.OutputFrame(categories, pos, end);
    BeforeTheBlock(st.arg, seen, split, pos);
    MatchesAgree(st.arg, seen, split, lo, pos);
    if st.HasBuffer() {
      st.OutputMeaning(categories, pos, end);
      s.BackoutMeaning(pos, next, Expand(st.Regions()), c);
    }
  }

  /** No page between the start of the scan and its position is in the huge page it is at. */
  lemma BeforeTheBlock(arg: ScanArg, seen: Table, split: Table, pos: nat)
    requires SplitAt(seen, split, pos) && AtBoundary(arg, seen, pos)
    ensures forall i :: arg.start <= i < pos ==> !InBlock(i, Base(pos)) && split[i] == seen[i]
  {
  }

  // ---- the pieces of a walk ----

  /** The table with the PTE at `addr` protected, if it was written to. */
  function WritePte(table: Table, addr: nat, write: bool): Table
    requires addr < |table| && table[addr].Pte?
  {
    if write then table[addr := Pte(table[addr].vma, Protect(table[addr].leaf))] else table
  }

  ghost predicate PageContext(st: ScanState, table: Table, seen: Table, addr: nat) {
    && Progress(st, table, seen, addr) && st.Ready()
    && addr < |seen| <= ULONG_MAX && seen[addr].Pte? && TestWalk(st.arg, seen[addr].vma) == 0
  }

  /** A page the general loop does not select. */
  lemma PageSkipped(st: ScanState, table: Table, seen: Table, addr: nat)
    requires PageContext(st, table, seen, addr)
    requires !st.arg.WrittenOnly() && (st.arg.wpMatching ==> st.HasBuffer())
    requires !IsInterestingPage(LazyCategories(st.arg, seen[addr]), st.arg)
    ensures Progress(st, table, seen, addr + 1)
  {
    hide CategoriesOf, LazyCategories, IsInterestingPage;
    LazyFile(st.arg, seen[addr]);
    SkipRun(st, table, table, seen, addr, addr + 1);
  }

  lemma GeneralTakes(arg: ScanArg, slot: Slot)
    requires slot.Pte? && TestWalk(arg, slot.vma) == 0 && !arg.WrittenOnly() && (arg.wpMatching ==> arg.vecLen > 0)
    requires IsInterestingPage(LazyCategories(arg, slot), arg)
    ensures Selected(arg, slot) && Reported(arg, slot) == LazyCategories(arg, slot) * arg.returnMask
    ensures AfterScan(arg, slot) == if arg.wpMatching && Written in LazyCategories(arg, slot)
                                    then Pte(slot.vma, Protect(slot.leaf)) else slot
  {
    hide IsInterestingPage, LazyCategories, CategoriesOf, Protect;
    LazyFile(arg, slot);
  }

  /** A page the general loop selects: reported, and protected if it is WRITTEN and that
      was asked for; or neither, and then the scan is blocked there. */
  lemma PageReported(st: ScanState, table: Table, seen: Table, addr: nat)
    requires PageContext(st, table, seen, addr)
    requires !st.arg.WrittenOnly() && (st.arg.wpMatching ==> st.HasBuffer())
    requires IsInterestingPage(LazyCategories(st.arg, seen[addr]), st.arg)
    ensures var categories := LazyCategories(st.arg, seen[addr]);
            var (s, ret, next) := st.Output(categories, addr, addr + 1);
            var write := next > addr && st.arg.wpMatching && Written in categories;
      && (next == addr || next == addr + 1) && s.Shape()
      && Progress(s, WritePte(table, addr, write), seen, next)
      && (next == addr ==> ret == -ENOSPC && Blocked(s, seen, next) && s.walkEnd == next)
      && (next > addr ==> ret == 0 && s.Ready() && s.walkEnd == st.walkEnd)
  {
    hide LazyCategories, IsInterestingPage, Selected, Reported, AfterScan, Protect, TestWalk, Expand, Matches;
    var categories := LazyCategories(st.arg, seen[addr]);
    GeneralTakes(st.arg, seen[addr]);
    st.OutputFrame(categories, addr, addr + 1);
    var next := st.Output(categories, addr, addr + 1).2;
    var write := next > addr && st.arg.wpMatching && Written in categories;
    ReportRun(st, categories, table, WritePte(table, addr, write), seen, addr, addr + 1);
  }

  /** A page in the WRITTEN-only loop that is protected already. */
  lemma WrittenSkipped(st: ScanState, table: Table, seen: Table, addr: nat)
    requires PageContext(st, table, seen, addr) && UffdWp(seen[addr].leaf)
    requires st.arg.WrittenOnly() && (st.arg.wpMatching ==> st.HasBuffer())
    ensures Progress(st, table, seen, addr + 1)
  {
    hide IsInterestingPage, CategoriesOf;
    SkipRun(st, table, table, seen, addr, addr + 1);
  }

  lemma WrittenTakes(arg: ScanArg, slot: Slot)
    requires slot.Pte? && TestWalk(arg, slot.vma) == 0 && !UffdWp(slot.leaf)
    requires arg.WrittenOnly() && (arg.wpMatching ==> arg.vecLen > 0)
    ensures Selected(arg, slot) && Reported(arg, slot) == {Written}
    ensures AfterScan(arg, slot) == if arg.wpMatching then Pte(slot.vma, Protect(slot.leaf)) else slot
  {
    hide IsInterestingPage, CategoriesOf, Protect;
  }

  /** Any other page in the WRITTEN-only loop. */
  lemma WrittenReported(st: ScanState, table: Table, seen: Table, addr: nat)
    requires PageContext(st, table, seen, addr) && !UffdWp(seen[addr].leaf)
    requires st.arg.WrittenOnly() && (st.arg.wpMatching ==> st.HasBuffer())
    ensures var (s, ret, next) := st.Output(VmaCategory(seen[addr].vma) + {Written}, addr, addr + 1);
      && (next == addr || next == addr + 1) && s.Shape()
      && Progress(s, WritePte(table, addr, next > addr && st.arg.wpMatching), seen, next)
      && (next == addr ==> ret == -ENOSPC && Blocked(s, seen, next) && s.walkEnd == next)
      && (next > addr ==> ret == 0 && s.Ready() && s.walkEnd == st.walkEnd)
  {
    hide VmaCategory, Selected, Reported, AfterScan, Protect, TestWalk;
    var categories := VmaCategory(seen[addr].vma) + {Written};
    assert categories * st.arg.returnMask == {Written};
    WrittenTakes(st.arg, seen[addr]);
    st.OutputFrame(categories, addr, addr + 1);
    var next := st.Output(categories, addr, addr + 1).2;
    ReportRun(st, categories, table, WritePte(table, addr, next > addr && st.arg.wpMatching), seen, addr, addr + 1);
  }

  /** A page in the loop that only protects. */
  lemma ExclusivePage(st: ScanState, table: Table, seen: Table, addr: nat)
    requires PageContext(st, table, seen, addr)
    requires st.arg.wpMatching && !st.HasBuffer()
    ensures Progress(st, WritePte(table, addr, !UffdWp(seen[addr].leaf)), seen, addr + 1)
  {
    hide Selected;
    SkipRun(st, table, WritePte(table, addr, !UffdWp(seen[addr].leaf)), seen, addr, addr + 1);
  }

  /** The slots `addr .. next` are one piece of a walk: all of a kind, in one VMA, and
      within one page-middle-directory entry unless there are no page tables. */
  predicate Piece(t: Table, addr: nat, next: nat, end: nat) {
    && addr < next <= end && next <= |t|
    && (forall i :: addr <= i < next ==>
          && (t[i].Unmapped? <==> t[addr].Unmapped?) && (t[i].Hole? <==> t[addr].Hole?)
          && (t[i].Pte? <==> t[addr].Pte?)
          && (!t[i].Unmapped? ==> t[i].vma == t[addr].vma)
          && (t[addr].Pmd? ==> t[i] == t[addr]))
    && (t[addr].Pte? ==> next <= Base(addr) + HPAGE_NR)
    && (t[addr].Pmd? ==> next == if Base(addr) + HPAGE_NR < end then Base(addr) + HPAGE_NR else end)
  }

  /** There always is a next piece. */
  lemma PieceExists(t: Table, seen: Table, addr: nat, end: nat)
    requires |t| == |seen| && addr < end <= |seen| && HugeAligned(seen)
    requires forall i :: addr <= i < |seen| ==> t[i] == seen[i]
    ensures exists next :: addr < next <= end && Piece(t, addr, next, end)
  {
    var next := if t[addr].Pmd? && Base(addr) + HPAGE_NR < end then Base(addr) + HPAGE_NR
                else if t[addr].Pmd? then end else addr + 1;
    if t[addr].Pmd? {
      assert HugeBlock(seen, addr);
    }
    assert Piece(t, addr, next, end);
  }

  /** After a piece the walk is again at the boundary of any huge page that follows. */
  lemma PieceEndsAtBoundary(arg: ScanArg, seen: Table, addr: nat, next: nat, end: nat)
    requires HugeAligned(seen) && Piece(seen, addr, next, end) && next < end
    ensures AtBoundary(arg, seen, next)
  {
    if next < |seen| && seen[next].Pmd? && !seen[addr].Pmd? {
      assert HugeBlock(seen, next);
      assert !seen[next - 1].Pmd?;
    }
  }

  /** Pages that nothing is done to: outside every VMA, or in a VMA that is skipped. */
  lemma PieceSkipped(st: ScanState, table: Table, seen: Table, addr: nat, next: nat)
    requires Progress(st, table, seen, addr) && addr <= next <= |seen|
    requires forall i :: addr <= i < next ==>
               seen[i].Unmapped? || TestWalk(st.arg, seen[i].vma) != 0
    ensures Progress(st, table, seen, next)
  {
    hide CategoriesOf, IsInterestingPage, IsInterestingVma;
    forall i | addr <= i < next
      ensures !Selected(st.arg, seen[i])
    {
      if Selected(st.arg, seen[i]) && !seen[i].Unmapped? {
        VmaFilterDropsNothing(st.arg, seen[i]);
      }
    }
    hide Selected, TestWalk;
    SkipRun(st, table, table, seen, addr, next);
  }

  ghost predicate HoleContext(st: ScanState, table: Table, seen: Table, addr: nat, end: nat) {
    && Progress(st, table, seen, addr) && st.Ready() && addr < end <= |seen| <= ULONG_MAX
    && (forall i :: addr <= i < end ==> seen[i] == seen[addr]) && seen[addr].Hole?
    && TestWalk(st.arg, seen[addr].vma) == 0
  }

  lemma HoleSkipped(st: ScanState, table: Table, seen: Table, addr: nat, end: nat)
    requires HoleContext(st, table, seen, addr, end)
    requires !IsInterestingPage(VmaCategory(seen[addr].vma), st.arg)
    ensures Progress(st, table, seen, end)
  {
    hide IsInterestingPage, VmaCategory;
    SkipRun(st, table, table, seen, addr, end);
  }

  /** The table after a reported hole: markers are installed if that was asked for. */
  ghost predicate HoleWritten(from: Table, to: Table, addr: nat, next: nat, write: bool) {
    && |from| == |to|
    && forall i :: 0 <= i < |from| ==>
         to[i] == if write && addr <= i < next && from[i].Hole? then Pte(from[i].vma, Protect(Empty)) else from[i]
  }

  /** What the report of a hole says of each of its pages. */
  lemma HoleSelected(arg: ScanArg, slot: Slot)
    requires slot.Hole? && TestWalk(arg, slot.vma) == 0 && IsInterestingPage(VmaCategory(slot.vma), arg)
    ensures Selected(arg, slot) && Reported(arg, slot) == VmaCategory(slot.vma) * arg.returnMask
    ensures AfterScan(arg, slot) == if arg.wpMatching then Pte(slot.vma, Protect(Empty)) else slot
  {
    hide IsInterestingPage, VmaCategory;
  }

  lemma HoleReported(st: ScanState, table: Table, after: Table, seen: Table, addr: nat, end: nat)
    requires HoleContext(st, table, seen, addr, end)
    requires IsInterestingPage(VmaCategory(seen[addr].vma), st.arg)
    requires HoleWritten(table, after, addr, st.Output(VmaCategory(seen[addr].vma), addr, end).2, st.arg.wpMatching)
    ensures var (s, ret, next) := st.Output(VmaCategory(seen[addr].vma), addr, end);
      && s.Shape() && Progress(s, after, seen, next)
      && (ret != 0 ==> ret == -ENOSPC && next < end && Blocked(s, seen, next) && s.walkEnd == next)
      && (ret == 0 ==> s.Ready() && next == end && s.walkEnd == st.walkEnd)
  {
    hide IsInterestingPage, VmaCategory, Selected, Reported, AfterScan, Protect, TestWalk, Expand, Matches;
    HoleSelected(st.arg, seen[addr]);
    var categories := VmaCategory(seen[addr].vma);
    st.OutputFrame(categories, addr, end);
    ReportRun(st, categories, table, after, seen, addr, end);
  }

  ghost predicate ThpContext(st: ScanState, table: Table, seen: Table, addr: nat, end: nat) {
    && Progress(st, table, seen, addr) && st.Ready() && addr < end <= |seen| <= ULONG_MAX
    && (forall i :: addr <= i < end ==> seen[i] == seen[addr]) && seen[addr].Pmd?
    && TestWalk(st.arg, seen[addr].vma) == 0
  }

  lemma ThpSkipped(st: ScanState, table: Table, seen: Table, addr: nat, end: nat)
    requires ThpContext(st, table, seen, addr, end)
    requires !IsInterestingPage(LazyCategories(st.arg, seen[addr]), st.arg)
    ensures Progress(st, table, seen, end)
  {
    hide IsInterestingPage, LazyCategories, CategoriesOf;
    LazyFile(st.arg, seen[addr]);
    SkipRun(st, table, table, seen, addr, end);
  }

  /** What the report of a huge page says of each of its pages. */
  lemma ThpSelected(arg: ScanArg, slot: Slot)
    requires slot.Pmd? && TestWalk(arg, slot.vma) == 0
    requires IsInterestingPage(LazyCategories(arg, slot), arg)
    ensures Selected(arg, slot) && Reported(arg, slot) == LazyCategories(arg, slot) * arg.returnMask
    ensures IsWritten(slot) <==> Written in LazyCategories(arg, slot)
  {
    hide IsInterestingPage, LazyCategories, CategoriesOf;
    LazyFile(arg, slot);
  }

  /** The table after a huge page was protected as a whole. */
  ghost predicate ThpWritten(from: Table, to: Table, addr: nat, next: nat, write: bool) {
    && |from| == |to| && addr < |from|
    && forall i :: 0 <= i < |from| ==>
         to[i] == if write && addr <= i < next && from[addr].Pmd? then Pmd(from[addr].vma, ProtectPmd(from[addr].leaf))
                  else from[i]
  }

  lemma ThpPassed(arg: ScanArg, table: Table, after: Table, seen: Table, addr: nat, next: nat)
    requires |table| == |seen| && addr <= next <= |seen| && addr < |seen| && table[addr] == seen[addr]
    requires forall i :: addr <= i < next ==> table[i] == seen[i] == seen[addr]
    requires seen[addr].Pmd? && TestWalk(arg, seen[addr].vma) == 0
    requires IsInterestingPage(LazyCategories(arg, seen[addr]), arg)
    requires ThpWritten(table, after, addr, next, arg.wpMatching && Written in LazyCategories(arg, seen[addr]))
    ensures Passed(arg, table, after, seen, addr, next)
  {
    var slot := seen[addr];
    ThpSelected(arg, slot);
    hide IsInterestingPage, LazyCategories, CategoriesOf, Selected, IsWritten, TestWalk, Protect, ProtectPmd;
    var done := AfterScan(arg, slot);
    assert done == if arg.wpMatching && IsWritten(slot) then Pmd(slot.vma, ProtectPmd(slot.leaf)) else slot;
    hide AfterScan;
  }

  /** A huge page, or part of one, reported; protected only if nothing was left out. */
  lemma ThpReported(st: ScanState, table: Table, after: Table, seen: Table, addr: nat, end: nat)
    requires ThpContext(st, table, seen, addr, end)
    requires IsInterestingPage(LazyCategories(st.arg, seen[addr]), st.arg)
    requires var next := st.Output(LazyCategories(st.arg, seen[addr]), addr, end).2;
      var write := st.arg.wpMatching && Written in LazyCategories(st.arg, seen[addr]);
      ThpWritten(table, after, addr, next, write)
    ensures var (s, ret, next) := st.Output(LazyCategories(st.arg, seen[addr]), addr, end);
      && s.Shape() && Progress(s, after, seen, next)
      && (ret != 0 ==> ret == -ENOSPC && next < end && Blocked(s, seen, next) && s.walkEnd == next)
      && (ret == 0 ==> s.Ready() && next == end && s.walkEnd == st.walkEnd)
  {
    hide IsInterestingPage, LazyCategories, Selected, Reported, IsWritten, TestWalk;
    hide AfterScan, ThpWritten, Protect, ProtectPmd;
    var categories := LazyCategories(st.arg, seen[addr]);
    st.OutputFrame(categories, addr, end);
    ThpPassed(st.arg, table, after, seen, addr, st.Output(categories, addr, end).2);
    ThpSelected(st.arg, seen[addr]);
    ReportRun(st, categories, table, after, seen, addr, end);
  }
}
