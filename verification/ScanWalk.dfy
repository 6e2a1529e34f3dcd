/** The walk of a scan over the page table, piece by piece: the loops over PTEs, huge pages
    and holes, up to one call of walk_page_range. */
module ScanWalk {
  import opened Kernel
  import opened ScanTypes
  import opened ScanBuffer
  import opened ScanSpec
  import opened ScanFastPath
  import opened ScanSplit

  /** An address space, and the page-table operations the scan relies on. */
  class Mm {
    var table: Table

    constructor (table: Table)
      ensures this.table == table
    {
      this.table := table;
    }

    method MakeUffdWpPte(addr: nat)
      requires addr < |table| && table[addr].Pte?
      modifies this
      ensures table == old(table)[addr := Pte(old(table)[addr].vma, Protect(old(table)[addr].leaf))]
    {
      table := table[addr := Pte(table[addr].vma, Protect(table[addr].leaf))];
    }

    method MakeUffdWpPmd(pos: nat)
      requires pos < |table| && table[pos].Pmd?
      modifies this
      ensures |table| == |old(table)|
      ensures forall i :: 0 <= i < |table| ==>
                table[i] == if InBlock(i, Base(pos))
                            then Pmd(old(table)[pos].vma, ProtectPmd(old(table)[pos].leaf)) else old(table)[i]
    {
      var t, slot := table, Pmd(table[pos].vma, ProtectPmd(table[pos].leaf));
      table := seq(|t|, i requires 0 <= i < |t| => if InBlock(i, Base(pos)) then slot else t[i]);
    }

    method SplitHugePmd(pos: nat)
      requires pos < |table| && table[pos].Pmd?
      modifies this
      ensures SplitAt(old(table), table, pos)
    {
      var t, slot := table, SplitSlot(table[pos]);
      table := seq(|t|, i requires 0 <= i < |t| => if InBlock(i, Base(pos)) then slot else t[i]);
    }

    /** Write-protect a range without page tables: markers are installed. */
    method UffdWpRange(addr: nat, end: nat)
      requires addr <= end <= |table| && forall i :: addr <= i < end ==> table[i].Hole?
      modifies this
      ensures |table| == |old(table)|
      ensures forall i :: 0 <= i < |table| ==>
                table[i] == if addr <= i < end then Pte(old(table)[i].vma, Protect(Empty)) else old(table)[i]
    {
      var t := table;
      table := seq(|t|, i requires 0 <= i < |t| =>
                 if addr <= i < end && t[i].Hole? then Pte(t[i].vma, Protect(Empty)) else t[i]);
    }
  }

  /** The scan stands at `pos` and may go on. */
  ghost predicate At(p: ScanPrivate, mm: Mm, seen: Table, pos: nat)
    reads p, p.vecBuf, mm
  {
    && p.Allocated() && |seen| <= ULONG_MAX
    && Progress(p.State(), mm.table, seen, pos)
    && p.State().Ready()
  }

  /** The scan ran out of room at `pos`. */
  ghost predicate StoppedAt(p: ScanPrivate, mm: Mm, seen: Table, pos: nat)
    reads p, p.vecBuf, mm
  {
    && p.Allocated() && |seen| <= ULONG_MAX
    && Progress(p.State(), mm.table, seen, pos)
    && Blocked(p.State(), seen, pos)
    && p.walkEnd == pos
  }

  /** The walker has entered the VMA. */
  ghost predicate Entered(p: ScanPrivate, vma: Vma)
    reads p
  {
    TestWalk(p.arg, vma) == 0 && p.curVmaCategory == VmaCategory(vma)
  }

  /** What a step of the walk leaves behind: it reached `pos` = `end`, or ran out of room. */
  ghost predicate Stepped(p: ScanPrivate, mm: Mm, seen: Table, ret: int, start: nat, pos: nat, end: nat)
    reads p, p.vecBuf, mm
  {
    && (ret == 0 || ret == -ENOSPC) && start <= pos <= end
    && (ret == 0 ==> pos == end && At(p, mm, seen, pos))
    && (ret != 0 ==> pos < end && StoppedAt(p, mm, seen, pos)
                     && (p.foundPages == p.arg.maxPages || AtBoundary(p.arg, seen, pos)))
  }

  /** What a walk from `lo` to `hi` that was not stopped leaves in `walk_end`, `before` being
      there when it began. */
  ghost predicate Marks(p: ScanPrivate, seen0: Table, seen: Table, lo: nat, hi: nat, before: nat)
    requires p.arg.start <= |seen| && hi <= |seen0| == |seen|
    reads p
  {
    SplitsBelow(p.arg, seen0, seen, hi) && p.walkEnd == LastClamp(p.arg, seen0, seen, lo, hi, before)
  }

  /** A walk on after another. */
  lemma MarksOn(p: ScanPrivate, a: Table, b: Table, c: Table, lo: nat, mid: nat, hi: nat, before: nat, marked: nat)
    requires p.arg.start <= lo <= mid <= hi <= |a| == |b| == |c| && SameBelow(p.arg, b, c, mid)
    requires SplitsBelow(p.arg, a, b, mid) && marked == LastClamp(p.arg, a, b, lo, mid, before)
    requires Marks(p, b, c, mid, hi, marked)
    ensures Marks(p, a, c, lo, hi, before)
  {
    hide LastClamp;
    ClampsOn(p.arg, a, b, c, lo, mid, hi, before);
  }

  /** One page of the general loop; `wrote` tells that its entry was write-protected. */
  method ScanPage(p: ScanPrivate, mm: Mm, addr: nat, ghost seen: Table)
    returns (ret: int, wrote: bool)
    requires At(p, mm, seen, addr) && addr < |seen| && seen[addr].Pte? && Entered(p, seen[addr].vma)
    requires !p.arg.WrittenOnly() && (p.arg.wpMatching ==> p.vecBuf != null)
    modifies p`vecBufIndex, p`foundPages, p`walkEnd, p.vecBuf, mm
    ensures ret == 0 ==> At(p, mm, seen, addr + 1) && p.walkEnd == old(p.walkEnd)
    ensures ret != 0 ==> ret == -ENOSPC && StoppedAt(p, mm, seen, addr) && !wrote
    ensures mm.table == WritePte(old(mm.table), addr, wrote)
    ensures CanStep(old(p.State()), old(mm.table), addr)
            && (p.State(), mm.table, ret) == PageStep(false, old(p.State()), old(mm.table), addr)
  {
    hide Progress, Blocked, IsInterestingPage, PageCategory, VmaCategory;
    ret, wrote := 0, false;
    ghost var st := p.State();
    Ahead(st, mm.table, seen, addr);
    var categories := p.curVmaCategory + PageCategory(p.arg.MasksOfInterest(), mm.table[addr].leaf);
    assert categories == LazyCategories(p.arg, seen[addr]);
    if !IsInterestingPage(categories, p.arg) {
      PageSkipped(st, mm.table, seen, addr);
      return;
    }
    PageReported(st, mm.table, seen, addr);
    var next;
    ret, next := p.Output(categories, addr, addr + 1);
    if next != addr && p.arg.wpMatching && Written in categories {
      mm.MakeUffdWpPte(addr);
      wrote := true;
    }
  }

  /** One page of the WRITTEN-only loop. */
  method ScanWrittenPage(p: ScanPrivate, mm: Mm, addr: nat, ghost seen: Table)
    returns (ret: int, wrote: bool)
    requires At(p, mm, seen, addr) && addr < |seen| && seen[addr].Pte? && Entered(p, seen[addr].vma)
    requires p.arg.WrittenOnly() && (p.arg.wpMatching ==> p.vecBuf != null)
    modifies p`vecBufIndex, p`foundPages, p`walkEnd, p.vecBuf, mm
    ensures ret == 0 ==> At(p, mm, seen, addr + 1) && p.walkEnd == old(p.walkEnd)
    ensures ret != 0 ==> ret == -ENOSPC && StoppedAt(p, mm, seen, addr) && !wrote
    ensures mm.table == WritePte(old(mm.table), addr, wrote)
    ensures CanStep(old(p.State()), old(mm.table), addr)
            && (p.State(), mm.table, ret) == PageStep(true, old(p.State()), old(mm.table), addr)
  {
    hide Progress, Blocked, VmaCategory;
    ret, wrote := 0, false;
    ghost var st := p.State();
    Ahead(st, mm.table, seen, addr);
    if UffdWp(mm.table[addr].leaf) {
      WrittenSkipped(st, mm.table, seen, addr);
      return;
    }
    WrittenReported(st, mm.table, seen, addr);
    var next;
    ret, next := p.Output(p.curVmaCategory + {Written}, addr, addr + 1);
    if next != addr && p.arg.wpMatching {
      mm.MakeUffdWpPte(addr);
      wrote := true;
    }
  }

  /** One page of the loop that only protects. */
  method ProtectPage(p: ScanPrivate, mm: Mm, addr: nat, ghost seen: Table) returns (wrote: bool)
    requires At(p, mm, seen, addr) && addr < |seen| && seen[addr].Pte? && Entered(p, seen[addr].vma)
    requires p.arg.wpMatching && p.vecBuf == null
    modifies mm
    ensures At(p, mm, seen, addr + 1)
    ensures mm.table == WritePte(old(mm.table), addr, wrote)
  {
    hide Progress;
    Ahead(p.State(), mm.table, seen, addr);
    ExclusivePage(p.State(), mm.table, seen, addr);
    wrote := !UffdWp(mm.table[addr].leaf);
    if wrote {
      mm.MakeUffdWpPte(addr);
    }
  }

  /** The loops over the PTEs of one page-middle-directory entry. Every entry that was
      modified lies in the one range that is flushed from the TLB; and unless the loop only
      protects, what it leaves is what `Loop` says of the loop the request takes. */
  method ScanPtes(p: ScanPrivate, mm: Mm, start: nat, end: nat, ghost seen: Table)
    returns (ret: int, flushStart: nat, flushEnd: nat)
    requires At(p, mm, seen, start) && start < end <= |seen|
    requires forall i :: start <= i < end ==> seen[i].Pte? && Entered(p, seen[i].vma)
    modifies p`vecBufIndex, p`foundPages, p`walkEnd, p.vecBuf, mm
    ensures Stepped(p, mm, seen, ret, start, if ret == 0 then end else p.walkEnd, end)
    ensures ret == 0 ==> p.walkEnd == old(p.walkEnd)
    ensures |mm.table| == |old(mm.table)|
    ensures forall i :: 0 <= i < |mm.table| && mm.table[i] != old(mm.table)[i] ==>
              start <= flushStart <= i < flushEnd <= end
    ensures !(p.arg.wpMatching && p.vecBuf == null) ==>
              (p.State(), mm.table, ret) == Loop(p.arg.WrittenOnly(), old(p.State()), old(mm.table), start, end)
  {
    hide Progress, Blocked, Loop, PageStep, CanStep;
    var exclusive, addr, wrote, anyWrote := p.arg.wpMatching && p.vecBuf == null, start, false, false;
    ret, flushStart := 0, start;
    Ahead(p.State(), mm.table, seen, addr);
    ghost var fast, whole := p.arg.WrittenOnly(), Loop(p.arg.WrittenOnly(), p.State(), mm.table, start, end);
    while addr != end && ret == 0
      invariant start <= addr <= end && start <= flushStart <= addr
      invariant ret == 0 ==> At(p, mm, seen, addr) && p.walkEnd == old(p.walkEnd)
      invariant ret != 0 ==> ret == -ENOSPC && addr < end && StoppedAt(p, mm, seen, addr)
      invariant |mm.table| == |old(mm.table)| == |seen|
      invariant !exclusive ==>
                  whole == if ret == 0 then Loop(fast, p.State(), mm.table, addr, end) else (p.State(), mm.table, ret)
      invariant !anyWrote ==> mm.table == old(mm.table)
      invariant forall i :: 0 <= i < |seen| && mm.table[i] != old(mm.table)[i] ==> flushStart <= i < addr
      decreases end - addr, if ret == 0 then 1 else 0
    {
      Ahead(p.State(), mm.table, seen, addr);
      ghost var st, table := p.State(), mm.table;
      if exclusive {
        wrote := ProtectPage(p, mm, addr, seen);
      } else if p.arg.WrittenOnly() {
        ret, wrote := ScanWrittenPage(p, mm, addr, seen);
      } else {
        ret, wrote := ScanPage(p, mm, addr, seen);
      }
      if !exclusive {
        LoopStep(fast, st, table, addr, end);
      }
      if wrote && !anyWrote {
        anyWrote, flushStart := true, addr;
      }
      if ret == 0 {
        addr := addr + 1;
      }
    }
    flushEnd := if anyWrote then addr else flushStart;
    if ret == 0 && !exclusive {
      LoopEnds(fast, p.State(), mm.table, end);
    }
  }

  /** The pages are PTEs of the VMA, or in a range of it without page tables. */
  ghost predicate SmallPages(seen: Table, start: nat, end: nat, vma: Vma)
    requires start < end <= |seen|
  {
    if seen[start].Hole? then forall i :: start <= i < end ==> seen[i] == Hole(vma)
    else forall i :: start <= i < end ==> seen[i].Pte? && seen[i].vma == vma
  }

  lemma SplitsIntoSmallPages(from: Table, to: Table, start: nat, end: nat)
    requires SplitAt(from, to, start) && start < end <= |to| && end <= Base(start) + HPAGE_NR
    ensures SmallPages(to, start, end, from[start].vma)
  {
  }

  lemma PiecesOfPtes(table: Table, seen: Table, start: nat, end: nat)
    requires |table| == |seen| && start < end <= |seen| && Piece(table, start, end, end) && table[start].Pte?
    requires forall i :: start <= i < |seen| ==> table[i] == seen[i]
    ensures SmallPages(seen, start, end, table[start].vma)
  {
  }

  /** The huge page at `start` is split and the report of its part up to `next` taken back. */
  method SplitAndBackOut(p: ScanPrivate, mm: Mm, ghost st: ScanState, ghost categories: Categories,
                         start: nat, next: nat, ghost end: nat, ghost seen0: Table) returns (ghost seen: Table)
    requires Progress(st, mm.table, seen0, start) && st.Ready() && p.Allocated() && p.arg == st.arg
    requires HugeAligned(seen0) && AtBoundary(st.arg, seen0, start) && start < end <= |seen0| <= ULONG_MAX
    requires seen0[start].Pmd? && mm.table[start] == seen0[start]
    requires Selected(st.arg, seen0[start]) && Reported(st.arg, seen0[start]) == categories * st.arg.returnMask
    requires st.arg.wpMatching && IsWritten(seen0[start])
    requires From(st.arg, start) == start && end == To(st.arg, start) && next != start + HPAGE_NR
    requires st.Output(categories, start, end).2 == next > start && p.State() == st.Output(categories, start, end).0
    modifies p`foundPages, p`backedOut, p.vecBuf, mm
    ensures At(p, mm, seen, start) && SplitOf(p.arg, seen0, seen) && HugeAligned(seen) && |seen| == |seen0|
    ensures SmallPages(seen, start, end, seen0[start].vma) && SameBelow(p.arg, seen0, seen, start)
    ensures SplitsExactly(p.arg, seen0, seen, start, start) && SplitsBelow(p.arg, seen0, seen, end)
    ensures LastClamp(p.arg, seen0, seen, start, end, st.walkEnd) == p.walkEnd
    ensures old(p.backedOut) ==> p.backedOut
    ensures p.vecBuf != null ==> p.backedOut
  {
    hide Progress, HugeAligned, SplitOf, SplitsExactly, LastClamp, Selected, Reported, IsWritten;
    ghost var table := mm.table;
    Ahead(st, table, seen0, start);
    mm.SplitHugePmd(start);
    seen := seq(|seen0|, i requires 0 <= i < |seen0| =>
                  if InBlock(i, Base(start)) then SplitSlot(seen0[start]) else seen0[i]);
    BackoutProgress(st, categories, table, mm.table, seen0, seen, start, end);
    BeforeTheBlock(p.arg, seen0, seen, start);
    SplitStaysAligned(seen0, seen, start);
    SplitOnce(p.arg, seen0, seen, start);
    SplitsIntoSmallPages(seen0, seen, start, end);
    CutLeavesItsMark(st, categories, table, seen0, start, end);
    SplitFacts(p.arg, seen0, seen, start, end, st.walkEnd);
    p.BackoutRange(start, next);
  }

  /** A page-middle-directory entry that is huge: reported as a whole, or in part, or split
      (and then left to the PTE loops, with ENOENT) because only part of it is reported but
      it has to be protected. */
  method ThpEntry(p: ScanPrivate, mm: Mm, start: nat, end: nat, ghost seen0: Table)
    returns (ret: int, ghost seen: Table, ghost pos: nat)
    requires At(p, mm, seen0, start) && HugeAligned(seen0) && AtBoundary(p.arg, seen0, start)
    requires start < end <= |seen0| && Piece(mm.table, start, end, end)
    requires mm.table[start].Pmd? || mm.table[start].Pte?
    requires Entered(p, mm.table[start].vma) && (mm.table[start].Pmd? ==> end == To(p.arg, start))
    modifies p`vecBufIndex, p`foundPages, p`walkEnd, p`backedOut, p.vecBuf, mm
    ensures SplitOf(p.arg, seen0, seen) && HugeAligned(seen) && SameBelow(p.arg, seen0, seen, start)
    ensures ret == -ENOENT ==>
              && pos == start && At(p, mm, seen, start)
              && SmallPages(seen, start, end, old(mm.table)[start].vma)
    ensures ret != -ENOENT ==> Stepped(p, mm, seen, ret, start, pos, end)
    ensures SplitsExactly(p.arg, seen0, seen, start, if ret == -ENOENT then start else pos)
    ensures ret != -ENOSPC ==> Marks(p, seen0, seen, start, end, old(p.walkEnd))
    ensures (old(p.backedOut) ==> p.backedOut) && (seen == seen0 || p.vecBuf == null || p.backedOut)
  {
    hide Progress, Blocked, IsInterestingPage, ThpCategory, VmaCategory, HugeAligned, TestWalk, Selected, IsWritten;
    hide SplitsExactly, SplitsBelow, LastClamp, Cut, From, To, AtBoundary, SplitOf, Protect, ProtectPmd, SmallPages;
    assert SplitOf(p.arg, seen0, seen0) && SplitsBelow(p.arg, seen0, seen0, end) by { Unsplit(p.arg, seen0, end); }
    ghost var st, table := p.State(), mm.table;
    Ahead(st, table, seen0, start);
    seen, pos := seen0, start;
    var slot := mm.table[start];
    Unclamped(p.arg, seen0, start, end, p.walkEnd);
    if !slot.Pmd? {
      NothingSplit(p.arg, seen0, start, start);
      PiecesOfPtes(mm.table, seen0, start, end);
      return -ENOENT, seen0, start;
    }
    var categories := p.curVmaCategory + ThpCategory(p.arg.MasksOfInterest(), slot.leaf);
    assert categories == LazyCategories(p.arg, slot);
    if !IsInterestingPage(categories, p.arg) {
      ThpSkipped(st, table, seen0, start, end);
      ThpUnselected(p.arg, slot);
      BlockNotSplit(p.arg, seen0, start, end);
      return 0, seen0, end;
    }
    var next;
    ret, next := p.Output(categories, start, end);
    pos := next;
    var write := p.arg.wpMatching && Written in categories;
    ThpSelected(p.arg, slot);
    if next == start || !write {
      ThpReported(st, table, table, seen0, start, end);
      if next == start {
        NothingSplit(p.arg, seen0, start, start);
      } else {
        BlockNotSplit(p.arg, seen0, start, next);
      }
      return;
    }
    BlockStart(p.arg, seen0, start);
    if next != start + HPAGE_NR {
      seen := SplitAndBackOut(p, mm, st, categories, start, next, end, seen0);
      return -ENOENT, seen, start;
    }
    OutputCuts(st, categories, table, seen0, start, end);
    BlockNotSplit(p.arg, seen0, start, next);
    mm.MakeUffdWpPmd(start);
    ThpReported(st, table, mm.table, seen0, start, end);
  }

  /** One page-middle-directory entry that is not empty. If the entry is gone after a split, the
      walker is asked to look at it `again`. */
  method PmdEntry(p: ScanPrivate, mm: Mm, start: nat, end: nat, ghost seen0: Table)
    returns (ret: int, again: bool, ghost seen: Table, ghost pos: nat)
    requires At(p, mm, seen0, start) && HugeAligned(seen0) && AtBoundary(p.arg, seen0, start)
    requires start < end <= |seen0| && Piece(mm.table, start, end, end)
    requires mm.table[start].Pmd? || mm.table[start].Pte?
    requires Entered(p, mm.table[start].vma) && (mm.table[start].Pmd? ==> end == To(p.arg, start))
    modifies p`vecBufIndex, p`foundPages, p`walkEnd, p`backedOut, p.vecBuf, mm
    ensures SplitOf(p.arg, seen0, seen) && HugeAligned(seen) && SameBelow(p.arg, seen0, seen, start)
    ensures !again ==> Stepped(p, mm, seen, ret, start, pos, end)
    ensures again ==>
              && ret == 0 && At(p, mm, seen, start)
              && (forall i :: start <= i < end ==> seen[i] == Hole(old(mm.table)[start].vma))
    ensures SplitsExactly(p.arg, seen0, seen, start, if again then start else pos)
    ensures ret == 0 ==> Marks(p, seen0, seen, start, end, old(p.walkEnd))
    ensures (old(p.backedOut) ==> p.backedOut) && (seen == seen0 || p.vecBuf == null || p.backedOut)
  {
    hide Progress, Blocked, Piece, HugeAligned, SplitOf, SplitsExactly, SplitsBelow, LastClamp, Loop;
    hide From, To, TestWalk, VmaCategory, AtBoundary;
    Ahead(p.State(), mm.table, seen0, start);
    again := false;
    ret, seen, pos := ThpEntry(p, mm, start, end, seen0);
    if ret != -ENOENT {
      return;
    }
    Ahead(p.State(), mm.table, seen, start);
    if mm.table[start].Hole? {
      return 0, true, seen, start;
    }
    var flushStart, flushEnd;
    ret, flushStart, flushEnd := ScanPtes(p, mm, start, end, seen);
    pos := if ret == 0 then end else p.walkEnd;
    SmallNotSplit(p.arg, seen0, seen, start, pos, end);
  }

  /** A range without page tables; `mapped` tells whether it lies in a VMA. */
  method PteHole(p: ScanPrivate, mm: Mm, addr: nat, end: nat, mapped: bool, ghost seen: Table)
    returns (ret: int, ghost pos: nat)
    requires At(p, mm, seen, addr) && addr < end <= |seen| && Piece(mm.table, addr, end, end)
    requires mm.table[addr].Unmapped? || mm.table[addr].Hole?
    requires mapped == mm.table[addr].Hole? && (mapped ==> Entered(p, mm.table[addr].vma))
    modifies p`vecBufIndex, p`foundPages, p`walkEnd, p.vecBuf, mm
    ensures Stepped(p, mm, seen, ret, addr, pos, end)
    ensures ret == 0 ==> p.walkEnd == old(p.walkEnd)
  {
    hide Progress, Blocked, IsInterestingPage, VmaCategory;
    ghost var st, table := p.State(), mm.table;
    Ahead(st, table, seen, addr);
    if !mapped {
      PieceSkipped(st, table, seen, addr, end);
      return 0, end;
    }
    if !IsInterestingPage(p.curVmaCategory, p.arg) {
      HoleSkipped(st, table, seen, addr, end);
      return 0, end;
    }
    var next;
    ret, next := p.Output(p.curVmaCategory, addr, end);
    pos := next;
    if addr == next || !p.arg.wpMatching {
      HoleReported(st, table, table, seen, addr, end);
      return;
    }
    mm.UffdWpRange(addr, next);
    HoleReported(st, table, mm.table, seen, addr, end);
  }

  /** Enter a VMA, skip it (1), or fail. */
  method EnterVma(p: ScanPrivate, vma: Vma) returns (ret: int)
    modifies p`curVmaCategory
    ensures ret == TestWalk(p.arg, vma) && (ret == 0 ==> Entered(p, vma))
  {
    var vmaCategory: Categories := {};
    if !vma.wpAllowed {
      if p.arg.checkWpAsync {
        return -EPERM;
      }
      if p.arg.wpMatching {
        return 1;
      }
    }
    if vma.pfnmap {
      return 1;
    }
    if vma.wpAllowed {
      vmaCategory := vmaCategory + {WpAllowed};
    }
    if vma.softDirty {
      vmaCategory := vmaCategory + {SoftDirty};
    }
    assert vmaCategory == VmaCategory(vma);
    if !IsInterestingVma(vmaCategory, p.arg) {
      return 1;
    }
    p.curVmaCategory := vmaCategory;
    return 0;
  }

  /** The walk: pieces in address order, cut in any way the page table allows, up to the
      first one that returns an error. */
  method WalkPageRange(p: ScanPrivate, mm: Mm, walkStart: nat, end: nat, ghost seen0: Table)
    returns (ret: int, ghost seen: Table, ghost pos: nat)
    requires At(p, mm, seen0, walkStart) && HugeAligned(seen0) && AtBoundary(p.arg, seen0, walkStart)
    requires walkStart < end == p.arg.end <= |seen0|
    modifies p`vecBufIndex, p`foundPages, p`walkEnd, p`backedOut, p`curVmaCategory, p.vecBuf, mm
    ensures SplitOf(p.arg, seen0, seen) && HugeAligned(seen) && SameBelow(p.arg, seen0, seen, walkStart)
    ensures ret == 0 || ret == -ENOSPC ==> Stepped(p, mm, seen, ret, walkStart, pos, end)
    ensures ret != 0 && ret != -ENOSPC ==>
              && ret == -EPERM && walkStart <= pos < end && At(p, mm, seen, pos)
              && !Passable(p.arg, seen[pos])
    ensures AllPassable(p.arg, seen, walkStart, pos)
    ensures SplitsExactly(p.arg, seen0, seen, walkStart, pos)
    ensures ret == 0 ==> Marks(p, seen0, seen, walkStart, end, old(p.walkEnd))
    ensures (old(p.backedOut) ==> p.backedOut) && (seen == seen0 || p.vecBuf == null || p.backedOut)
  {
    hide Progress, Blocked;
    var addr := walkStart;
    ret, seen, pos := 0, seen0, walkStart;
    Ahead(p.State(), mm.table, seen, addr);
    Unsplit(p.arg, seen, addr);
    NothingSplit(p.arg, seen, addr, addr);
    Unclamped(p.arg, seen, addr, addr, p.walkEnd);
    assert SplitOf(p.arg, seen0, seen);
    hide HugeAligned, SplitOf, SplitsExactly, SplitsBelow, LastClamp, AtBoundary, Piece, Passable, From, To;
    while addr < end
      invariant walkStart <= addr <= end <= |seen| == |seen0|
      invariant ret == 0 && pos == addr && At(p, mm, seen, addr)
      invariant HugeAligned(seen) && SplitOf(p.arg, seen0, seen) && SameBelow(p.arg, seen0, seen, walkStart)
      invariant AllPassable(p.arg, seen, walkStart, addr)
      invariant addr < end ==> AtBoundary(p.arg, seen, addr)
      invariant p.arg.start <= walkStart && SplitsExactly(p.arg, seen0, seen, walkStart, addr)
      invariant Marks(p, seen0, seen, walkStart, addr, old(p.walkEnd))
      invariant (old(p.backedOut) ==> p.backedOut) && (seen == seen0 || p.vecBuf == null || p.backedOut)
    {
      Ahead(p.State(), mm.table, seen, addr);
      PieceExists(mm.table, seen, addr, end);
      var next :| addr < next <= end && Piece(mm.table, addr, next, end);
      ghost var seen1, marked := seen, p.walkEnd;
      ret, seen, pos := WalkPiece(p, mm, addr, next, end, seen);
      SplitTransitive(p.arg, seen0, seen1, seen);
      SplitsOn(p.arg, seen0, seen1, seen, walkStart, addr, pos);
      SplitStaysPassable(p.arg, seen1, seen, walkStart, addr);
      if ret != 0 {
        return;
      }
      MarksOn(p, seen0, seen1, seen, walkStart, addr, next, old(p.walkEnd), marked);
      addr := next;
    }
  }

  /** The walker at a page-middle-directory entry: if it is asked to look again it finds nothing
      there, and treats the range as a hole. */
  method WalkPmd(p: ScanPrivate, mm: Mm, start: nat, end: nat, ghost seen0: Table)
    returns (ret: int, ghost seen: Table, ghost pos: nat)
    requires At(p, mm, seen0, start) && HugeAligned(seen0) && AtBoundary(p.arg, seen0, start)
    requires start < end <= |seen0| && Piece(mm.table, start, end, end)
    requires mm.table[start].Pmd? || mm.table[start].Pte?
    requires Entered(p, mm.table[start].vma) && (mm.table[start].Pmd? ==> end == To(p.arg, start))
    modifies p`vecBufIndex, p`foundPages, p`walkEnd, p`backedOut, p.vecBuf, mm
    ensures SplitOf(p.arg, seen0, seen) && HugeAligned(seen) && SameBelow(p.arg, seen0, seen, start)
    ensures Stepped(p, mm, seen, ret, start, pos, end)
    ensures SplitsExactly(p.arg, seen0, seen, start, pos)
    ensures ret == 0 ==> Marks(p, seen0, seen, start, end, old(p.walkEnd))
    ensures (old(p.backedOut) ==> p.backedOut) && (seen == seen0 || p.vecBuf == null || p.backedOut)
  {
    hide Progress, Blocked, Piece, HugeAligned, SplitOf, SplitsExactly, SplitsBelow, LastClamp;
    hide From, To, TestWalk, VmaCategory, AtBoundary;
    Ahead(p.State(), mm.table, seen0, start);
    var vma := mm.table[start].vma;
    var again;
    ret, again, seen, pos := PmdEntry(p, mm, start, end, seen0);
    if again {
      Ahead(p.State(), mm.table, seen, start);
      HolePiece(mm.table, seen, start, end, vma);
      ret, pos := PteHole(p, mm, start, end, true, seen);
      SmallNotSplit(p.arg, seen0, seen, start, pos, end);
    }
  }

  /** One piece of the walk. */
  method WalkPiece(p: ScanPrivate, mm: Mm, addr: nat, next: nat, end: nat, ghost seen0: Table)
    returns (ret: int, ghost seen: Table, ghost pos: nat)
    requires At(p, mm, seen0, addr) && HugeAligned(seen0) && AtBoundary(p.arg, seen0, addr)
    requires addr < next <= end == p.arg.end <= |seen0| && Piece(mm.table, addr, next, end)
    modifies p`vecBufIndex, p`foundPages, p`walkEnd, p`backedOut, p`curVmaCategory, p.vecBuf, mm
    ensures SplitOf(p.arg, seen0, seen) && HugeAligned(seen) && SameBelow(p.arg, seen0, seen, addr)
    ensures ret == 0 || ret == -ENOSPC ==> Stepped(p, mm, seen, ret, addr, pos, next)
    ensures ret == 0 && next < end ==> AtBoundary(p.arg, seen, next)
    ensures ret != 0 && ret != -ENOSPC ==>
              && ret == -EPERM && pos == addr && At(p, mm, seen, pos)
              && !Passable(p.arg, seen[pos])
    ensures AllPassable(p.arg, seen, addr, pos)
    ensures SplitsExactly(p.arg, seen0, seen, addr, pos)
    ensures ret == 0 ==> Marks(p, seen0, seen, addr, next, old(p.walkEnd))
    ensures (old(p.backedOut) ==> p.backedOut) && (seen == seen0 || p.vecBuf == null || p.backedOut)
  {
    hide Progress, Blocked, SplitsExactly, SplitsBelow, LastClamp, Piece, AllPassable, HugeAligned, SplitOf, AtBoundary;
    hide VmaCategory, IsInterestingVma, From, To;
    Ahead(p.State(), mm.table, seen0, addr);
    PieceFacts(p.arg, mm.table, seen0, addr, next, end);
    Unsplit(p.arg, seen0, next);
    if !seen0[addr].Pmd? || TestWalk(p.arg, seen0[addr].vma) != 0 {
      PieceNotSplit(p.arg, seen0, addr, next, end);
    }
    NothingSplit(p.arg, seen0, addr, addr);
    Unclamped(p.arg, seen0, addr, next, p.walkEnd);
    BoundaryAfter(p.arg, mm.table, seen0, addr, next, end);
    var slot := mm.table[addr];
    seen, pos := seen0, next;
    if slot.Unmapped? {
      ret, pos := PteHole(p, mm, addr, next, false, seen);
      return;
    }
    ret := EnterVma(p, slot.vma);
    if ret < 0 {
      pos := addr;
      NothingPassed(p.arg, seen0, addr);
      return;
    }
    if ret > 0 {
      PieceSkipped(p.State(), mm.table, seen, addr, next);
      return 0, seen, next;
    }
    if slot.Hole? {
      ret, pos := PteHole(p, mm, addr, next, true, seen);
    } else {
      ret, seen, pos := WalkPmd(p, mm, addr, next, seen0);
      SplitStaysPassable(p.arg, seen0, seen, addr, pos);
      if next < end {
        SplitKeepsBoundary(p.arg, seen0, seen, next);
      }
    }
  }

  lemma HolePiece(table: Table, seen: Table, addr: nat, next: nat, vma: Vma)
    requires |table| == |seen| && addr < next <= |seen|
    requires forall i :: addr <= i < |seen| ==> table[i] == seen[i]
    requires forall i :: addr <= i < next ==> seen[i] == Hole(vma)
    ensures Piece(table, addr, next, next)
  {
  }

  lemma NothingPassed(arg: ScanArg, t: Table, addr: nat)
    requires addr <= |t|
    ensures AllPassable(arg, t, addr, addr)
  {
  }

  /** What the pages of a piece have in common. */
  lemma PieceFacts(arg: ScanArg, table: Table, seen: Table, addr: nat, next: nat, end: nat)
    requires |table| == |seen| && addr < next <= end == arg.end <= |seen| && Piece(table, addr, next, end)
    requires forall i :: addr <= i < |seen| ==> table[i] == seen[i]
    ensures Piece(table, addr, next, next) && Piece(seen, addr, next, end)
    ensures table[addr].Pmd? ==> next == To(arg, addr)
    ensures !seen[addr].Unmapped? && TestWalk(arg, seen[addr].vma) != 0 ==>
              forall i :: addr <= i < next ==> seen[i].Unmapped? || TestWalk(arg, seen[i].vma) != 0
    ensures Passable(arg, seen[addr]) ==> forall pos :: addr <= pos <= next ==> AllPassable(arg, seen, addr, pos)
  {
    hide TestWalk;
  }

  lemma BoundaryAfter(arg: ScanArg, table: Table, seen: Table, addr: nat, next: nat, end: nat)
    requires HugeAligned(seen) && |table| == |seen| && addr < next <= end <= |seen|
    requires forall i :: addr <= i < |seen| ==> table[i] == seen[i]
    requires Piece(table, addr, next, end)
    ensures next < end ==> AtBoundary(arg, seen, next)
  {
    if next < end {
      assert Piece(seen, addr, next, end);
      PieceEndsAtBoundary(arg, seen, addr, next, end);
    }
  }

  lemma SplitKeepsBoundary(arg: ScanArg, from: Table, to: Table, pos: nat)
    requires SplitOf(arg, from, to) && AtBoundary(arg, from, pos)
    ensures AtBoundary(arg, to, pos)
  {
  }
}
