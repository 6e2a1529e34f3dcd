/** Which huge pages a scan splits, and what that does to its results. A huge page that is to
    be protected is split if and only if it is `Cut`: by the range, or by `max_pages`. Splitting
    takes the HUGE category away, and in a file mapping all categories but those of the VMA; a
    request may lose matches by that, and `SplitKeepsMatches` says exactly when. */
module ScanSplit {
  import opened Kernel
  import opened ScanTypes
  import opened Regions
  import opened ScanBuffer
  import opened ScanSpec

  /** The part `From .. To` of the huge page around `page` that lies in the range. */
  function From(arg: ScanArg, page: nat): nat {
    if Base(page) < arg.start then arg.start else Base(page)
  }

  function To(arg: ScanArg, page: nat): nat {
    if Base(page) + HPAGE_NR < arg.end then Base(page) + HPAGE_NR else arg.end
  }

  /** The number of pages reported before the huge page. */
  ghost function ReportedBefore(arg: ScanArg, t: Table, page: nat): nat
    requires page <= |t| && arg.start <= |t|
  {
    |Matches(arg, t, arg.start, From(arg, page))|
  }

  /** Reporting the huge page would exceed `max_pages`. */
  ghost predicate Overflows(arg: ScanArg, t: Table, page: nat)
    requires page <= |t| && arg.start <= |t|
  {
    arg.vecLen > 0 && ReportedBefore(arg, t, page) + To(arg, page) > arg.maxPages + From(arg, page)
  }

  /** Only a part of the huge page can be reported. */
  ghost predicate Cut(arg: ScanArg, t: Table, page: nat)
    requires page <= |t| && arg.start <= |t|
  {
    To(arg, page) < From(arg, page) + HPAGE_NR || Overflows(arg, t, page)
  }

  /** Exactly the huge pages among `lo .. pos` that are to be protected and are cut have been
      split, and none beyond the one at `pos`. */
  ghost predicate SplitsExactly(arg: ScanArg, from: Table, to: Table, lo: nat, pos: nat)
    requires arg.start <= |to|
  {
    && |from| == |to|
    && (forall i :: 0 <= i < |to| && to[i] != from[i] ==> From(arg, i) <= pos && Cut(arg, to, i))
    && (forall i :: lo <= i < pos && i < |to| && ToProtect(arg, from[i]) && to[i] == from[i] ==> !Cut(arg, to, i))
  }

  ghost predicate SplitsBelow(arg: ScanArg, from: Table, to: Table, pos: nat) {
    |from| == |to| && forall i :: 0 <= i < |to| && to[i] != from[i] ==> From(arg, i) < pos
  }

  lemma CutAgrees(arg: ScanArg, a: Table, b: Table, page: nat)
    requires |a| == |b| && page <= |a| && arg.start <= |a| && SameBelow(arg, a, b, From(arg, page))
    ensures ReportedBefore(arg, a, page) == ReportedBefore(arg, b, page)
    ensures Cut(arg, a, page) <==> Cut(arg, b, page)
    ensures Overflows(arg, a, page) <==> Overflows(arg, b, page)
  {
    MatchesAgree(arg, a, b, arg.start, From(arg, page));
  }

  /** A walk on after another. */
  lemma SplitsOn(arg: ScanArg, a: Table, b: Table, c: Table, lo: nat, mid: nat, pos: nat)
    requires SplitOf(arg, a, b) && SplitOf(arg, b, c) && SameBelow(arg, b, c, mid)
    requires arg.start <= lo <= mid <= pos <= |c|
    requires SplitsExactly(arg, a, b, lo, mid) && SplitsExactly(arg, b, c, mid, pos)
    ensures SplitsExactly(arg, a, c, lo, pos)
  {
    hide Selected, IsWritten, Cut;
    forall i | 0 <= i < |c| && c[i] != a[i]
      ensures From(arg, i) <= pos && Cut(arg, c, i)
    {
      if b[i] != a[i] {
        CutAgrees(arg, b, c, i);
      }
    }
    forall i | lo <= i < pos && i < |c| && ToProtect(arg, a[i]) && c[i] == a[i]
      ensures !Cut(arg, c, i)
    {
      assert b[i] == a[i];
      if i < mid {
        assert From(arg, i) <= mid;
        CutAgrees(arg, b, c, i);
      }
    }
  }

  /** A part of the walk in which nothing is split, and rightly so. */
  lemma NothingSplit(arg: ScanArg, t: Table, lo: nat, pos: nat)
    requires arg.start <= |t|
    requires forall i :: lo <= i < pos && i < |t| ==> !ToProtect(arg, t[i]) || !Cut(arg, t, i)
    ensures SplitsExactly(arg, t, t, lo, pos)
  {
  }

  /** Pages of one huge page that is not to be protected, or not cut. */
  lemma BlockNotSplit(arg: ScanArg, t: Table, start: nat, pos: nat)
    requires start < |t| && arg.start <= |t| && pos <= Base(start) + HPAGE_NR
    requires forall i :: start <= i < pos && i < |t| ==> t[i] == t[start]
    requires !ToProtect(arg, t[start]) || !Cut(arg, t, start)
    ensures SplitsExactly(arg, t, t, start, pos)
  {
    hide Cut, ToProtect;
    forall i | start <= i < pos && i < |t|
      ensures !ToProtect(arg, t[i]) || !Cut(arg, t, i)
    {
      SameCut(arg, t, start, i);
    }
  }

  /** A piece that is not huge, or is skipped with its VMA, is not split. */
  lemma PieceNotSplit(arg: ScanArg, t: Table, addr: nat, next: nat, end: nat)
    requires arg.start <= |t| && Piece(t, addr, next, end)
    requires !t[addr].Pmd? || TestWalk(arg, t[addr].vma) != 0
    ensures forall pos :: addr <= pos <= next ==> SplitsExactly(arg, t, t, addr, pos)
  {
    hide Cut, Selected, TestWalk;
    forall i | addr <= i < next
      ensures !ToProtect(arg, t[i])
    {
      if ToProtect(arg, t[i]) {
        VmaFilterDropsNothing(arg, t[i]);
      }
    }
    forall pos | addr <= pos <= next
      ensures SplitsExactly(arg, t, t, addr, pos)
    {
      NothingSplit(arg, t, addr, pos);
    }
  }

  lemma Unsplit(arg: ScanArg, t: Table, pos: nat)
    ensures SplitOf(arg, t, t) && SplitsBelow(arg, t, t, pos)
  {
  }

  /** What is not huge is not split. */
  lemma SmallNotSplit(arg: ScanArg, from: Table, to: Table, start: nat, pos: nat, end: nat)
    requires arg.start <= |to| && start <= pos <= end <= |to|
    requires SplitsExactly(arg, from, to, start, start) && forall i :: start <= i < end ==> !to[i].Pmd?
    ensures SplitsExactly(arg, from, to, start, pos)
  {
    hide Cut, Selected;
  }

  lemma SameBlockAs(arg: ScanArg, start: nat, i: nat)
    requires InBlock(i, Base(start))
    ensures From(arg, i) == From(arg, start) && To(arg, i) == To(arg, start)
  {
  }

  lemma SameCut(arg: ScanArg, t: Table, start: nat, i: nat)
    requires InBlock(i, Base(start)) && start <= |t| && i <= |t| && arg.start <= |t|
    ensures Cut(arg, t, i) <==> Cut(arg, t, start)
  {
    SameBlockAs(arg, start, i);
  }

  /** The end of the report of a huge page that is not wholly left out tells whether it is cut,
      and whether `max_pages` cut it. */
  lemma OutputCuts(st: ScanState, categories: Categories, table: Table, seen: Table, start: nat, end: nat)
    requires Progress(st, table, seen, start) && st.Ready() && start < end <= |seen| <= ULONG_MAX
    requires From(st.arg, start) == start && end == To(st.arg, start)
    requires st.Output(categories, start, end).2 > start
    ensures var next := st.Output(categories, start, end).2;
      && (Cut(st.arg, seen, start) <==> next != start + HPAGE_NR)
      && (Overflows(st.arg, seen, start) <==> next != end)
      && (next != end ==> ReportedBefore(st.arg, seen, start) <= st.arg.maxPages
                          && next == ClampOf(st.arg, seen, start))
  {
    hide Expand, Matches, AddOverflow, SubWrap;
    if st.HasBuffer() {
      assert st.found == ReportedBefore(st.arg, seen, start);
    }
  }

  // ---- walk_end ----

  /** What a report cut by `max_pages` leaves in `walk_end`. */
  ghost function ClampOf(arg: ScanArg, t: Table, page: nat): nat
    requires page <= |t| && arg.start <= |t|
  {
    var n := ReportedBefore(arg, t, page);
    if n <= arg.maxPages then From(arg, page) + (arg.maxPages - n) else 0
  }

  /** A walk from `from` to `to` has backed out the huge page that begins at `b`, after
      `max_pages` had cut its report. */
  ghost predicate Clamped(arg: ScanArg, from: Table, to: Table, b: nat)
    requires b < |from| == |to| && arg.start <= |to|
  {
    from[b].Pmd? && !to[b].Pmd? && b == From(arg, b) && Overflows(arg, to, b)
  }

  /** `walk_end` after a walk of `lo .. hi` that has reached `hi`, if it was `otherwise` before:
      back-outs leave their mark in it. */
  ghost function LastClamp(arg: ScanArg, from: Table, to: Table, lo: nat, hi: nat, otherwise: nat): nat
    requires hi <= |from| == |to| && arg.start <= |to|
  {
    if hi <= lo then otherwise
    else if Clamped(arg, from, to, hi - 1) then ClampOf(arg, to, hi - 1)
    else LastClamp(arg, from, to, lo, hi - 1, otherwise)
  }

  lemma {:induction false} NoClamp(arg: ScanArg, from: Table, to: Table, lo: nat, hi: nat, otherwise: nat)
    requires hi <= |from| == |to| && arg.start <= |to|
    requires forall b :: lo <= b < hi ==> !Clamped(arg, from, to, b)
    ensures LastClamp(arg, from, to, lo, hi, otherwise) == otherwise
  {
    hide Clamped;
    if lo < hi {
      NoClamp(arg, from, to, lo, hi - 1, otherwise);
    }
  }

  lemma Unclamped(arg: ScanArg, t: Table, lo: nat, hi: nat, otherwise: nat)
    requires hi <= |t| && arg.start <= |t|
    ensures LastClamp(arg, t, t, lo, hi, otherwise) == otherwise
  {
    NoClamp(arg, t, t, lo, hi, otherwise);
  }

  /** Of one huge page only its first page in the range can carry the mark. */
  lemma {:induction false} OneClamp(arg: ScanArg, from: Table, to: Table, start: nat, end: nat, otherwise: nat)
    requires start < end <= |from| == |to| && arg.start <= |to|
    requires From(arg, start) == start && end <= Base(start) + HPAGE_NR
    ensures LastClamp(arg, from, to, start, end, otherwise)
         == if Clamped(arg, from, to, start) then ClampOf(arg, to, start) else otherwise
  {
    hide ClampOf, Overflows;
    if start + 1 < end {
      assert Base(end - 1) == Base(start);
      SameBlockAs(arg, start, end - 1);
      OneClamp(arg, from, to, start, end - 1, otherwise);
    }
  }

  lemma ClampAgrees(arg: ScanArg, a: Table, a2: Table, b: Table, c: Table, page: nat)
    requires |a| == |a2| == |b| == |c| && page < |a| && arg.start <= page && SameBelow(arg, b, c, page)
    requires a[page].Pmd? && !b[page].Pmd? <==> a2[page].Pmd? && !c[page].Pmd?
    ensures Clamped(arg, a, b, page) <==> Clamped(arg, a2, c, page)
    ensures page == From(arg, page) ==> ClampOf(arg, b, page) == ClampOf(arg, c, page)
  {
    if page == From(arg, page) {
      CutAgrees(arg, b, c, page);
    }
  }

  lemma {:induction false} ClampsSame(arg: ScanArg, a: Table, b: Table, c: Table, lo: nat, hi: nat, otherwise: nat)
    requires |a| == |b| == |c| && arg.start <= lo && hi <= |a| && arg.start <= |a| && SameBelow(arg, b, c, hi)
    ensures LastClamp(arg, a, c, lo, hi, otherwise) == LastClamp(arg, a, b, lo, hi, otherwise)
  {
    hide ClampOf, Overflows;
    if lo < hi {
      ClampAgrees(arg, a, a, b, c, hi - 1);
      ClampsSame(arg, a, b, c, lo, hi - 1, otherwise);
    }
  }

  /** A walk on after another. */
  lemma {:induction false} ClampsOn(arg: ScanArg, a: Table, b: Table, c: Table, lo: nat, mid: nat, hi: nat,
                                    otherwise: nat)
    requires arg.start <= lo <= mid <= hi <= |a| == |b| == |c|
    requires SameBelow(arg, b, c, mid) && SplitsBelow(arg, a, b, mid)
    ensures LastClamp(arg, a, c, lo, hi, otherwise)
         == LastClamp(arg, b, c, mid, hi, LastClamp(arg, a, b, lo, mid, otherwise))
  {
    hide ClampOf, Overflows;
    if hi == mid {
      ClampsSame(arg, a, b, c, lo, mid, otherwise);
    } else {
      ClampsOn(arg, a, b, c, lo, mid, hi - 1, otherwise);
      assert hi - 1 == From(arg, hi - 1) ==> a[hi - 1] == b[hi - 1];
      assert Clamped(arg, a, c, hi - 1) <==> Clamped(arg, b, c, hi - 1);
    }
  }

  /** A huge entry is met at the first page of it that is in the range. */
  lemma BlockStart(arg: ScanArg, t: Table, start: nat)
    requires start < |t| && t[start].Pmd? && arg.start <= start && AtBoundary(arg, t, start)
    ensures From(arg, start) == start
  {
  }

  lemma ThpUnselected(arg: ScanArg, slot: Slot)
    requires slot.Pmd? && !IsInterestingPage(LazyCategories(arg, slot), arg)
    ensures !ToProtect(arg, slot)
  {
    hide IsInterestingPage, LazyCategories, CategoriesOf;
    LazyFile(arg, slot);
  }

  /** The output of part of a huge page leaves its mark in `walk_end` if `max_pages` cut it. */
  lemma CutLeavesItsMark(st: ScanState, categories: Categories, table: Table, seen: Table, start: nat, end: nat)
    requires Progress(st, table, seen, start) && st.Ready() && start < end <= |seen| <= ULONG_MAX
    requires From(st.arg, start) == start && end == To(st.arg, start)
    requires start < st.Output(categories, start, end).2 != start + HPAGE_NR
    ensures Cut(st.arg, seen, start)
    ensures st.Output(categories, start, end).0.walkEnd
         == if Overflows(st.arg, seen, start) then ClampOf(st.arg, seen, start) else st.walkEnd
  {
    hide Overflows, ClampOf, Cut, From, To, Expand, Matches;
    OutputCuts(st, categories, table, seen, start, end);
    st.OutputFrame(categories, start, end);
  }

  /** What splitting a huge page at `start` amounts to. */
  lemma SplitFacts(arg: ScanArg, from: Table, to: Table, start: nat, end: nat, walkEnd: nat)
    requires arg.start <= start < end <= |from| && SplitAt(from, to, start) && SameBelow(arg, from, to, start)
    requires From(arg, start) == start && end == To(arg, start) && Cut(arg, from, start)
    ensures SplitsExactly(arg, from, to, start, start) && SplitsBelow(arg, from, to, end)
    ensures LastClamp(arg, from, to, start, end, walkEnd)
         == if Overflows(arg, from, start) then ClampOf(arg, from, start) else walkEnd
  {
    hide Selected;
    CutAgrees(arg, from, to, start);
    forall i | 0 <= i < |to| && to[i] != from[i]
      ensures From(arg, i) == start && Cut(arg, to, i)
    {
      SameBlockAs(arg, start, i);
      SameCut(arg, to, start, i);
    }
    OneClamp(arg, from, to, start, end, walkEnd);
  }

  // ---- what splitting does to the list of matches ----

  /** The request selects and reports the pages of the huge page alike once it is split: it
      does not require or report HUGE, and does not rely on it among the categories of which
      one is enough; or, if the split unmaps the page, it is content with the categories of the
      VMA. */
  predicate KeptBySplit(arg: ScanArg, slot: Slot)
    requires slot.Pmd?
  {
    if slot.vma.file then
      IsInterestingPage(VmaCategory(slot.vma), arg)
      && (CategoriesOf(slot) - VmaCategory(slot.vma)) * arg.returnMask == {}
    else
      && Huge !in arg.mask && Huge !in arg.returnMask
      && (Huge in arg.anyOf && Huge !in arg.inverted ==>
            Xor(CategoriesOf(slot), arg.inverted) * (arg.anyOf - {Huge}) != {})
  }

  /** No huge page among `lo .. hi` that has to be split loses by it. */
  ghost predicate AllKept(arg: ScanArg, t: Table, lo: nat, hi: nat)
    requires hi <= |t| && arg.start <= |t|
  {
    forall page :: lo <= page < hi && ToProtect(arg, t[page]) && Cut(arg, t, page) ==> KeptBySplit(arg, t[page])
  }

  lemma SplitTakesHuge(slot: Slot)
    requires slot.Pmd? && IsWritten(slot)
    ensures CategoriesOf(SplitSlot(slot)) ==
              if slot.vma.file then VmaCategory(slot.vma) else CategoriesOf(slot) - {Huge}
    ensures Huge in CategoriesOf(slot) && VmaCategory(slot.vma) <= CategoriesOf(slot)
  {
  }

  /** The filter with and without one category. */
  lemma FilterWithout(arg: ScanArg, c: Categories)
    requires Huge in c && IsInterestingPage(c, arg)
    ensures IsInterestingPage(c - {Huge}, arg) <==>
              Huge !in arg.mask
              && (Huge in arg.anyOf && Huge !in arg.inverted ==> Xor(c, arg.inverted) * (arg.anyOf - {Huge}) != {})
  {
    var x, y := Xor(c, arg.inverted), Xor(c - {Huge}, arg.inverted);
    forall b | b != Huge
      ensures b in x <==> b in y
    {
    }
    assert Huge in x <==> Huge !in arg.inverted;
    assert Huge in y <==> Huge in arg.inverted;
    if Huge in arg.mask {
      assert Huge in x * arg.mask;
      assert Huge !in y * arg.mask;
    } else {
      assert y * arg.mask == x * arg.mask;
      FilterAnyOf(arg.anyOf, x, y);
    }
  }

  lemma FilterAnyOf(anyOf: Categories, x: Categories, y: Categories)
    requires forall b :: b != Huge ==> (b in x <==> b in y)
    requires Huge in x <==> Huge !in y
    requires anyOf == {} || x * anyOf != {}
    ensures (anyOf == {} || y * anyOf != {}) <==> (Huge in anyOf && Huge in x ==> x * (anyOf - {Huge}) != {})
  {
    assert x * (anyOf - {Huge}) == y * (anyOf - {Huge});
    if Huge in anyOf {
      assert x * anyOf == x * (anyOf - {Huge}) + (if Huge in x then {Huge} else {});
      assert y * anyOf == y * (anyOf - {Huge}) + (if Huge in y then {Huge} else {});
    } else {
      assert anyOf - {Huge} == anyOf;
    }
  }

  lemma ReportedAlike(arg: ScanArg, c: Categories, v: Categories)
    requires v <= c
    ensures v * arg.returnMask == c * arg.returnMask <==> (c - v) * arg.returnMask == {}
  {
    var x, y := v * arg.returnMask, (c - v) * arg.returnMask;
    assert c * arg.returnMask == x + y && x !! y;
    assert y == (x + y) - x;
  }

  /** Splitting keeps a match, with what is reported of it, if and only if the request does not
      depend on what the split takes away. */
  lemma KeptIff(arg: ScanArg, slot: Slot)
    requires slot.Pmd? && Selected(arg, slot) && IsWritten(slot)
    ensures Selected(arg, SplitSlot(slot)) && Reported(arg, SplitSlot(slot)) == Reported(arg, slot)
       <==> KeptBySplit(arg, slot)
  {
    var c := CategoriesOf(slot);
    SplitTakesHuge(slot);
    WrittenIsUnprotected(slot);
    if slot.vma.file {
      var v := VmaCategory(slot.vma);
      assert c == v + (c - v);
      assert c * arg.returnMask == v * arg.returnMask + (c - v) * arg.returnMask;
      ReportedAlike(arg, c, v);
    } else if arg.WrittenOnly() {
      WrittenOnlyFilter(arg, slot);
    } else {
      FilterWithout(arg, c);
      assert (c - {Huge}) * arg.returnMask == c * arg.returnMask <==> Huge !in arg.returnMask by {
        assert Huge in arg.returnMask ==> Huge in c * arg.returnMask && Huge !in (c - {Huge}) * arg.returnMask;
        assert Huge !in arg.returnMask ==> (c - {Huge}) * arg.returnMask == c * arg.returnMask;
      }
    }
  }

  /** Two lists of matches agree up to `hi` if and only if they agree before and at its last
      page. */
  lemma MatchesStep(arg: ScanArg, a: Table, b: Table, lo: nat, hi: nat)
    requires lo < hi <= |a| == |b|
    ensures Matches(arg, a, lo, hi) == Matches(arg, b, lo, hi)
       <==> Matches(arg, a, lo, hi - 1) == Matches(arg, b, lo, hi - 1)
            && (Selected(arg, a[hi - 1]) <==> Selected(arg, b[hi - 1]))
            && (Selected(arg, a[hi - 1]) ==> Reported(arg, a[hi - 1]) == Reported(arg, b[hi - 1]))
  {
    hide Selected, Reported;
    var m, n := Matches(arg, a, lo, hi), Matches(arg, b, lo, hi);
    MatchesBelow(arg, a, lo, hi - 1);
    MatchesBelow(arg, b, lo, hi - 1);
    if m == n {
      assert Selected(arg, a[hi - 1]) <==> (m != [] && m[|m| - 1].page == hi - 1);
      assert Selected(arg, b[hi - 1]) <==> (n != [] && n[|n| - 1].page == hi - 1);
      assert Matches(arg, a, lo, hi - 1) == if Selected(arg, a[hi - 1]) then m[..|m| - 1] else m;
      assert Matches(arg, b, lo, hi - 1) == if Selected(arg, b[hi - 1]) then n[..|n| - 1] else n;
    }
  }

  lemma {:induction false} MatchesBelow(arg: ScanArg, t: Table, lo: nat, hi: nat)
    requires hi <= |t|
    ensures forall r :: r in Matches(arg, t, lo, hi) ==> r.page < hi
  {
    hide Selected, Reported;
    if lo < hi {
      MatchesBelow(arg, t, lo, hi - 1);
    }
  }

  /** The scan reports the matches of the table it was given, rather than of the table with
      some huge pages split, if and only if none of the huge pages it has to split loses by it.
      Whether a page has to be split, and loses by it, can be told from the table alone. */
  lemma {:induction false} SplitKeepsMatches(arg: ScanArg, before: Table, seen: Table, stop: nat, hi: nat)
    requires SplitOf(arg, before, seen) && arg.start <= hi <= stop <= |seen|
    requires SplitsExactly(arg, before, seen, arg.start, stop)
    ensures Matches(arg, before, arg.start, hi) == Matches(arg, seen, arg.start, hi)
       <==> AllKept(arg, before, arg.start, hi)
    decreases hi, 0
  {
    hide Selected, Reported, IsWritten, KeptBySplit, Matches, SplitSlot;
    if hi == arg.start {
      assert Matches(arg, before, hi, hi) == [] == Matches(arg, seen, hi, hi) by { NoMatches(arg, before, seen, hi); }
    } else {
      var page := hi - 1;
      SplitKeepsMatches(arg, before, seen, stop, page);
      MatchesStep(arg, before, seen, arg.start, hi);
      if AllKept(arg, before, arg.start, page) {
        SameCutBefore(arg, before, seen, stop, page);
        if ToProtect(arg, before[page]) && Cut(arg, before, page) {
          assert seen[page] == SplitSlot(before[page]);
          KeptIff(arg, before[page]);
        } else {
          assert seen[page] == before[page];
        }
      }
    }
  }

  lemma NoMatches(arg: ScanArg, a: Table, b: Table, lo: nat)
    requires lo <= |a| == |b|
    ensures Matches(arg, a, lo, lo) == [] == Matches(arg, b, lo, lo)
  {
  }

  /** As long as nothing was lost before it, a huge page is cut in one table as in the other. */
  lemma {:induction false} SameCutBefore(arg: ScanArg, before: Table, seen: Table, stop: nat, page: nat)
    requires SplitOf(arg, before, seen) && arg.start <= page < stop <= |seen|
    requires SplitsExactly(arg, before, seen, arg.start, stop) && AllKept(arg, before, arg.start, page)
    ensures Cut(arg, before, page) <==> Cut(arg, seen, page)
    decreases page, 1
  {
    hide Matches, KeptBySplit, Selected, IsWritten;
    if From(arg, page) < stop {
      SplitKeepsMatches(arg, before, seen, stop, From(arg, page));
    }
  }
}
