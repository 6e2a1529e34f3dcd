/** The WRITTEN-only loop against the general loop, page by page: `PageStep` is what either
    loop does at one page, and the two take the same steps exactly on tables without empty
    entries. */
module ScanFastPath {
  import opened Kernel
  import opened ScanTypes
  import opened ScanBuffer
  import opened ScanSpec

  /** The loop reports the page. */
  function Takes(fast: bool, arg: ScanArg, slot: Slot): bool
    requires slot.Pte?
  {
    if fast then !UffdWp(slot.leaf) else IsInterestingPage(LazyCategories(arg, slot), arg)
  }

  /** With these categories. */
  function Offers(fast: bool, arg: ScanArg, slot: Slot): Categories
    requires slot.Pte?
  {
    if fast then VmaCategory(slot.vma) + {Written} else LazyCategories(arg, slot)
  }

  /** And protects it, if it is reported. */
  function Protects(fast: bool, arg: ScanArg, slot: Slot): bool
    requires slot.Pte?
  {
    arg.wpMatching && (fast || Written in LazyCategories(arg, slot))
  }

  ghost predicate CanStep(st: ScanState, table: Table, addr: nat) {
    addr < |table| <= ULONG_MAX && table[addr].Pte? && st.Ready() && st.found <= st.arg.maxPages <= ULONG_MAX
  }

  /** The state, the table and the result after one page. */
  ghost function PageStep(fast: bool, st: ScanState, table: Table, addr: nat): (ScanState, Table, int)
    requires CanStep(st, table, addr)
  {
    var slot := table[addr];
    if !Takes(fast, st.arg, slot) then (st, table, 0)
    else
      var (s, ret, next) := st.Output(Offers(fast, st.arg, slot), addr, addr + 1);
      (s, WritePte(table, addr, next != addr && Protects(fast, st.arg, slot)), ret)
  }

  lemma SameOffer(arg: ScanArg, slot: Slot)
    requires slot.Pte? && arg.WrittenOnly()
    ensures Takes(true, arg, slot) == Takes(false, arg, slot) <==> !slot.leaf.Empty?
    ensures slot.leaf.Empty? ==> Takes(true, arg, slot)
    ensures Takes(true, arg, slot) && Takes(false, arg, slot) ==>
              && Offers(true, arg, slot) * arg.returnMask == Offers(false, arg, slot) * arg.returnMask
              && Protects(true, arg, slot) == Protects(false, arg, slot)
  {
    hide IsInterestingPage, CategoriesOf, LazyCategories;
    LazyFile(arg, slot);
    WrittenOnlyFilter(arg, slot);
    WrittenIsUnprotected(slot);
    assert (VmaCategory(slot.vma) + {Written}) * {Written} == {Written};
  }

  /** What is reported depends on the categories only through `return_mask`. */
  lemma OutputMasks(st: ScanState, a: Categories, b: Categories, addr: nat)
    requires st.Ready() && addr < ULONG_MAX && st.found <= st.arg.maxPages <= ULONG_MAX
    requires a * st.arg.returnMask == b * st.arg.returnMask
    ensures st.Output(a, addr, addr + 1) == st.Output(b, addr, addr + 1)
  {
    hide AddOverflow, SubWrap;
  }

  /** An output into a buffer shows: in the count, or in the result. */
  lemma OutputShows(st: ScanState, categories: Categories, addr: nat)
    requires st.Ready() && st.HasBuffer() && addr < ULONG_MAX && st.found <= st.arg.maxPages <= ULONG_MAX
    ensures var (s, ret, _) := st.Output(categories, addr, addr + 1); s.found != st.found || ret != 0
  {
    hide AddOverflow, SubWrap;
  }

  /** At a page the two loops do the same to buffer, count, walk_end, page table and result
      if and only if its entry is not empty. */
  lemma StepsAgree(st: ScanState, table: Table, addr: nat)
    requires CanStep(st, table, addr) && st.arg.WrittenOnly() && st.HasBuffer()
    ensures PageStep(true, st, table, addr) == PageStep(false, st, table, addr) <==> !table[addr].leaf.Empty?
  {
    hide Takes, Offers, Protects;
    var slot := table[addr];
    SameOffer(st.arg, slot);
    if Takes(true, st.arg, slot) && Takes(false, st.arg, slot) {
      OutputMasks(st, Offers(true, st.arg, slot), Offers(false, st.arg, slot), addr);
    } else if Takes(true, st.arg, slot) {
      OutputShows(st, Offers(true, st.arg, slot), addr);
    }
  }

  /** Either loop over the pages `addr .. end`: state, table and result when it stops, at the
      first result that is not 0 or at the end. */
  ghost function Loop(fast: bool, st: ScanState, table: Table, addr: nat, end: nat): (ScanState, Table, int)
    decreases end - addr
  {
    if addr >= end || !CanStep(st, table, addr) then (st, table, 0)
    else
      var (s, t, ret) := PageStep(fast, st, table, addr);
      if ret != 0 then (s, t, ret) else Loop(fast, s, t, addr + 1, end)
  }

  lemma LoopStep(fast: bool, st: ScanState, table: Table, addr: nat, end: nat)
    requires addr < end && CanStep(st, table, addr)
    ensures var (s, t, ret) := PageStep(fast, st, table, addr);
            Loop(fast, st, table, addr, end) == if ret != 0 then (s, t, ret) else Loop(fast, s, t, addr + 1, end)
  {
  }

  lemma LoopEnds(fast: bool, st: ScanState, table: Table, end: nat)
    ensures Loop(fast, st, table, end, end) == (st, table, 0)
  {
  }

  /** What a step leaves alone. */
  lemma StepFrame(fast: bool, st: ScanState, table: Table, addr: nat)
    requires CanStep(st, table, addr)
    ensures var (s, t, _) := PageStep(fast, st, table, addr);
      && s.arg == st.arg && (s.HasBuffer() <==> st.HasBuffer())
      && |t| == |table| && forall i :: 0 <= i < |t| && i != addr ==> t[i] == table[i]
  {
    hide AddOverflow, SubWrap, Takes, Offers, Protects;
  }

  /** If no entry is empty to begin with, the WRITTEN-only loop leaves the same buffer, count,
      walk_end, page table and result as the general loop. */
  lemma {:induction false} LoopsAgree(st: ScanState, table: Table, addr: nat, end: nat)
    requires st.arg.WrittenOnly() && st.HasBuffer() && end <= |table|
    requires forall i :: addr <= i < end ==> table[i].Pte? && !table[i].leaf.Empty?
    ensures Loop(true, st, table, addr, end) == Loop(false, st, table, addr, end)
    decreases end - addr
  {
    hide PageStep, CanStep;
    if addr < end && CanStep(st, table, addr) {
      StepsAgree(st, table, addr);
      StepFrame(true, st, table, addr);
      var (s, t, _) := PageStep(true, st, table, addr);
      LoopsAgree(s, t, addr + 1, end);
    }
  }
}
