/** What /proc/pid/pagemap shows of an address space: the entry of each page. Addresses are
    page numbers. */
module PagemapView {
  import opened Kernel
  import opened AddressSpace
  import opened PagemapEntry

  /** The page an entry refers to, if it is one with a folio: whether the folio is anonymous,
      and whether the page is mapped by one process only. */
  datatype Page = NoPage | Folio(anon: bool, exclusive: bool)

  /** A page table entry, at PTE or PMD level. `offset` is the page frame for swap entries
      that hold one, and the swap offset for the others. */
  datatype Leaf =
    | Empty
    | Mapped(pfn: bv64, softDirty: bool, uffdWp: bool, page: Page)
    | Swapped(swpType: bv64, offset: bv64, softDirty: bool, uffdWp: bool,
              uffdMarker: bool, guard: bool, page: Page)

  /** A page as the walk meets it. `NoTable` is a page of a range without page tables, or of a PFN
      mapping, whose entries the walker does not look at. */
  datatype Slot = NoTable | Pte(leaf: Leaf) | Pmd(leaf: Leaf)

  datatype View = View(vmas: Snapshot, slots: seq<Slot>)

  /** The pages of the block around `page` lie in one VMA. */
  ghost predicate OneVma(v: View, page: nat) {
    forall j :: Base(page) <= j < Base(page) + HPAGE_NR ==> FirstAfter(v.vmas, j) == FirstAfter(v.vmas, page)
  }

  ghost predicate ValidLeaf(leaf: Leaf) { leaf.Swapped? ==> leaf.swpType < 32 }

  /** Page tables are for pages of VMAs. */
  ghost predicate InVma(vmas: Snapshot, page: nat) {
    FirstAfter(vmas, page).Some? && FirstAfter(vmas, page).value.start <= page
  }

  ghost predicate ValidView(v: View) {
    && WellFormed(v.vmas)
    && (forall i :: 0 <= i < |v.slots| && !v.slots[i].NoTable? ==> InVma(v.vmas, i))
    && (forall i :: 0 <= i < |v.slots| && v.slots[i].Pmd? ==>
          HugeBlock(v.slots, i) && OneVma(v, i) && ValidLeaf(v.slots[i].leaf))
  }

  /** The page lies in a VMA that counts as soft-dirty. */
  predicate VmaSoftDirty(vmas: Snapshot, page: nat) {
    var v := FirstAfter(vmas, page);
    v.Some? && v.value.start <= page && v.value.softDirty
  }

  function HoleEntry(softDirty: bool): bv64 { MakePme(0, Bit(softDirty, PM_SOFT_DIRTY)) }

  function PteFlags(vmaSoftDirty: bool, leaf: Leaf): Flags {
    match leaf
    case Empty => Flags(vmaSoftDirty, false, false, false, false, false, false)
    case Mapped(_, sd, wp, page) =>
      Flags(vmaSoftDirty || sd, page.Folio? && page.exclusive, wp, false, page.Folio? && !page.anon, false, true)
    case Swapped(_, _, sd, wp, marker, guard, page) =>
      Flags(vmaSoftDirty || sd, false, wp || marker, guard, page.Folio? && !page.anon, true, false)
  }

  function PteFrame(showPfn: bool, leaf: Leaf): bv64 {
    if !showPfn || leaf.Empty? then 0
    else if leaf.Mapped? then leaf.pfn
    else SwapFrame(leaf.swpType, leaf.offset)
  }

  /** Markers are a matter of PTEs; a huge page has the other flags. */
  function PmdFlags(vmaSoftDirty: bool, leaf: Leaf): Flags {
    if leaf.Swapped? then PteFlags(vmaSoftDirty, leaf.(uffdMarker := false, guard := false))
    else PteFlags(vmaSoftDirty, leaf)
  }

  /** A small number as a machine word. */
  function ToBv(n: nat): bv64 { if n == 0 then 0 else Plus(ToBv(n - 1), 1) }

  /** The frame of page `idx` of a huge page: base frame plus index, or the swap type below
      the base offset plus index. */
  function PmdFrame(showPfn: bool, leaf: Leaf, idx: nat): bv64 {
    if !showPfn || leaf.Empty? then 0
    else if leaf.Mapped? then Plus(leaf.pfn, ToBv(idx))
    else SwapFrame(leaf.swpType, Plus(leaf.offset, ToBv(idx)))
  }

  function PmdEntry(showPfn: bool, vmaSoftDirty: bool, leaf: Leaf, idx: nat): bv64 {
    Pack(PmdFrame(showPfn, leaf, idx), PmdFlags(vmaSoftDirty, leaf))
  }

  function PteEntry(showPfn: bool, vmaSoftDirty: bool, leaf: Leaf): bv64 {
    Pack(PteFrame(showPfn, leaf), PteFlags(vmaSoftDirty, leaf))
  }

  /** The entry of a page. */
  function Entry(v: View, showPfn: bool, page: nat): bv64
    requires page < |v.slots|
  {
    var sd := VmaSoftDirty(v.vmas, page);
    match v.slots[page]
    case NoTable => HoleEntry(sd)
    case Pte(leaf) => PteEntry(showPfn, sd, leaf)
    case Pmd(leaf) => PmdEntry(showPfn, sd, leaf, page % HPAGE_NR)
  }

  /** The entries of the pages `lo .. hi`. */
  ghost function Entries(v: View, showPfn: bool, lo: nat, hi: nat): seq<bv64>
    requires hi <= |v.slots|
  {
    if hi <= lo then [] else Entries(v, showPfn, lo, hi - 1) + [Entry(v, showPfn, hi - 1)]
  }

  lemma {:induction false} EntriesSplit(v: View, showPfn: bool, lo: nat, mid: nat, hi: nat)
    requires lo <= mid <= hi <= |v.slots|
    ensures Entries(v, showPfn, lo, hi) == Entries(v, showPfn, lo, mid) + Entries(v, showPfn, mid, hi)
  {
    hide Entry;
    if mid < hi {
      EntriesSplit(v, showPfn, lo, mid, hi - 1);
    }
  }

  /** One entry for each page, in order. */
  lemma {:induction false} EntriesAt(v: View, showPfn: bool, lo: nat, hi: nat, i: nat)
    requires lo + i < hi <= |v.slots|
    ensures |Entries(v, showPfn, lo, hi)| == hi - lo
    ensures Entries(v, showPfn, lo, hi)[i] == Entry(v, showPfn, lo + i)
  {
    hide Entry;
    if lo + i < hi - 1 {
      EntriesAt(v, showPfn, lo, hi - 1, i);
    } else if lo < hi - 1 {
      EntriesAt(v, showPfn, lo, hi - 1, 0);
    }
  }

  // ---- the loop over a huge page steps the frame ----

  /** What the loop adds to the frame from one page to the next. */
  function FrameStep(showPfn: bool, leaf: Leaf): bv64 {
    if !showPfn || leaf.Empty? then 0 else if leaf.Mapped? then 1 else SWAP_STEP
  }

  lemma PlusGroups(a: bv64, b: bv64, c: bv64)
    ensures Plus(Plus(a, b), c) == Plus(a, Plus(b, c))
  {
    PlusWords(a, b, c);
  }

  lemma PlusWords(a: bv64, b: bv64, c: bv64)
    ensures Plus(a + b, c) == Plus(a, b + c)
  {
    assert (a + b) + c == a + (b + c);
  }

  lemma PlusZero(frame: bv64)
    ensures Plus(frame, 0) == frame
  {
  }

  /** Stepping refines the direct formula: after each step the frame is again base plus
      index, the swap type undisturbed. */
  lemma FrameStepRefines(showPfn: bool, leaf: Leaf, idx: nat)
    requires ValidLeaf(leaf)
    ensures Plus(PmdFrame(showPfn, leaf, idx), FrameStep(showPfn, leaf)) == PmdFrame(showPfn, leaf, idx + 1)
  {
    hide SwapFrame, Plus;
    PlusZero(0);
    if leaf.Mapped? {
      PlusGroups(leaf.pfn, ToBv(idx), 1);
    } else if leaf.Swapped? {
      PlusGroups(leaf.offset, ToBv(idx), 1);
      SwapFrameStep(leaf.swpType, Plus(leaf.offset, ToBv(idx)));
    }
  }

  // ---- what an entry tells ----

  /** A VMA that counts as soft-dirty covers the page. */
  ghost predicate InSoftDirtyVma(vmas: Snapshot, page: nat) {
    exists v :: v in vmas && Covers(v, page) && v.softDirty
  }

  lemma VmaSoftDirtyMeans(vmas: Snapshot, page: nat)
    requires WellFormed(vmas)
    ensures VmaSoftDirty(vmas, page) <==> InSoftDirtyVma(vmas, page)
  {
    FirstIsLowest(vmas, page);
    if InSoftDirtyVma(vmas, page) {
      var v :| v in vmas && Covers(v, page) && v.softDirty;
    }
  }

  /** The page has a folio, as far as its entry tells. */
  predicate HasFolio(s: Slot) {
    !s.NoTable? && !s.leaf.Empty? && s.leaf.page.Folio?
  }

  /** The flags of an entry, by what the slot holds. */
  lemma UnpackedFlags(v: View, showPfn: bool, page: nat)
    requires page < |v.slots|
    ensures var e, s, sd := Entry(v, showPfn, page), v.slots[page], VmaSoftDirty(v.vmas, page);
      && Unpack(e) == (match s
           case NoTable => Flags(sd, false, false, false, false, false, false)
           case Pte(leaf) => PteFlags(sd, leaf)
           case Pmd(leaf) => PmdFlags(sd, leaf))
      && Reserved(e) == 0 && (!showPfn ==> Frame(e) == 0)
  {
    hide Pack, Unpack, Frame, Reserved, HoleEntry, SwapFrame, ToBv, VmaSoftDirty, PteFlags, PmdFlags;
    HoleDecodes(VmaSoftDirty(v.vmas, page));
    ZeroFrame();
    var s := v.slots[page];
    if s.Pte? {
      PackDecodes(PteFrame(showPfn, s.leaf), PteFlags(VmaSoftDirty(v.vmas, page), s.leaf));
    } else if s.Pmd? {
      PackDecodes(PmdFrame(showPfn, s.leaf, page % HPAGE_NR), PmdFlags(VmaSoftDirty(v.vmas, page), s.leaf));
    }
  }

  /** What each flag of an entry says of the page and its VMA. */
  lemma EntryTells(v: View, showPfn: bool, page: nat)
    requires page < |v.slots|
    ensures var e, s := Unpack(Entry(v, showPfn, page)), v.slots[page];
      && (e.present <==> !s.NoTable? && s.leaf.Mapped?)
      && (e.swap <==> !s.NoTable? && s.leaf.Swapped?)
      && (WellFormed(v.vmas) ==>
            (e.softDirty <==> InSoftDirtyVma(v.vmas, page) || (!s.NoTable? && !s.leaf.Empty? && s.leaf.softDirty)))
      && (e.uffdWp <==> !s.NoTable? && !s.leaf.Empty?
                        && (s.leaf.uffdWp || (s.Pte? && s.leaf.Swapped? && s.leaf.uffdMarker)))
      && (e.guard <==> s.Pte? && s.leaf.Swapped? && s.leaf.guard)
      && (e.file <==> HasFolio(s) && !s.leaf.page.anon)
      && (e.exclusive <==> HasFolio(s) && s.leaf.Mapped? && s.leaf.page.exclusive)
    ensures Reserved(Entry(v, showPfn, page)) == 0
    ensures !showPfn ==> Frame(Entry(v, showPfn, page)) == 0
  {
    hide Entry, Unpack, Frame, Reserved, VmaSoftDirty, InSoftDirtyVma, WellFormed;
    UnpackedFlags(v, showPfn, page);
    if WellFormed(v.vmas) {
      VmaSoftDirtyMeans(v.vmas, page);
    }
  }

  /** To a privileged reader the entry of a swapped page tells swap type and offset, also of
      a page within a huge page. */
  lemma SwappedEntryDecodes(v: View, page: nat)
    requires page < |v.slots| && !v.slots[page].NoTable? && v.slots[page].leaf.Swapped?
    requires ValidLeaf(v.slots[page].leaf)
    ensures var s, frame := v.slots[page], Frame(Entry(v, true, page));
      && SwapType(frame) == s.leaf.swpType
      && SwapOffset(frame) == Low50(if s.Pte? then s.leaf.offset else Plus(s.leaf.offset, ToBv(page % HPAGE_NR)))
  {
    hide Pack, Frame, SwapFrame, SwapType, SwapOffset, Low50, ToBv, Plus, VmaSoftDirty;
    var s := v.slots[page];
    if s.Pte? {
      PackDecodes(PteFrame(true, s.leaf), PteFlags(VmaSoftDirty(v.vmas, page), s.leaf));
      SwapFrameDecodes(s.leaf.swpType, s.leaf.offset);
    } else {
      PackDecodes(PmdFrame(true, s.leaf, page % HPAGE_NR), PmdFlags(VmaSoftDirty(v.vmas, page), s.leaf));
      SwapFrameDecodes(s.leaf.swpType, Plus(s.leaf.offset, ToBv(page % HPAGE_NR)));
    }
  }

  lemma ZeroFrame()
    ensures Frame(0) == 0
  {
  }

  lemma HoleDecodes(softDirty: bool)
    ensures Unpack(HoleEntry(softDirty)) == Flags(softDirty, false, false, false, false, false, false)
    ensures Frame(HoleEntry(softDirty)) == 0 && Reserved(HoleEntry(softDirty)) == 0
  {
  }
}
