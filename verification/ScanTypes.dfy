/** What PAGEMAP_SCAN reads of an address space, and which pages it selects.
    `Selected` is what the scan selects, `Wanted` what its filter documents; they
    differ for one kind of page only (`SelectedIsWanted`). */
module ScanTypes {
  import opened Kernel

  /** The PAGE_IS_* bits. A word of categories is the set of its bits; requests with any
      other bit are rejected before the scan starts. */
  datatype Category = WpAllowed | Written | File | Present | Swapped | PfnZero | Huge | SoftDirty | Guard

  type Categories = set<Category>

  function Xor(a: Categories, b: Categories): Categories { (a - b) + (b - a) }

  function If(b: bool, c: Category): Categories { if b then {c} else {} }

  /** The properties of a VMA the scan looks at. `wpAllowed` stands for asynchronous
      userfaultfd write protection with markers, `file` for a mapping that is not anonymous. */
  datatype Vma = Vma(wpAllowed: bool, pfnmap: bool, softDirty: bool, file: bool)

  /** A page table entry, at PTE or PMD level. In `Mapped`, `file` holds when the entry
      maps a normal page that is not anonymous; in `Swap`, when it refers to such a page.
      `migration` tells migration entries from the others that are not present. */
  datatype Leaf =
    | Empty
    | Mapped(uffdWp: bool, file: bool, zero: bool, softDirty: bool)
    | Swap(uffdWp: bool, guard: bool, file: bool, softDirty: bool, migration: bool)

  /** One virtual page: outside every VMA, in a range without page tables, mapped by a
      PTE, or part of a huge page whose PMD is `leaf`. */
  datatype Slot =
    | Unmapped
    | Hole(vma: Vma)
    | Pte(vma: Vma, leaf: Leaf)
    | Pmd(vma: Vma, leaf: Leaf)

  type Table = seq<Slot>

  /** The request, after validation: the part of pm_scan_arg that never changes. */
  datatype ScanArg = ScanArg(
    start: nat, end: nat, vecLen: nat, maxPages: nat,
    wpMatching: bool, checkWpAsync: bool,
    inverted: Categories, mask: Categories, anyOf: Categories, returnMask: Categories)
  {
    /** The categories the scan bothers to compute. */
    function MasksOfInterest(): Categories { mask + anyOf + returnMask }

    /** The request that takes the second fast loop. */
    predicate WrittenOnly() {
      anyOf == {} && inverted == {} && mask == {Written} && returnMask == {Written}
    }
  }

  function PageCategory(masks: Categories, leaf: Leaf): Categories {
    match leaf
    case Empty => {}
    case Mapped(wp, file, zero, sd) =>
      {Present} + If(!wp, Written) + If(File in masks && file, File)
      + If(zero, PfnZero) + If(sd, SoftDirty)
    case Swap(wp, guard, file, sd, _) =>
      {Swapped} + If(!wp, Written)
      + (if guard then {Guard} else If(File in masks && file, File))
      + If(sd, SoftDirty)
  }

  function ThpCategory(masks: Categories, leaf: Leaf): Categories {
    match leaf
    case Empty => {Huge}
    case Mapped(wp, file, zero, sd) =>
      {Huge, Present} + If(!wp, Written) + If(File in masks && file, File)
      + If(zero, PfnZero) + If(sd, SoftDirty)
    case Swap(wp, _, file, sd, _) =>
      {Huge, Swapped} + If(!wp, Written) + If(sd, SoftDirty) + If(File in masks && file, File)
  }

  function VmaCategory(vma: Vma): Categories {
    If(vma.wpAllowed, WpAllowed) + If(vma.softDirty, SoftDirty)
  }

  predicate IsInterestingPage(categories: Categories, arg: ScanArg) {
    var c := Xor(categories, arg.inverted);
    c * arg.mask == arg.mask && (arg.anyOf == {} || c * arg.anyOf != {})
  }

  predicate IsInterestingVma(categories: Categories, arg: ScanArg) {
    var required := arg.mask * {WpAllowed};
    Xor(categories, arg.inverted) * required == required
  }

  /** Whether a VMA is walked (0), skipped (1) or fails the scan. */
  function TestWalk(arg: ScanArg, vma: Vma): int {
    if !vma.wpAllowed && arg.checkWpAsync then -EPERM
    else if !vma.wpAllowed && arg.wpMatching then 1
    else if vma.pfnmap then 1
    else if !IsInterestingVma(VmaCategory(vma), arg) then 1
    else 0
  }

  /** The page does not make the scan fail. */
  predicate Passable(arg: ScanArg, slot: Slot) { slot.Unmapped? || TestWalk(arg, slot.vma) >= 0 }

  predicate UffdWp(leaf: Leaf) { !leaf.Empty? && leaf.uffdWp }

  /** The entry after write protection; an empty entry gets a marker. */
  function Protect(leaf: Leaf): Leaf {
    match leaf
    case Empty => Swap(true, false, false, false, false)
    case Mapped(_, file, zero, sd) => Mapped(true, file, zero, sd)
    case Swap(_, guard, file, sd, migration) => Swap(true, guard, file, sd, migration)
  }

  /** A huge page is protected only if it is mapped or migrating. */
  predicate CanProtectPmd(leaf: Leaf) { leaf.Mapped? || (leaf.Swap? && leaf.migration) }

  function ProtectPmd(leaf: Leaf): Leaf { if CanProtectPmd(leaf) then Protect(leaf) else leaf }

  /** All categories of a page, computed without regard to what was asked for. */
  function CategoriesOf(slot: Slot): Categories {
    match slot
    case Unmapped => {}
    case Hole(v) => VmaCategory(v)
    case Pte(v, leaf) => VmaCategory(v) + PageCategory({File}, leaf)
    case Pmd(v, leaf) => VmaCategory(v) + ThpCategory({File}, leaf)
  }

  /** The VMA may be scanned at all: the filter on categories plays no part in this. */
  predicate Admitted(arg: ScanArg, vma: Vma) {
    !vma.pfnmap && (vma.wpAllowed || (!arg.checkWpAsync && !arg.wpMatching))
  }

  /** What the interface documents: an admitted page whose categories pass the filter. */
  predicate Wanted(arg: ScanArg, slot: Slot) {
    !slot.Unmapped? && Admitted(arg, slot.vma) && IsInterestingPage(CategoriesOf(slot), arg)
  }

  /** The page is taken by the WRITTEN-only loop, which looks at the protection alone. */
  predicate TakesWrittenLoop(arg: ScanArg, slot: Slot) {
    slot.Pte? && arg.WrittenOnly()
  }

  predicate Selected(arg: ScanArg, slot: Slot) {
    if TakesWrittenLoop(arg, slot) then Admitted(arg, slot.vma) && !UffdWp(slot.leaf)
    else Wanted(arg, slot)
  }

  /** The categories reported for a selected page. */
  function Reported(arg: ScanArg, slot: Slot): Categories {
    if TakesWrittenLoop(arg, slot) then {Written} else CategoriesOf(slot) * arg.returnMask
  }

  predicate IsWritten(slot: Slot) { Written in CategoriesOf(slot) }

  /** The slot after the scan has passed it. Without an output vector every PTE of a
      walked VMA is protected; with one, selected pages that are holes, WRITTEN, or
      taken by the WRITTEN-only loop. */
  function AfterScan(arg: ScanArg, slot: Slot): Slot {
    if !arg.wpMatching then slot
    else match slot
      case Unmapped => slot
      case Hole(v) => if Selected(arg, slot) then Pte(v, Protect(Empty)) else slot
      case Pte(v, leaf) =>
        if arg.vecLen == 0 then (if TestWalk(arg, v) == 0 then Pte(v, Protect(leaf)) else slot)
        else if Selected(arg, slot) && (arg.WrittenOnly() || IsWritten(slot)) then Pte(v, Protect(leaf))
        else slot
      case Pmd(v, leaf) =>
        if Selected(arg, slot) && IsWritten(slot) then Pmd(v, ProtectPmd(leaf)) else slot
  }

  predicate Protected(slot: Slot) {
    (slot.Pte? || slot.Pmd?) && UffdWp(slot.leaf)
  }

  // ---- what the categories and the filters mean ----

  /** The page has an entry, at either level. */
  predicate HasEntry(slot: Slot) { (slot.Pte? || slot.Pmd?) && !slot.leaf.Empty? }

  /** The page is a guard page: it has a guard marker for a PTE. */
  predicate IsGuard(slot: Slot) { slot.Pte? && slot.leaf.Swap? && slot.leaf.guard }

  /** What each category says about a page, in terms of its VMA and its entry. */
  predicate HasCategory(slot: Slot, c: Category) {
    match c
    case WpAllowed => !slot.Unmapped? && slot.vma.wpAllowed
    case Written => HasEntry(slot) && !slot.leaf.uffdWp
    case File => HasEntry(slot) && slot.leaf.file && !IsGuard(slot)
    case Present => HasEntry(slot) && slot.leaf.Mapped?
    case Swapped => HasEntry(slot) && slot.leaf.Swap?
    case PfnZero => HasEntry(slot) && slot.leaf.Mapped? && slot.leaf.zero
    case Huge => slot.Pmd?
    case SoftDirty => !slot.Unmapped? && (slot.vma.softDirty || (HasEntry(slot) && slot.leaf.softDirty))
    case Guard => IsGuard(slot)
  }

  /** The categories computed for a page are the ones it has. */
  lemma CategoriesMean(slot: Slot, c: Category)
    ensures c in CategoriesOf(slot) <==> HasCategory(slot, c)
  {
    hide PageCategory, ThpCategory;
    match slot
    case Unmapped =>
    case Hole(_) =>
    case Pte(v, leaf) => EntryCategories(v, leaf, c);
    case Pmd(v, leaf) => EntryCategories(v, leaf, c);
  }

  lemma EntryCategories(v: Vma, leaf: Leaf, c: Category)
    ensures c in PageCategory({File}, leaf) <==> HasCategory(Pte(v.(wpAllowed := false, softDirty := false), leaf), c)
    ensures c in ThpCategory({File}, leaf) <==> HasCategory(Pmd(v.(wpAllowed := false, softDirty := false), leaf), c)
  {
    match leaf
    case Empty =>
    case Mapped(_, _, _, _) =>
    case Swap(_, _, _, _, _) =>
  }

  /** The page has the category, or lacks it if the request inverts it. */
  predicate Meets(arg: ScanArg, slot: Slot, c: Category) {
    HasCategory(slot, c) <==> c !in arg.inverted
  }

  /** What the interface documents, bit by bit: a page of a VMA that may be scanned, which
      meets every category required and, if any are listed, one of those listed. */
  lemma WantedMeans(arg: ScanArg, slot: Slot)
    ensures Wanted(arg, slot) <==>
              && !slot.Unmapped? && !slot.vma.pfnmap
              && (slot.vma.wpAllowed || (!arg.checkWpAsync && !arg.wpMatching))
              && (forall c :: c in arg.mask ==> Meets(arg, slot, c))
              && (arg.anyOf == {} || exists c :: c in arg.anyOf && Meets(arg, slot, c))
  {
    hide HasCategory, CategoriesOf;
    var x := Xor(CategoriesOf(slot), arg.inverted);
    forall c: Category
      ensures c in x <==> Meets(arg, slot, c)
    {
      CategoriesMean(slot, c);
    }
    assert x * arg.mask == arg.mask <==> forall c :: c in arg.mask ==> c in x;
    if x * arg.anyOf != {} {
      var c :| c in x * arg.anyOf;
    } else {
      assert forall c :: c in arg.anyOf ==> c !in x * arg.anyOf;
    }
  }

  /** A VMA without asynchronous write protection fails a request that insists on it, and is
      skipped by one that protects; one that maps frames is skipped, and so is one whose
      write protection is not what the request asks for. Every other one is walked. */
  lemma TestWalkMeans(arg: ScanArg, vma: Vma)
    ensures TestWalk(arg, vma) == -EPERM <==> !vma.wpAllowed && arg.checkWpAsync
    ensures TestWalk(arg, vma) == 0 <==>
              && (vma.wpAllowed || (!arg.checkWpAsync && !arg.wpMatching)) && !vma.pfnmap
              && (WpAllowed in arg.mask ==> (vma.wpAllowed <==> WpAllowed !in arg.inverted))
    ensures TestWalk(arg, vma) in {-EPERM, 0, 1}
  {
    var x := Xor(VmaCategory(vma), arg.inverted);
    assert WpAllowed in x <==> (vma.wpAllowed <==> WpAllowed !in arg.inverted);
    if WpAllowed in arg.mask {
      assert arg.mask * {WpAllowed} == {WpAllowed};
      assert x * {WpAllowed} == {WpAllowed} <==> WpAllowed in x * {WpAllowed};
    } else {
      assert arg.mask * {WpAllowed} == {};
    }
  }

  /** Protecting an entry changes its protection and nothing else; an empty one becomes a
      marker, which has no category of a page but SWAPPED. */
  lemma ProtectMeans(v: Vma, leaf: Leaf)
    ensures UffdWp(Protect(leaf))
    ensures leaf.Empty? ==> forall c :: HasCategory(Pte(v, Protect(leaf)), c) <==>
                                          c == Swapped || HasCategory(Hole(v), c)
    ensures !leaf.Empty? ==> Protect(leaf) == leaf.(uffdWp := true)
    ensures ProtectPmd(leaf) == if leaf.Mapped? || (leaf.Swap? && leaf.migration) then leaf.(uffdWp := true) else leaf
  {
  }

  // ---- the filters preserve meaning ----

  /** Two category sets that differ at most in bits no mask mentions. */
  lemma UnmentionedBits(arg: ScanArg, a: Categories, b: Categories)
    requires forall c :: c in arg.MasksOfInterest() ==> (c in a <==> c in b)
    ensures IsInterestingPage(a, arg) == IsInterestingPage(b, arg)
    ensures a * arg.returnMask == b * arg.returnMask
  {
    var x, y := Xor(a, arg.inverted), Xor(b, arg.inverted);
    assert x * arg.mask == y * arg.mask;
    assert x * arg.anyOf == y * arg.anyOf;
  }

  /** What the loops compute for an entry: File only if some mask mentions it. */
  function LazyCategories(arg: ScanArg, slot: Slot): Categories
    requires slot.Pte? || slot.Pmd?
  {
    VmaCategory(slot.vma) + (if slot.Pte? then PageCategory(arg.MasksOfInterest(), slot.leaf)
                             else ThpCategory(arg.MasksOfInterest(), slot.leaf))
  }

  /** Leaving File out when no mask mentions it changes neither the decision, nor the
      report, nor the write-protect decision. */
  lemma LazyFile(arg: ScanArg, slot: Slot)
    requires slot.Pte? || slot.Pmd?
    ensures IsInterestingPage(LazyCategories(arg, slot), arg) == IsInterestingPage(CategoriesOf(slot), arg)
    ensures LazyCategories(arg, slot) * arg.returnMask == CategoriesOf(slot) * arg.returnMask
    ensures Written in LazyCategories(arg, slot) <==> IsWritten(slot)
  {
    var lazy := LazyCategories(arg, slot);
    forall c | c in arg.MasksOfInterest()
      ensures c in lazy <==> c in CategoriesOf(slot)
    {
    }
    UnmentionedBits(arg, lazy, CategoriesOf(slot));
  }

  /** The VMA pre-filter drops no page: a VMA that is skipped holds no selected page. */
  lemma VmaFilterDropsNothing(arg: ScanArg, slot: Slot)
    requires !slot.Unmapped? && Selected(arg, slot)
    ensures TestWalk(arg, slot.vma) == 0
  {
    var c := VmaCategory(slot.vma);
    if TakesWrittenLoop(arg, slot) {
      assert arg.mask * {WpAllowed} == {};
    } else {
      assert WpAllowed in c <==> WpAllowed in CategoriesOf(slot);
      if WpAllowed in arg.mask {
        assert WpAllowed in Xor(CategoriesOf(slot), arg.inverted) * arg.mask;
        assert WpAllowed in Xor(c, arg.inverted);
        assert arg.mask * {WpAllowed} == {WpAllowed};
        assert Xor(c, arg.inverted) * {WpAllowed} == {WpAllowed};
      } else {
        assert arg.mask * {WpAllowed} == {};
      }
    }
  }

  /** Under a WRITTEN-only request the documented filter comes down to the WRITTEN bit. */
  lemma WrittenOnlyFilter(arg: ScanArg, slot: Slot)
    requires arg.WrittenOnly()
    ensures IsInterestingPage(CategoriesOf(slot), arg) <==> IsWritten(slot)
    ensures IsWritten(slot) ==> CategoriesOf(slot) * arg.returnMask == {Written}
  {
    var c := CategoriesOf(slot);
    assert Xor(c, arg.inverted) == c;
    if IsWritten(slot) {
      assert c * {Written} == {Written};
    } else {
      assert Written !in c * {Written};
    }
  }

  /** An admitted page with an empty PTE, under a request that knows no category but WRITTEN:
      the fast loop takes it for a WRITTEN page. */
  predicate MistakenForWritten(arg: ScanArg, slot: Slot) {
    && arg.mask == {Written} && arg.returnMask == {Written} && arg.anyOf == {} && arg.inverted == {}
    && slot.Pte? && slot.leaf.Empty? && Admitted(arg, slot.vma)
  }

  /** The scan selects and reports what the filter documents, for every page but one
      kind: an empty PTE under a WRITTEN-only request, which the fast loop reports as
      WRITTEN although it has no category at all. */
  lemma SelectedIsWanted(arg: ScanArg, slot: Slot)
    ensures (Selected(arg, slot) == Wanted(arg, slot)
             && (Selected(arg, slot) ==> Reported(arg, slot) == CategoriesOf(slot) * arg.returnMask))
        <==> !MistakenForWritten(arg, slot)
  {
    if TakesWrittenLoop(arg, slot) {
      WrittenOnlyFilter(arg, slot);
      WrittenIsUnprotected(slot);
    }
  }

  /** Protection is exactly what takes WRITTEN away from a page that has an entry. */
  lemma WrittenIsUnprotected(slot: Slot)
    ensures IsWritten(slot) <==> (slot.Pte? || slot.Pmd?) && !slot.leaf.Empty? && !UffdWp(slot.leaf)
  {
  }
}
