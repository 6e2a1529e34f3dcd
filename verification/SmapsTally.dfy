/** What the smaps figures mean: each is a sum over the pages the walk counted, of the size or
    the share of those that have a property. `Total` says so figure by figure, without regard
    to how the accounting goes about it; `WalkIsTotal` says that the walk computes it. */
module SmapsTally {
  import opened Kernel
  import opened Smaps

  /** A page as it is counted: mapped, or held by an entry that refers to it; or swapped out. */
  datatype Counted =
    | InMemory(anon: bool, swapBacked: bool, dirty: bool, ksm: bool, referenced: bool, private: bool, share: nat)
    | SwappedOut(swapShare: nat)

  function Sum(cs: seq<Counted>, weight: Counted -> nat): nat {
    if cs == [] then 0 else Sum(cs[..|cs| - 1], weight) + weight(cs[|cs| - 1])
  }

  function SizeIf(b: bool): nat { if b then PAGE_SIZE else 0 }

  function Resident(c: Counted): nat { SizeIf(c.InMemory?) }
  function SharedClean(c: Counted): nat { SizeIf(c.InMemory? && !c.private && !c.dirty) }
  function SharedDirty(c: Counted): nat { SizeIf(c.InMemory? && !c.private && c.dirty) }
  function PrivateClean(c: Counted): nat { SizeIf(c.InMemory? && c.private && !c.dirty) }
  function PrivateDirty(c: Counted): nat { SizeIf(c.InMemory? && c.private && c.dirty) }
  function Referenced(c: Counted): nat { SizeIf(c.InMemory? && c.referenced) }
  function Anonymous(c: Counted): nat { SizeIf(c.InMemory? && c.anon) }
  function Lazyfree(c: Counted): nat { SizeIf(c.InMemory? && c.anon && !c.swapBacked && !c.dirty) }
  function Ksm(c: Counted): nat { SizeIf(c.InMemory? && c.ksm) }
  function Swap(c: Counted): nat { SizeIf(c.SwappedOut?) }
  function Pss(c: Counted): nat { if c.InMemory? then c.share else 0 }
  function PssAnon(c: Counted): nat { if c.InMemory? && c.anon then c.share else 0 }
  function PssFile(c: Counted): nat { if c.InMemory? && !c.anon && !c.swapBacked then c.share else 0 }
  function PssShmem(c: Counted): nat { if c.InMemory? && !c.anon && c.swapBacked then c.share else 0 }
  function PssDirty(c: Counted): nat { if c.InMemory? && c.dirty then c.share else 0 }
  function SwapPss(c: Counted): nat { if c.SwappedOut? then c.swapShare else 0 }

  function Total(cs: seq<Counted>, locked: bool): Stats {
    Stats(Sum(cs, Resident), Sum(cs, SharedClean), Sum(cs, SharedDirty), Sum(cs, PrivateClean),
          Sum(cs, PrivateDirty), Sum(cs, Referenced), Sum(cs, Anonymous), Sum(cs, Lazyfree), Sum(cs, Ksm),
          Sum(cs, Swap), Sum(cs, Pss), Sum(cs, PssAnon), Sum(cs, PssFile), Sum(cs, PssShmem),
          Sum(cs, PssDirty), if locked then Sum(cs, Pss) else 0, Sum(cs, SwapPss))
  }

  /** A page of a folio with a single reference, or whose entry is not present, counts in
      full, and is private if its entry is present. Any other page is shared out among its
      mappers, and is private if there is at most one. Without precise mapcounts the average
      of the folio is the number of mappers, and its pages are private unless it may be shared. */
  function PageOf(precise: bool, f: Folio, page: nat, young: bool, dirty: bool, present: bool): Counted
    requires page < |f.mapcounts|
  {
    var alone := f.refCount == 1 || !present;
    var mappers := if precise then f.mapcounts[page] else f.average;
    var private := if alone then present else if precise then mappers <= 1 else !f.maybeShared;
    InMemory(f.anon, f.swapBacked, dirty || f.dirty, f.ksm, young || f.young || f.referenced, private,
             SharedOut(if alone then 1 else mappers))
  }

  /** A page shared out among its mappers. */
  function SharedOut(mappers: nat): nat {
    if mappers <= 1 then PAGE_PSS else PAGE_PSS / mappers
  }

  function PagesOf(precise: bool, f: Folio, first: nat, n: nat, young: bool, dirty: bool, present: bool): seq<Counted>
    requires first + n <= |f.mapcounts|
  {
    if n == 0 then []
    else PagesOf(precise, f, first, n - 1, young, dirty, present)
         + [PageOf(precise, f, first + n - 1, young, dirty, present)]
  }

  function CountedBy(precise: bool, e: Entry): seq<Counted>
    requires ValidEntry(e)
  {
    match e
    case Nothing => []
    case PageEntry(f, page, young, dirty, present) => PagesOf(precise, f, page, 1, young, dirty, present)
    case SwapEntry(mapcount) => [SwappedOut(SharedOut(mapcount))]
    case HugeEntry(f, young, dirty, present) => PagesOf(precise, f, 0, HPAGE_NR, young, dirty, present)
  }

  /** The pages a walk counts. */
  function AllCounted(precise: bool, es: seq<Entry>): seq<Counted>
    requires forall e :: e in es ==> ValidEntry(e)
  {
    if es == [] then [] else AllCounted(precise, es[..|es| - 1]) + CountedBy(precise, es[|es| - 1])
  }

  // ---- one page more ----

  function Add(st: Stats, c: Counted, locked: bool): Stats {
    Stats(st.resident + Resident(c), st.sharedClean + SharedClean(c), st.sharedDirty + SharedDirty(c),
          st.privateClean + PrivateClean(c), st.privateDirty + PrivateDirty(c), st.referenced + Referenced(c),
          st.anonymous + Anonymous(c), st.lazyfree + Lazyfree(c), st.ksm + Ksm(c), st.swap + Swap(c),
          st.pss + Pss(c), st.pssAnon + PssAnon(c), st.pssFile + PssFile(c), st.pssShmem + PssShmem(c),
          st.pssDirty + PssDirty(c), st.pssLocked + (if locked then Pss(c) else 0), st.swapPss + SwapPss(c))
  }

  /** The figures of two sets of pages together. */
  function Plus(a: Stats, b: Stats): Stats {
    Stats(a.resident + b.resident, a.sharedClean + b.sharedClean, a.sharedDirty + b.sharedDirty,
          a.privateClean + b.privateClean, a.privateDirty + b.privateDirty, a.referenced + b.referenced,
          a.anonymous + b.anonymous, a.lazyfree + b.lazyfree, a.ksm + b.ksm, a.swap + b.swap,
          a.pss + b.pss, a.pssAnon + b.pssAnon, a.pssFile + b.pssFile, a.pssShmem + b.pssShmem,
          a.pssDirty + b.pssDirty, a.pssLocked + b.pssLocked, a.swapPss + b.swapPss)
  }

  lemma PlusLaws(a: Stats, b: Stats, c: Stats)
    ensures Plus(Plus(a, b), c) == Plus(a, Plus(b, c))
    ensures Plus(ZERO, a) == a == Plus(a, ZERO)
  {
  }

  lemma AddIsPlus(st: Stats, t: Stats, c: Counted, locked: bool)
    ensures Add(Plus(st, t), c, locked) == Plus(st, Add(t, c, locked))
  {
  }

  lemma SumPush(cs: seq<Counted>, c: Counted, weight: Counted -> nat)
    ensures Sum(cs + [c], weight) == Sum(cs, weight) + weight(c)
  {
    assert (cs + [c])[..|cs|] == cs;
  }

  lemma TotalPush(cs: seq<Counted>, c: Counted, locked: bool)
    ensures Total(cs + [c], locked) == Add(Total(cs, locked), c, locked)
  {
    hide Sum;
    SumPush(cs, c, Resident);
    SumPush(cs, c, SharedClean);
    SumPush(cs, c, SharedDirty);
    SumPush(cs, c, PrivateClean);
    SumPush(cs, c, PrivateDirty);
    SumPush(cs, c, Referenced);
    SumPush(cs, c, Anonymous);
    SumPush(cs, c, Lazyfree);
    SumPush(cs, c, Ksm);
    SumPush(cs, c, Swap);
    SumPush(cs, c, Pss);
    SumPush(cs, c, PssAnon);
    SumPush(cs, c, PssFile);
    SumPush(cs, c, PssShmem);
    SumPush(cs, c, PssDirty);
    SumPush(cs, c, SwapPss);
  }

  /** Counting a page by its size and then by its sharing. */
  lemma AccountingOnePage(st: Stats, f: Folio, young: bool, dirty: bool, locked: bool, private: bool, share: nat)
    ensures st.CountSize(f, PAGE_SIZE, young, dirty).Accumulate(f, PAGE_SIZE, share, dirty, locked, private)
         == Add(st, InMemory(f.anon, f.swapBacked, dirty || f.dirty, f.ksm, young || f.young || f.referenced,
                         private, share), locked)
  {
  }

  lemma CountSizeTwice(st: Stats, f: Folio, a: nat, b: nat, young: bool, dirty: bool)
    ensures st.CountSize(f, a, young, dirty).CountSize(f, b, young, dirty) == st.CountSize(f, a + b, young, dirty)
  {
  }

  lemma CountSizeNothing(st: Stats, f: Folio, young: bool, dirty: bool)
    ensures st.CountSize(f, 0, young, dirty) == st
  {
  }

  /** Counting by size and counting by sharing concern different figures. */
  lemma CountSizeCommutes(st: Stats, f: Folio, a: nat, b: nat, share: nat, young: bool, dirty: bool, locked: bool,
                          private: bool)
    ensures st.CountSize(f, a, young, dirty).Accumulate(f, b, share, dirty, locked, private)
         == st.Accumulate(f, b, share, dirty, locked, private).CountSize(f, a, young, dirty)
  {
  }

  lemma {:induction false} CountSizeCommutesWithPages(precise: bool, st: Stats, f: Folio, a: nat, first: nat, n: nat,
                                                      young: bool, dirty: bool, locked: bool)
    requires first + n <= |f.mapcounts|
    ensures st.CountSize(f, a, young, dirty).AccumulatePages(precise, f, first, n, dirty, locked)
         == st.AccumulatePages(precise, f, first, n, dirty, locked).CountSize(f, a, young, dirty)
  {
    hide Stats.CountSize, Stats.Accumulate;
    if n > 0 {
      CountSizeCommutesWithPages(precise, st, f, a, first, n - 1, young, dirty, locked);
      CountSizeCommutes(st.AccumulatePages(precise, f, first, n - 1, dirty, locked), f, a, PAGE_SIZE,
                        Share(MapCount(precise, f, first + n - 1)), young, dirty, locked,
                        Exclusive(precise, f, first + n - 1));
    }
  }

  /** A huge page, or any run of pages of a folio, counts as its last page and the rest do. */
  lemma AccountStep(precise: bool, st: Stats, f: Folio, first: nat, n: nat,
                    young: bool, dirty: bool, locked: bool, present: bool)
    requires n > 0 && first + n <= |f.mapcounts|
    ensures st.Account(precise, f, first, n, young, dirty, locked, present)
         == Add(st.Account(precise, f, first, n - 1, young, dirty, locked, present),
                PageOf(precise, f, first + n - 1, young, dirty, present), locked)
  {
    hide Stats.CountSize, Stats.Accumulate, Add;
    var m := (n - 1) * PAGE_SIZE;
    var s := st.CountSize(f, m, young, dirty);
    CountSizeTwice(st, f, m, PAGE_SIZE, young, dirty);
    if f.refCount == 1 || !present {
      AccumulateTwice(s.CountSize(f, PAGE_SIZE, young, dirty), f, m, PAGE_SIZE, (n - 1) * PAGE_PSS, PAGE_PSS,
                      dirty, locked, present);
      CountSizeCommutes(s, f, PAGE_SIZE, m, (n - 1) * PAGE_PSS, young, dirty, locked, present);
      AccountingOnePage(s.Accumulate(f, m, (n - 1) * PAGE_PSS, dirty, locked, present), f, young, dirty, locked,
                        present, PAGE_PSS);
    } else {
      CountSizeCommutesWithPages(precise, s, f, PAGE_SIZE, first, n - 1, young, dirty, locked);
      AccountingOnePage(s.AccumulatePages(precise, f, first, n - 1, dirty, locked), f, young, dirty, locked,
                        Exclusive(precise, f, first + n - 1), Share(MapCount(precise, f, first + n - 1)));
    }
  }

  /** Pages of one folio added to what is counted already. */
  lemma {:induction false} AccountAddsPages(precise: bool, st: Stats, cs: seq<Counted>, f: Folio, first: nat, n: nat,
                                            young: bool, dirty: bool, locked: bool, present: bool)
    requires first + n <= |f.mapcounts|
    ensures Plus(st, Total(cs, locked)).Account(precise, f, first, n, young, dirty, locked, present)
         == Plus(st, Total(cs + PagesOf(precise, f, first, n, young, dirty, present), locked))
  {
    hide Total, Add, Plus, Stats.CountSize, Stats.Accumulate;
    var t := Plus(st, Total(cs, locked));
    if n == 0 {
      CountSizeNothing(t, f, young, dirty);
      AccumulateNothing(t, f, dirty, locked, present);
      assert cs + [] == cs;
    } else {
      var init := PagesOf(precise, f, first, n - 1, young, dirty, present);
      var c := PageOf(precise, f, first + n - 1, young, dirty, present);
      AccountAddsPages(precise, st, cs, f, first, n - 1, young, dirty, locked, present);
      AccountStep(precise, t, f, first, n, young, dirty, locked, present);
      TotalPush(cs + init, c, locked);
      AddIsPlus(st, Total(cs + init, locked), c, locked);
      assert cs + (init + [c]) == cs + init + [c];
    }
  }

  /** A walk adds to every figure what the figure stands for, over exactly the pages of its
      entries: huge pages page by page, however they were accounted. */
  lemma {:induction false} WalkAddsTotal(precise: bool, st: Stats, es: seq<Entry>, locked: bool)
    requires forall e :: e in es ==> ValidEntry(e)
    ensures Walk(precise, st, es, locked) == Plus(st, Total(AllCounted(precise, es), locked))
  {
    hide Stats.Account, Total, Add, Plus, PagesOf;
    if es == [] {
      TotalOfNothing(locked);
      PlusLaws(st, st, st);
    } else {
      var cs := AllCounted(precise, es[..|es| - 1]);
      WalkAddsTotal(precise, st, es[..|es| - 1], locked);
      assert ValidEntry(es[|es| - 1]);
      match es[|es| - 1] {
        case Nothing => assert cs + [] == cs;
        case PageEntry(f, page, young, dirty, present) =>
          AccountAddsPages(precise, st, cs, f, page, 1, young, dirty, locked, present);
        case SwapEntry(mapcount) =>
          TotalPush(cs, SwappedOut(SharedOut(mapcount)), locked);
          AddIsPlus(st, Total(cs, locked), SwappedOut(SharedOut(mapcount)), locked);
          SwapAdds(Plus(st, Total(cs, locked)), mapcount, locked);
        case HugeEntry(f, young, dirty, present) =>
          AccountAddsPages(precise, st, cs, f, 0, HPAGE_NR, young, dirty, locked, present);
      }
    }
  }

  /** Every figure of a walk is the sum it stands for. */
  lemma WalkIsTotal(precise: bool, es: seq<Entry>, locked: bool)
    requires forall e :: e in es ==> ValidEntry(e)
    ensures Walk(precise, ZERO, es, locked) == Total(AllCounted(precise, es), locked)
  {
    hide Walk, Total, Plus;
    WalkAddsTotal(precise, ZERO, es, locked);
    PlusLaws(Total(AllCounted(precise, es), locked), ZERO, ZERO);
  }

  lemma SwapAdds(st: Stats, mapcount: nat, locked: bool)
    ensures st.CountSwap(mapcount) == Add(st, SwappedOut(SharedOut(mapcount)), locked)
  {
  }

  lemma TotalOfNothing(locked: bool)
    ensures Total([], locked) == ZERO
  {
  }
}
