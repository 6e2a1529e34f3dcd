/** smaps accounting: what a walk over page table entries adds to the statistics of a VMA.
    `Stats` is the value of a `MemSizeStats` object, and `Conserved` what every walk keeps. */
module Smaps {
  import opened Kernel

  /** A whole page in the fixed-point unit of the proportional set size. */
  const PAGE_PSS: nat := 0x100_0000
  const PSS_UNIT: nat := 0x1000

  /** A folio as the accounting sees it. `mapcounts` are those of its pages; `average` and
      `maybeShared` stand in for them when the kernel does not keep them. */
  datatype Folio = Folio(anon: bool, swapBacked: bool, dirty: bool, ksm: bool, young: bool, referenced: bool,
                         refCount: nat, mapcounts: seq<nat>, average: nat, maybeShared: bool)

  datatype Stats = Stats(
    resident: nat, sharedClean: nat, sharedDirty: nat, privateClean: nat, privateDirty: nat,
    referenced: nat, anonymous: nat, lazyfree: nat, ksm: nat, swap: nat,
    pss: nat, pssAnon: nat, pssFile: nat, pssShmem: nat, pssDirty: nat, pssLocked: nat, swapPss: nat)
  {
    /** The share of a page, by kind. */
    function AddShare(f: Folio, share: nat, locked: bool): Stats {
      var s := this.(pss := pss + share, pssLocked := pssLocked + if locked then share else 0);
      if f.anon then s.(pssAnon := s.pssAnon + share)
      else if f.swapBacked then s.(pssShmem := s.pssShmem + share)
      else s.(pssFile := s.pssFile + share)
    }

    /** The size of a page, in one of four buckets. */
    function AddSize(f: Folio, size: nat, share: nat, dirty: bool, private: bool): Stats {
      if dirty || f.dirty then
        var u := this.(pssDirty := pssDirty + share);
        if private then u.(privateDirty := privateDirty + size) else u.(sharedDirty := sharedDirty + size)
      else if private then this.(privateClean := privateClean + size)
      else this.(sharedClean := sharedClean + size)
    }

    /** What one page, or a run of `size` bytes, adds to the figures that depend on sharing. */
    function Accumulate(f: Folio, size: nat, share: nat, dirty: bool, locked: bool, private: bool): Stats {
      AddShare(f, share, locked).AddSize(f, size, share, dirty, private)
    }

    /** What depends only on the size and the type of the page. */
    function CountSize(f: Folio, size: nat, young: bool, dirty: bool): Stats {
      var s := if f.anon then this.(anonymous := anonymous + size) else this;
      var t := if f.anon && !f.swapBacked && !dirty && !f.dirty then s.(lazyfree := s.lazyfree + size) else s;
      t.(ksm := t.ksm + (if f.ksm then size else 0), resident := t.resident + size,
         referenced := t.referenced + if young || f.young || f.referenced then size else 0)
    }

    /** The pages `first .. first + n` of the folio one by one. */
    function AccumulatePages(precise: bool, f: Folio, first: nat, n: nat, dirty: bool, locked: bool): Stats
      requires first + n <= |f.mapcounts|
    {
      if n == 0 then this
      else
        var m := MapCount(precise, f, first + n - 1);
        AccumulatePages(precise, f, first, n - 1, dirty, locked)
          .Accumulate(f, PAGE_SIZE, Share(m), dirty, locked, Exclusive(precise, f, first + n - 1))
    }

    function Account(precise: bool, f: Folio, first: nat, n: nat,
                     young: bool, dirty: bool, locked: bool, present: bool): Stats
      requires first + n <= |f.mapcounts|
    {
      var s := CountSize(f, n * PAGE_SIZE, young, dirty);
      if f.refCount == 1 || !present
      then s.Accumulate(f, n * PAGE_SIZE, n * PAGE_PSS, dirty, locked, present)
      else s.AccumulatePages(precise, f, first, n, dirty, locked)
    }

    function CountSwap(mapcount: nat): Stats {
      this.(swap := swap + PAGE_SIZE, swapPss := swapPss + Share(mapcount))
    }

    /** Resident is the sum of the clean and dirty buckets, the proportional size the sum of
        its three kinds, and neither it nor any part of it exceeds what is resident. */
    ghost predicate Conserved() {
      && resident == sharedClean + sharedDirty + privateClean + privateDirty
      && pss == pssAnon + pssFile + pssShmem
      && pss <= resident * PSS_UNIT && pssDirty <= pss && pssLocked <= pss
      && lazyfree <= anonymous <= resident && ksm <= resident && referenced <= resident
      && swapPss <= swap * PSS_UNIT
    }
  }

  const ZERO := Stats(0, 0, 0, 0, 0, 0, 0, 0, 0, 0, 0, 0, 0, 0, 0, 0, 0)

  /** The share of a page that is mapped `mapcount` times. */
  function Share(mapcount: nat): (share: nat)
    ensures share <= PAGE_PSS
  {
    if mapcount >= 2 then PAGE_PSS / mapcount else PAGE_PSS
  }

  function MapCount(precise: bool, f: Folio, page: nat): nat
    requires page < |f.mapcounts|
  {
    if precise then f.mapcounts[page] else f.average
  }

  function Exclusive(precise: bool, f: Folio, page: nat): bool
    requires page < |f.mapcounts|
  {
    if precise then f.mapcounts[page] < 2 else !f.maybeShared
  }

  /** What a page table entry holds. */
  datatype Entry =
    | Nothing
    | PageEntry(folio: Folio, page: nat, young: bool, dirty: bool, present: bool)
    | SwapEntry(mapcount: nat)
    | HugeEntry(folio: Folio, young: bool, dirty: bool, present: bool)

  ghost predicate ValidEntry(e: Entry) {
    (e.PageEntry? ==> e.page < |e.folio.mapcounts|) && (e.HugeEntry? ==> HPAGE_NR <= |e.folio.mapcounts|)
  }

  function Step(precise: bool, st: Stats, e: Entry, locked: bool): Stats
    requires ValidEntry(e)
  {
    match e
    case Nothing => st
    case PageEntry(f, page, young, dirty, present) => st.Account(precise, f, page, 1, young, dirty, locked, present)
    case SwapEntry(mapcount) => st.CountSwap(mapcount)
    case HugeEntry(f, young, dirty, present) => st.Account(precise, f, 0, HPAGE_NR, young, dirty, locked, present)
  }

  function Walk(precise: bool, st: Stats, es: seq<Entry>, locked: bool): Stats
    requires forall e :: e in es ==> ValidEntry(e)
  {
    if es == [] then st else Step(precise, Walk(precise, st, es[..|es| - 1], locked), es[|es| - 1], locked)
  }

  // ---- conservation ----

  /** A run added to what is already counted as resident. */
  lemma AccumulateAdds(st: Stats, f: Folio, size: nat, share: nat, dirty: bool, locked: bool, private: bool)
    ensures var t := st.Accumulate(f, size, share, dirty, locked, private);
      && t.sharedClean + t.sharedDirty + t.privateClean + t.privateDirty
         == st.sharedClean + st.sharedDirty + st.privateClean + st.privateDirty + size
      && t.pss == st.pss + share
      && t.pssAnon + t.pssFile + t.pssShmem == st.pssAnon + st.pssFile + st.pssShmem + share
      && t.pssDirty <= st.pssDirty + share && t.pssLocked <= st.pssLocked + share
      && SameSizes(st, t)
  {
  }

  /** The figures that do not depend on sharing. */
  ghost predicate SameSizes(a: Stats, b: Stats) {
    && a.resident == b.resident && a.referenced == b.referenced && a.anonymous == b.anonymous
    && a.lazyfree == b.lazyfree && a.ksm == b.ksm && a.swap == b.swap && a.swapPss == b.swapPss
  }

  lemma {:induction false} AccumulatePagesAdds(precise: bool, st: Stats, f: Folio, first: nat, n: nat,
                                               dirty: bool, locked: bool)
    requires first + n <= |f.mapcounts|
    ensures var t := st.AccumulatePages(precise, f, first, n, dirty, locked);
      && t.sharedClean + t.sharedDirty + t.privateClean + t.privateDirty
         == st.sharedClean + st.sharedDirty + st.privateClean + st.privateDirty + n * PAGE_SIZE
      && st.pss <= t.pss <= st.pss + n * PAGE_PSS
      && t.pssAnon + t.pssFile + t.pssShmem - t.pss == st.pssAnon + st.pssFile + st.pssShmem - st.pss
      && t.pssDirty - st.pssDirty <= t.pss - st.pss && t.pssLocked - st.pssLocked <= t.pss - st.pss
      && SameSizes(st, t)
  {
    hide Stats.Accumulate;
    if n > 0 {
      AccumulatePagesAdds(precise, st, f, first, n - 1, dirty, locked);
      var s := st.AccumulatePages(precise, f, first, n - 1, dirty, locked);
      AccumulateAdds(s, f, PAGE_SIZE, Share(MapCount(precise, f, first + n - 1)), dirty, locked,
                     Exclusive(precise, f, first + n - 1));
    }
  }

  lemma AccountConserves(precise: bool, st: Stats, f: Folio, first: nat, n: nat,
                         young: bool, dirty: bool, locked: bool, present: bool)
    requires first + n <= |f.mapcounts| && st.Conserved()
    ensures st.Account(precise, f, first, n, young, dirty, locked, present).Conserved()
  {
    hide Stats.Accumulate;
    var s := st.CountSize(f, n * PAGE_SIZE, young, dirty);
    if f.refCount == 1 || !present {
      AccumulateAdds(s, f, n * PAGE_SIZE, n * PAGE_PSS, dirty, locked, present);
    } else {
      AccumulatePagesAdds(precise, s, f, first, n, dirty, locked);
    }
  }

  /** Whatever a walk meets, the laws hold afterwards. */
  lemma {:induction false} WalkConserves(precise: bool, st: Stats, es: seq<Entry>, locked: bool)
    requires st.Conserved() && forall e :: e in es ==> ValidEntry(e)
    ensures Walk(precise, st, es, locked).Conserved()
  {
    hide Stats.Account;
    if es != [] {
      var s := Walk(precise, st, es[..|es| - 1], locked);
      WalkConserves(precise, st, es[..|es| - 1], locked);
      assert ValidEntry(es[|es| - 1]);
      match es[|es| - 1] {
        case Nothing =>
        case PageEntry(f, page, young, dirty, present) =>
          AccountConserves(precise, s, f, page, 1, young, dirty, locked, present);
        case SwapEntry(_) =>
        case HugeEntry(f, young, dirty, present) =>
          AccountConserves(precise, s, f, 0, HPAGE_NR, young, dirty, locked, present);
      }
    }
  }

  // ---- the shortcut ----

  lemma AccumulateTwice(st: Stats, f: Folio, a: nat, b: nat, x: nat, y: nat, dirty: bool, locked: bool, private: bool)
    ensures st.Accumulate(f, a, x, dirty, locked, private).Accumulate(f, b, y, dirty, locked, private)
         == st.Accumulate(f, a + b, x + y, dirty, locked, private)
  {
  }

  lemma AccumulateNothing(st: Stats, f: Folio, dirty: bool, locked: bool, private: bool)
    ensures st.Accumulate(f, 0, 0, dirty, locked, private) == st
  {
  }

  /** Pages that are each mapped once add up to one exclusive run. */
  lemma {:induction false} PagesMappedOnce(st: Stats, f: Folio, first: nat, n: nat, dirty: bool, locked: bool)
    requires first + n <= |f.mapcounts| && forall i :: first <= i < first + n ==> f.mapcounts[i] == 1
    ensures st.AccumulatePages(true, f, first, n, dirty, locked)
         == st.Accumulate(f, n * PAGE_SIZE, n * PAGE_PSS, dirty, locked, true)
  {
    hide Stats.Accumulate;
    if n == 0 {
      AccumulateNothing(st, f, dirty, locked, true);
    } else {
      PagesMappedOnce(st, f, first, n - 1, dirty, locked);
      AccumulateTwice(st, f, (n - 1) * PAGE_SIZE, PAGE_SIZE, (n - 1) * PAGE_PSS, PAGE_PSS, dirty, locked, true);
    }
  }

  lemma IgnoresRefCount(s: Stats, st: Stats, f: Folio, n: nat, young: bool, dirty: bool, locked: bool)
    ensures var one, two := f.(refCount := 1), f.(refCount := 2);
      && st.CountSize(one, n * PAGE_SIZE, young, dirty) == st.CountSize(two, n * PAGE_SIZE, young, dirty)
      && s.Accumulate(one, n * PAGE_SIZE, n * PAGE_PSS, dirty, locked, true)
         == s.Accumulate(two, n * PAGE_SIZE, n * PAGE_PSS, dirty, locked, true)
  {
  }

  /** The shortcut for a reference count of one gives what the page-by-page loop gives when
      every page is mapped once. */
  lemma ShortcutIsTheLoop(st: Stats, f: Folio, first: nat, n: nat, young: bool, dirty: bool, locked: bool)
    requires first + n <= |f.mapcounts| && forall i :: first <= i < first + n ==> f.mapcounts[i] == 1
    ensures st.Account(true, f.(refCount := 1), first, n, young, dirty, locked, true)
         == st.Account(true, f.(refCount := 2), first, n, young, dirty, locked, true)
  {
    hide Stats.Accumulate, Stats.CountSize;
    var g := f.(refCount := 2);
    IgnoresRefCount(st.CountSize(g, n * PAGE_SIZE, young, dirty), st, f, n, young, dirty, locked);
    PagesMappedOnce(st.CountSize(g, n * PAGE_SIZE, young, dirty), g, first, n, dirty, locked);
  }

  class MemSizeStats {
    var resident: nat
    var sharedClean: nat
    var sharedDirty: nat
    var privateClean: nat
    var privateDirty: nat
    var referenced: nat
    var anonymous: nat
    var lazyfree: nat
    var ksm: nat
    var swap: nat
    var pss: nat
    var pssAnon: nat
    var pssFile: nat
    var pssShmem: nat
    var pssDirty: nat
    var pssLocked: nat
    var swapPss: nat

    ghost function State(): Stats
      reads this
    {
      Stats(resident, sharedClean, sharedDirty, privateClean, privateDirty, referenced, anonymous, lazyfree,
            ksm, swap, pss, pssAnon, pssFile, pssShmem, pssDirty, pssLocked, swapPss)
    }

    constructor ()
      ensures State() == ZERO
    {
      resident, sharedClean, sharedDirty, privateClean, privateDirty := 0, 0, 0, 0, 0;
      referenced, anonymous, lazyfree, ksm, swap := 0, 0, 0, 0, 0;
      pss, pssAnon, pssFile, pssShmem, pssDirty, pssLocked, swapPss := 0, 0, 0, 0, 0, 0, 0;
    }

    method AddShare(f: Folio, share: nat, locked: bool)
      modifies this
      ensures State() == old(State()).AddShare(f, share, locked)
    {
      pss := pss + share;
      if f.anon {
        pssAnon := pssAnon + share;
      } else if f.swapBacked {
        pssShmem := pssShmem + share;
      } else {
        pssFile := pssFile + share;
      }
      if locked {
        pssLocked := pssLocked + share;
      }
    }

    method AddSize(f: Folio, size: nat, share: nat, dirty: bool, private: bool)
      modifies this
      ensures State() == old(State()).AddSize(f, size, share, dirty, private)
    {
      if dirty || f.dirty {
        pssDirty := pssDirty + share;
        if private {
          privateDirty := privateDirty + size;
        } else {
          sharedDirty := sharedDirty + size;
        }
      } else if private {
        privateClean := privateClean + size;
      } else {
        sharedClean := sharedClean + size;
      }
    }

    method PageAccumulate(f: Folio, size: nat, share: nat, dirty: bool, locked: bool, private: bool)
      modifies this
      ensures State() == old(State()).Accumulate(f, size, share, dirty, locked, private)
    {
      hide Stats.AddShare, Stats.AddSize;
      AddShare(f, share, locked);
      AddSize(f, size, share, dirty, private);
    }

    /** The part of the accounting for anonymous folios. */
    method CountAnon(f: Folio, size: nat, dirty: bool)
      requires f.anon
      modifies this
      ensures State() == old(State()).(anonymous := old(anonymous) + size,
                lazyfree := old(lazyfree) + if !f.swapBacked && !dirty && !f.dirty then size else 0)
    {
      anonymous := anonymous + size;
      if !f.swapBacked && !dirty && !f.dirty {
        lazyfree := lazyfree + size;
      }
    }

    method CountSize(f: Folio, size: nat, young: bool, dirty: bool)
      modifies this
      ensures State() == old(State()).CountSize(f, size, young, dirty)
    {
      if f.anon {
        CountAnon(f, size, dirty);
      }
      if f.ksm {
        ksm := ksm + size;
      }
      resident := resident + size;
      if young || f.young || f.referenced {
        referenced := referenced + size;
      }
    }

    method Account(precise: bool, f: Folio, first: nat, n: nat,
                   young: bool, dirty: bool, locked: bool, present: bool)
      requires first + n <= |f.mapcounts|
      modifies this
      ensures State() == old(State()).Account(precise, f, first, n, young, dirty, locked, present)
    {
      hide Stats.CountSize, Stats.Accumulate, Stats.AccumulatePages;
      CountSize(f, n * PAGE_SIZE, young, dirty);
      if f.refCount == 1 || !present {
        PageAccumulate(f, n * PAGE_SIZE, n * PAGE_PSS, dirty, locked, present);
        return;
      }
      AccountPages(precise, f, first, n, dirty, locked);
    }

    method AccountPages(precise: bool, f: Folio, first: nat, n: nat, dirty: bool, locked: bool)
      requires first + n <= |f.mapcounts|
      modifies this
      ensures State() == old(State()).AccumulatePages(precise, f, first, n, dirty, locked)
    {
      hide Stats.Accumulate;
      for i := 0 to n
        invariant State() == old(State()).AccumulatePages(precise, f, first, i, dirty, locked)
      {
        var share := PAGE_PSS;
        var mapcount := MapCount(precise, f, first + i);
        if mapcount >= 2 {
          share := share / mapcount;
        }
        PageAccumulate(f, PAGE_SIZE, share, dirty, locked, Exclusive(precise, f, first + i));
      }
    }

    method CountEntry(precise: bool, e: Entry, locked: bool)
      requires ValidEntry(e)
      modifies this
      ensures State() == Step(precise, old(State()), e, locked)
    {
      hide Stats.Account;
      match e {
        case Nothing =>
        case PageEntry(f, page, young, dirty, present) =>
          Account(precise, f, page, 1, young, dirty, locked, present);
        case SwapEntry(mapcount) =>
          swap := swap + PAGE_SIZE;
          swapPss := swapPss + Share(mapcount);
        case HugeEntry(f, young, dirty, present) =>
          Account(precise, f, 0, HPAGE_NR, young, dirty, locked, present);
      }
    }

    /** The loop over the entries of a range: from empty statistics it leaves conserved ones. */
    method WalkRange(precise: bool, es: seq<Entry>, locked: bool)
      requires (forall e :: e in es ==> ValidEntry(e)) && State().Conserved()
      modifies this
      ensures State() == Walk(precise, old(State()), es, locked) && State().Conserved()
    {
      hide Step, Stats.Conserved;
      for i := 0 to |es|
        invariant State() == Walk(precise, old(State()), es[..i], locked)
      {
        assert es[..i + 1][..i] == es[..i] && ValidEntry(es[i]);
        CountEntry(precise, es[i], locked);
      }
      assert es[..|es|] == es;
      WalkConserves(precise, old(State()), es, locked);
    }
  }
}
