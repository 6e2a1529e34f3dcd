/** The proportional set size over all processes: every page is shared out among those that
    map it, and what is lost to rounding is bounded. */
module Pss {
  import opened Kernel
  import opened Smaps

  /** A page of some folio, and the processes that map it, each of them once; processes are
      numbered. `touched` are those whose PTE is young, `written` those whose PTE is dirty. */
  datatype Page = Page(mappers: set<nat>, folio: Folio, index: nat, touched: set<nat>, written: set<nat>)

  /** The precise mapcount is the number of mappers, and a folio with a single reference has
      no page with more than one. */
  ghost predicate ValidPage(m: Page) {
    && m.index < |m.folio.mapcounts| && m.folio.mapcounts[m.index] == |m.mappers|
    && (m.folio.refCount == 1 ==> |m.mappers| <= 1)
  }

  type Pages = ms: seq<Page> | forall m :: m in ms ==> ValidPage(m) witness []

  ghost predicate MappedBelow(ms: Pages, procs: nat) {
    forall m :: m in ms ==> m.mappers != {} && forall p :: p in m.mappers ==> p < procs
  }

  /** The page as the walk of one of its processes meets it: mapped by a PTE. */
  function EntryOf(m: Page, p: nat): Entry {
    if p in m.mappers then PageEntry(m.folio, m.index, p in m.touched, p in m.written, true) else Nothing
  }

  function EntriesOf(ms: Pages, p: nat): (es: seq<Entry>)
    ensures forall e :: e in es ==> ValidEntry(e)
  {
    if ms == [] then [] else EntriesOf(ms[..|ms| - 1], p) + [EntryOf(ms[|ms| - 1], p)]
  }

  /** The proportional set size smaps reports for process `p`. */
  function PssOf(ms: Pages, p: nat): nat {
    Walk(true, ZERO, EntriesOf(ms, p), false).pss
  }

  /** The sum over the first `procs` processes. */
  function TotalPss(ms: Pages, procs: nat): nat {
    if procs == 0 then 0 else TotalPss(ms, procs - 1) + PssOf(ms, procs - 1)
  }

  /** The sum of the numbers of mappers. */
  function TotalMappers(ms: Pages): nat {
    if ms == [] then 0 else TotalMappers(ms[..|ms| - 1]) + |ms[|ms| - 1].mappers|
  }

  /** A page adds its share to the figure of each process that maps it. */
  lemma PssOfPush(ms: Pages, p: nat)
    requires ms != []
    ensures var m := ms[|ms| - 1];
            PssOf(ms, p) == PssOf(ms[..|ms| - 1], p) + if p in m.mappers then Share(|m.mappers|) else 0
  {
    hide Share;
    var m := ms[|ms| - 1];
    assert m in ms;
    var es, init := EntriesOf(ms, p), EntriesOf(ms[..|ms| - 1], p);
    assert es[..|es| - 1] == init && es[|es| - 1] == EntryOf(m, p);
    var st := Walk(true, ZERO, init, false);
    StepAddsShare(st, m, p);
  }

  lemma StepAddsShare(st: Stats, m: Page, p: nat)
    requires ValidPage(m)
    ensures ValidEntry(EntryOf(m, p))
    ensures Step(true, st, EntryOf(m, p), false).pss == st.pss + if p in m.mappers then Share(|m.mappers|) else 0
  {
    if p in m.mappers && m.folio.refCount != 1 {
      var e := EntryOf(m, p);
      var s := st.CountSize(e.folio, PAGE_SIZE, e.young, e.dirty);
      assert s.AccumulatePages(true, e.folio, m.index, 0, e.dirty, false) == s;
    }
  }

  /** How many of the first `procs` processes are in the set. */
  function CountIn(m: set<nat>, procs: nat): nat {
    if procs == 0 then 0 else CountIn(m, procs - 1) + if procs - 1 in m then 1 else 0
  }

  lemma {:induction false} CountInIsSize(m: set<nat>, procs: nat)
    requires forall p :: p in m ==> p < procs
    ensures CountIn(m, procs) == |m|
  {
    if procs == 0 {
      assert m == {};
    } else {
      var rest := m - {procs - 1};
      CountInIsSize(rest, procs - 1);
      CountInAgrees(m, rest, procs - 1);
    }
  }

  lemma {:induction false} CountInAgrees(a: set<nat>, b: set<nat>, procs: nat)
    requires forall p :: p < procs ==> (p in a <==> p in b)
    ensures CountIn(a, procs) == CountIn(b, procs)
  {
    if procs > 0 {
      CountInAgrees(a, b, procs - 1);
    }
  }

  /** Summing over processes and summing over pages is the same: a page adds its share once
      for each process that maps it. */
  lemma {:induction false} TotalPssPush(ms: Pages, procs: nat)
    requires ms != []
    ensures var m := ms[|ms| - 1];
            TotalPss(ms, procs) == TotalPss(ms[..|ms| - 1], procs) + CountIn(m.mappers, procs) * Share(|m.mappers|)
  {
    hide PssOf, Share;
    if procs > 0 {
      TotalPssPush(ms, procs - 1);
      PssOfPush(ms, procs - 1);
      var m := ms[|ms| - 1];
      Distribute(CountIn(m.mappers, procs - 1), if procs - 1 in m.mappers then 1 else 0, Share(|m.mappers|));
    }
  }

  lemma Distribute(a: nat, b: nat, c: nat)
    ensures (a + b) * c == a * c + b * c
  {
  }

  /** The shares of one page add up to a page, short by less than their number. */
  lemma SharesOfOnePage(m: nat)
    requires m >= 1
    ensures PAGE_PSS - m < m * Share(m) <= PAGE_PSS
  {
    if m >= 2 {
      assert PAGE_PSS == m * (PAGE_PSS / m) + PAGE_PSS % m;
    }
  }

  lemma {:induction false} TotalOfNothing(procs: nat)
    ensures TotalPss([], procs) == 0
  {
    if procs > 0 {
      TotalOfNothing(procs - 1);
    }
  }

  /** Over all processes the proportional set sizes add up to at most the pages there are,
      and fall short of them by less than the sum of the numbers of mappers. */
  lemma {:induction false} TotalPssBounds(ms: Pages, procs: nat)
    requires MappedBelow(ms, procs)
    ensures TotalPss(ms, procs) <= |ms| * PAGE_PSS <= TotalPss(ms, procs) + TotalMappers(ms)
    ensures ms != [] ==> |ms| * PAGE_PSS < TotalPss(ms, procs) + TotalMappers(ms)
  {
    hide PssOf, Share, TotalPss;
    if ms == [] {
      TotalOfNothing(procs);
    } else {
      var n := |ms| - 1;
      var m := ms[n];
      assert m in ms;
      forall x | x in ms[..n]
        ensures x in ms
      {
      }
      TotalPssBounds(ms[..n], procs);
      TotalPssPush(ms, procs);
      CountInIsSize(m.mappers, procs);
      NotEmpty(m.mappers);
      SharesOfOnePage(|m.mappers|);
    }
  }

  // ---- private and shared ----

  /** How many pages process `p` maps: those it maps alone, or those it maps with others, and of
      these the dirty or the clean ones. */
  function CountMapped(ms: Pages, p: nat, alone: bool, dirty: bool): nat {
    if ms == [] then 0
    else
      var m := ms[|ms| - 1];
      CountMapped(ms[..|ms| - 1], p, alone, dirty)
      + if p in m.mappers && (m.mappers == {p}) == alone && (p in m.written || m.folio.dirty) == dirty then 1 else 0
  }

  /** A page that only one process maps is private in its smaps, a page that more than one
      process maps is shared in the smaps of each of them; nothing else is in any of the four. */
  lemma {:induction false} PrivateIffMappedAlone(ms: Pages, p: nat)
    ensures var st := Walk(true, ZERO, EntriesOf(ms, p), false);
      && st.privateClean == CountMapped(ms, p, true, false) * PAGE_SIZE
      && st.privateDirty == CountMapped(ms, p, true, true) * PAGE_SIZE
      && st.sharedClean == CountMapped(ms, p, false, false) * PAGE_SIZE
      && st.sharedDirty == CountMapped(ms, p, false, true) * PAGE_SIZE
  {
    hide Step;
    if ms != [] {
      var m, init := ms[|ms| - 1], ms[..|ms| - 1];
      assert m in ms;
      PrivateIffMappedAlone(init, p);
      var es := EntriesOf(ms, p);
      assert es[..|es| - 1] == EntriesOf(init, p) && es[|es| - 1] == EntryOf(m, p);
      StepAddsPage(Walk(true, ZERO, EntriesOf(init, p), false), m, p);
    }
  }

  lemma StepAddsPage(st: Stats, m: Page, p: nat)
    requires ValidPage(m)
    ensures ValidEntry(EntryOf(m, p))
    ensures var t, size := Step(true, st, EntryOf(m, p), false), if p in m.mappers then PAGE_SIZE else 0;
            var alone, dirty := m.mappers == {p}, p in m.written || m.folio.dirty;
      && t.privateClean == st.privateClean + (if alone && !dirty then size else 0)
      && t.privateDirty == st.privateDirty + (if alone && dirty then size else 0)
      && t.sharedClean == st.sharedClean + (if !alone && !dirty then size else 0)
      && t.sharedDirty == st.sharedDirty + (if !alone && dirty then size else 0)
  {
    if p in m.mappers {
      AloneMeansOne(m.mappers, p);
      var e := EntryOf(m, p);
      var s := st.CountSize(e.folio, PAGE_SIZE, e.young, e.dirty);
      assert s.AccumulatePages(true, e.folio, m.index, 0, e.dirty, false) == s;
    }
  }

  lemma AloneMeansOne(m: set<nat>, p: nat)
    requires p in m
    ensures m == {p} <==> |m| <= 1
  {
    assert |m - {p}| + 1 == |m|;
    assert m == m - {p} + {p};
  }

  lemma NotEmpty(m: set<nat>)
    requires m != {}
    ensures |m| >= 1
  {
    var p :| p in m;
    assert |m - {p}| + 1 == |m|;
  }
}
