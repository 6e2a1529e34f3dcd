/** A rollup that counts pages twice: while the lock is dropped the only mapping grows, and its
    pages become a huge page around the position of the rollup. */
module GrownMapping {
  import opened Kernel
  import opened AddressSpace
  import opened Smaps
  import opened SmapsTally
  import opened SmapsWalk
  import opened SmapsRollup

  const HALF := Vma(512, 768, false, true, true, false, false, false, false)
  const WHOLE := Vma(512, 1024, false, true, true, false, false, false, false)

  function OwnFolio(pages: nat): Folio {
    Folio(true, true, false, false, false, false, 1, seq(pages, _ => 1), 1, false)
  }

  function Growing(time: nat): Snapshot { if time == 0 then [HALF] else [WHOLE] }

  function Collapsing(time: nat, page: nat): Slot {
    if time == 0 then Small(if 512 <= page < 768 then PageEntry(OwnFolio(1), 0, false, false, true) else Nothing)
    else if 512 <= page < 1024 then Huge(HugeEntry(OwnFolio(HPAGE_NR), false, false, true))
    else Small(Nothing)
  }

  ghost function GrowingWorld(): World { World(Growing, Collapsing) }

  /** The lock is wanted once, after the first VMA. */
  function OneBreak(): Rounds { Rounds(round => round == 0, _ => 1, _ => false) }

  lemma GrowingIsBounded()
    ensures Bounded(GrowingWorld(), 1024)
  {
    var w := GrowingWorld();
    forall t, x
      ensures ValidSlot(w.memory(t, x))
      ensures w.memory(t, x).Huge? ==> InOneVma(w.history(t), x)
    {
    }
    forall t, x, y | w.memory(t, x).Huge? && InBlock(y, Base(x))
      ensures w.memory(t, y) == w.memory(t, x)
    {
    }
  }

  /** The two steps of the rollup. */
  function FirstStep(): Pass { Pass(0, HALF, 0) }
  function SecondStep(): Pass { Pass(768, WHOLE, 1) }

  lemma GrowingRun()
    ensures Bounded(GrowingWorld(), 1024)
    ensures Run(GrowingWorld(), OneBreak(), 1024, 0, 0, 0) == Rollup(0, [FirstStep(), SecondStep()], 1)
  {
    hide Run, Bounded;
    var w, r := GrowingWorld(), OneBreak();
    GrowingIsBounded();
    RunStep(w, r, 1024, 0, 0, 0);
    RunStep(w, r, 1024, 1, 1, 1024);
    assert FirstAfter([HALF], 0) == Some(HALF) && FirstAfter([WHOLE], 768) == Some(WHOLE);
    assert FirstAfter([WHOLE], 1024) == None;
  }

  /** Each of the pages is counted. */
  lemma {:induction false} PagesCounted(precise: bool, time: nat, lo: nat, hi: nat)
    requires ValidMemory(Collapsing) && 512 <= lo <= hi <= if time == 0 then 768 else 1024
    ensures Sum(CountedPages(precise, Collapsing, time, lo, hi), Resident) == (hi - lo) * PAGE_SIZE
  {
    hide ValidMemory;
    if lo < hi {
      PagesCounted(precise, time, lo, hi - 1);
      var cs, page := CountedPages(precise, Collapsing, time, lo, hi - 1), hi - 1;
      var at := CountedAt(precise, Collapsing, time, page);
      OnePage(precise, time, page);
      SumPush(cs, at[0], Resident);
      assert cs + at == cs + [at[0]];
    }
  }

  lemma OnePage(precise: bool, time: nat, page: nat)
    requires ValidMemory(Collapsing) && 512 <= page < if time == 0 then 768 else 1024
    ensures var at := CountedAt(precise, Collapsing, time, page); |at| == 1 && Resident(at[0]) == PAGE_SIZE
  {
    var at := CountedAt(precise, Collapsing, time, page);
    if time == 0 {
      var e := Collapsing(time, page).entry;
      assert at == PagesOf(precise, e.folio, 0, 1, false, false, true);
      assert PagesOf(precise, e.folio, 0, 0, false, false, true) == [];
    }
  }

  lemma StaysMapped(time: nat)
    ensures Mapped(Growing(time), 600)
  {
    var s := Growing(time);
    assert |s| == 1 && Covers(s[0], 600);
  }

  /** Page 600 is mapped all the time and counted by both steps; in all the rollup reports 768
      pages, where there never were more than 512. */
  lemma GrownMappingIsCountedTwice(precise: bool)
    ensures Bounded(GrowingWorld(), 1024)
    ensures var w := GrowingWorld(); var passes := Run(w, OneBreak(), 1024, 0, 0, 0).passes;
      && passes == [FirstStep(), SecondStep()]
      && Counts(w, passes[0], 600) && Counts(w, passes[1], 600) && StartsInside(w, passes[1])
      && (forall t :: Mapped(w.history(t), 600))
      && Gathered(precise, w, passes).resident == 768 * PAGE_SIZE
  {
    hide Run, Bounded, Gathered, ValidMemory, CountedPages, Total;
    GrowingRun();
    var w := GrowingWorld();
    forall t
      ensures Mapped(w.history(t), 600)
    {
      StaysMapped(t);
    }
    StepsTotal(precise);
  }

  lemma StepsTotal(precise: bool)
    ensures ValidWorld(GrowingWorld())
    ensures Gathered(precise, GrowingWorld(), [FirstStep(), SecondStep()]).resident == 768 * PAGE_SIZE
  {
    hide ValidMemory, ValidWorld, Gathered, CountedPages, TotalOfSteps;
    GrowingIsBounded();
    BoundedIsValid(GrowingWorld(), 1024);
    ValidWorldHasMemory();
    GrowingTrace();
    var first, both := [FirstStep()], [FirstStep(), SecondStep()];
    RollupIsTheTotal(precise, GrowingWorld(), both);
    LastOfTotal(precise, GrowingWorld(), both);
    LastOfTotal(precise, GrowingWorld(), first);
    NoneOfTotal(precise, GrowingWorld(), first[..0]);
    assert both[..1] == first;
    PagesCounted(precise, 0, 512, 768);
    PagesCounted(precise, 1, 512, 1024);
  }

  lemma ValidWorldHasMemory()
    requires ValidWorld(GrowingWorld())
    ensures ValidMemory(Collapsing)
  {
  }

  lemma GrowingTrace()
    ensures Trace(Growing, [FirstStep(), SecondStep()])
  {
    assert FirstAfter([HALF], 0) == Some(HALF) && FirstAfter([WHOLE], 768) == Some(WHOLE);
  }

  lemma LastOfTotal(precise: bool, w: World, passes: seq<Pass>)
    requires ValidWorld(w) && passes != []
    ensures var p := passes[|passes| - 1];
            var first := FirstCounted(w.memory, p.time, WalkStart(p));
      TotalOfSteps(precise, w, passes).resident == TotalOfSteps(precise, w, passes[..|passes| - 1]).resident
        + Sum(CountedPages(precise, w.memory, p.time, first, p.vma.end), Resident)
  {
    hide ValidMemory, InOneVma, CountedPages;
  }

  lemma NoneOfTotal(precise: bool, w: World, passes: seq<Pass>)
    requires ValidWorld(w) && passes == []
    ensures TotalOfSteps(precise, w, passes).resident == 0
  {
    hide ValidMemory, InOneVma, CountedPages;
  }
}
