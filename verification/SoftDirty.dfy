/** Writing to /proc/pid/clear_refs, and the soft-dirty tracking that is built on it: a page
    written since the bits were last cleared is to show up as soft-dirty in pagemap. Whether
    it does is a matter of the page's entry and VMA (`NoWriteIsLost`). */
module SoftDirty {
  import opened Kernel

  const CLEAR_REFS_ALL := 1
  const CLEAR_REFS_ANON := 2
  const CLEAR_REFS_MAPPED := 3
  const CLEAR_REFS_SOFT_DIRTY := 4
  const CLEAR_REFS_MM_HIWATER_RSS := 5
  const CLEAR_REFS_LAST := 6

  datatype Vma = Vma(softDirty: bool, pfnmap: bool, file: bool)

  /** A page table entry. `folio` holds when it maps a normal page; `pinned` for such a page
      of a copy-on-write mapping that may be pinned for DMA. */
  datatype Leaf =
    | Empty
    | Mapped(write: bool, softDirty: bool, dirty: bool, young: bool, folio: bool, pinned: bool)
    | Swapped(softDirty: bool, migration: bool)

  /** An entry of the page tables, at PTE or PMD level, with the VMA it belongs to. */
  datatype Entry = Entry(vma: nat, huge: bool, leaf: Leaf)

  datatype Mem = Mem(vmas: seq<Vma>, entries: seq<Entry>) {
    ghost predicate Valid() {
      forall i :: 0 <= i < |entries| ==> entries[i].vma < |vmas|
    }

    /** The soft-dirty bit pagemap shows. Its walk does not look at the entries of PFN
        mappings; there only the VMA tells. */
    predicate Shows(i: nat)
      requires i < |entries| && entries[i].vma < |vmas|
    {
      vmas[entries[i].vma].softDirty || (!vmas[entries[i].vma].pfnmap && SoftDirtyLeaf(entries[i].leaf))
    }

    /** The page can be written without a fault, and its entry will not tell. */
    predicate Silent(i: nat)
      requires i < |entries|
    {
      entries[i].leaf.Mapped? && entries[i].leaf.write && !entries[i].leaf.softDirty
    }

    /** A clearing takes the permission to write away, so that the next write faults; `pins`
        tells that the page may be pinned before. */
    predicate Disarmed(i: nat, pins: bool)
      requires i < |entries|
    {
      entries[i].huge || (!pins && entries[i].leaf.Mapped? && !entries[i].leaf.pinned)
    }

    /** After a clearing a write to the page shows. */
    predicate Catches(i: nat)
      requires i < |entries| && entries[i].vma < |vmas|
    {
      !vmas[entries[i].vma].pfnmap && (Silent(i) ==> Disarmed(i, false))
    }

    /** No write to the page goes unnoticed: it is in no PFN mapping, and it is not silent, or
        its VMA tells until the next clearing disarms it. */
    predicate TrackedAt(i: nat, pins: bool)
      requires i < |entries| && entries[i].vma < |vmas|
    {
      !vmas[entries[i].vma].pfnmap && (Silent(i) ==> vmas[entries[i].vma].softDirty && Disarmed(i, pins))
    }
  }

  predicate SoftDirtyLeaf(leaf: Leaf) { !leaf.Empty? && leaf.softDirty }

  // ---- clearing ----

  function ClearPte(leaf: Leaf): Leaf {
    match leaf
    case Empty => leaf
    case Mapped(write, _, dirty, young, folio, pinned) =>
      if write && pinned then leaf else Mapped(false, false, dirty, young, folio, pinned)
    case Swapped(_, migration) => Swapped(false, migration)
  }

  /** At PMD level pinning plays no part, and of the entries that are not present only those
      of a migration are cleared. */
  function ClearPmd(leaf: Leaf): Leaf {
    match leaf
    case Empty => leaf
    case Mapped(_, _, dirty, young, folio, pinned) => Mapped(false, false, dirty, young, folio, pinned)
    case Swapped(_, migration) => if migration then Swapped(false, migration) else leaf
  }

  /** A PTE that maps no normal page is left alone; a huge page is not asked. */
  function ClearYoung(huge: bool, leaf: Leaf): Leaf {
    match leaf
    case Mapped(write, softDirty, dirty, young, folio, pinned) =>
      Mapped(write, softDirty, dirty, young && !huge && !folio, folio, pinned)
    case _ => leaf
  }

  /** The VMAs the walk leaves out. */
  predicate Skips(kind: int, v: Vma) {
    || v.pfnmap
    || (kind == CLEAR_REFS_ANON && v.file)
    || (kind == CLEAR_REFS_MAPPED && !v.file)
  }

  function ClearLeaf(kind: int, e: Entry): Leaf {
    if kind != CLEAR_REFS_SOFT_DIRTY then ClearYoung(e.huge, e.leaf)
    else if e.huge then ClearPmd(e.leaf)
    else ClearPte(e.leaf)
  }

  function ClearVmas(vmas: seq<Vma>): seq<Vma> {
    seq(|vmas|, i requires 0 <= i < |vmas| => vmas[i].(softDirty := false))
  }

  /** What a write of `kind` to clear_refs does. */
  function Cleared(kind: int, m: Mem): Mem
    requires forall i :: 0 <= i < |m.entries| ==> m.entries[i].vma < |m.vmas|
  {
    if kind == CLEAR_REFS_MM_HIWATER_RSS then m
    else
      Mem(if kind == CLEAR_REFS_SOFT_DIRTY then ClearVmas(m.vmas) else m.vmas,
          seq(|m.entries|, i requires 0 <= i < |m.entries| => ClearedEntry(kind, m, i)))
  }

  function ClearedEntry(kind: int, m: Mem, i: nat): Entry
    requires i < |m.entries| && m.entries[i].vma < |m.vmas|
  {
    var e := m.entries[i];
    if Skips(kind, m.vmas[e.vma]) then e else e.(leaf := ClearLeaf(kind, e))
  }

  /** What a request of each kind does to a page and to its VMA. Kinds 1, 2 and 3 take the young
      bit away, from all pages, from those of anonymous mappings, and from those of file mappings;
      kind 4 takes the soft-dirty bits and the permission to write; kind 5 does nothing to them. */
  lemma ClearsByKind(kind: int, m: Mem, i: nat)
    requires m.Valid() && i < |m.entries| && 1 <= kind <= 5
    ensures Cleared(kind, m).Valid() && |Cleared(kind, m).entries| == |m.entries|
    ensures var e, c, v := m.entries[i], Cleared(kind, m).entries[i], m.vmas[m.entries[i].vma];
      && c.vma == e.vma && c.huge == e.huge && (kind == 5 || v.pfnmap ==> c.leaf == e.leaf)
      && (kind <= 3 && !e.leaf.Mapped? ==> c.leaf == e.leaf)
      && (kind <= 3 && e.leaf.Mapped? ==>
            && c.leaf.Mapped? && e.leaf == c.leaf.(young := e.leaf.young)
            && (c.leaf.young <==> e.leaf.young && (v.pfnmap || (kind == 2 && v.file) || (kind == 3 && !v.file)
                                                   || (!e.huge && !e.leaf.folio))))
      && (kind == 4 && e.leaf.Empty? ==> c.leaf == e.leaf)
      && (kind == 4 && e.leaf.Mapped? ==>
            var kept := v.pfnmap || (e.leaf.write && e.leaf.pinned && !e.huge);
            && c.leaf.Mapped? && e.leaf == c.leaf.(write := e.leaf.write, softDirty := e.leaf.softDirty)
            && (c.leaf.write <==> e.leaf.write && kept) && (c.leaf.softDirty <==> e.leaf.softDirty && kept))
      && (kind == 4 && e.leaf.Swapped? ==>
            && c.leaf.Swapped? && c.leaf.migration == e.leaf.migration
            && (c.leaf.softDirty <==> e.leaf.softDirty && (v.pfnmap || (e.huge && !e.leaf.migration))))
    ensures var v, c := m.vmas[m.entries[i].vma], Cleared(kind, m).vmas[m.entries[i].vma];
            v == c.(softDirty := v.softDirty) && (c.softDirty <==> v.softDirty && kind != 4)
  {
  }

  class Tracker {
    var vmas: seq<Vma>
    var entries: seq<Entry>

    ghost function State(): Mem
      reads this
    {
      Mem(vmas, entries)
    }

    constructor (m: Mem)
      ensures State() == m
    {
      vmas, entries := m.vmas, m.entries;
    }

    /** A write to clear_refs, after its text was parsed; `killed` tells that the lock could
        not be taken. */
    method ClearRefsWrite(kind: int, killed: bool) returns (ret: int)
      requires State().Valid()
      modifies this
      ensures State().Valid()
      ensures kind < CLEAR_REFS_ALL || CLEAR_REFS_LAST <= kind ==> ret == -EINVAL && State() == old(State())
      ensures CLEAR_REFS_ALL <= kind < CLEAR_REFS_LAST && killed ==> ret == -EINTR && State() == old(State())
      ensures CLEAR_REFS_ALL <= kind < CLEAR_REFS_LAST && !killed ==>
                ret == 0 && State() == Cleared(kind, old(State()))
    {
      if kind < CLEAR_REFS_ALL || kind >= CLEAR_REFS_LAST {
        return -EINVAL;
      }
      if killed {
        return -EINTR;
      }
      if kind == CLEAR_REFS_MM_HIWATER_RSS {
        return 0;
      }
      if kind == CLEAR_REFS_SOFT_DIRTY {
        ClearVmaFlags();
      }
      ClearEntries(kind, old(State()));
      return 0;
    }

    method ClearVmaFlags()
      modifies this`vmas
      ensures vmas == ClearVmas(old(vmas))
    {
      for i := 0 to |vmas|
        invariant |vmas| == |old(vmas)|
        invariant forall k :: 0 <= k < |vmas| ==>
                    vmas[k] == if k < i then old(vmas)[k].(softDirty := false) else old(vmas)[k]
      {
        if vmas[i].softDirty {
          vmas := vmas[i := vmas[i].(softDirty := false)];
        }
      }
    }

    method ClearEntries(kind: int, ghost before: Mem)
      requires before.Valid() && entries == before.entries && |vmas| == |before.vmas|
      requires forall k :: 0 <= k < |vmas| ==> Skips(kind, vmas[k]) == Skips(kind, before.vmas[k])
      modifies this`entries
      ensures |entries| == |before.entries|
      ensures forall k :: 0 <= k < |entries| ==> entries[k] == ClearedEntry(kind, before, k)
    {
      for i := 0 to |entries|
        invariant |entries| == |before.entries|
        invariant forall k :: 0 <= k < |entries| ==>
                    entries[k] == if k < i then ClearedEntry(kind, before, k) else before.entries[k]
      {
        var e := entries[i];
        if !Skips(kind, vmas[e.vma]) {
          entries := entries[i := e.(leaf := ClearLeaf(kind, e))];
        }
      }
    }
  }

  // ---- runs ----

  /** What happens to an address space between two looks at it. */
  datatype Event =
    | Write(entry: nat)
    | Unmap(entry: nat)
    | Pin(entry: nat, pinned: bool)
    | Clear(kind: int)

  /** A write to a page: directly if the entry allows it, else through a fault, which makes
      the entry writable, dirty and soft-dirty. */
  function WriteLeaf(leaf: Leaf): Leaf {
    match leaf
    case Mapped(write, softDirty, _, _, folio, pinned) => Mapped(true, !write || softDirty, true, true, folio, pinned)
    case _ => Mapped(true, true, true, true, true, false)
  }

  /** The page is swapped out or migrated; its soft-dirty bit goes along. */
  function UnmapLeaf(e: Entry): Leaf {
    match e.leaf
    case Mapped(_, softDirty, _, _, _, _) => Swapped(softDirty, e.huge)
    case _ => e.leaf
  }

  /** The page is pinned for DMA, or let go again. */
  function PinLeaf(leaf: Leaf, pinned: bool): Leaf {
    if leaf.Mapped? then leaf.(pinned := pinned) else leaf
  }

  function Happen(m: Mem, ev: Event): Mem
    requires forall i :: 0 <= i < |m.entries| ==> m.entries[i].vma < |m.vmas|
  {
    match ev
    case Write(i) =>
      if i < |m.entries| then m.(entries := m.entries[i := m.entries[i].(leaf := WriteLeaf(m.entries[i].leaf))]) else m
    case Unmap(i) =>
      if i < |m.entries| then m.(entries := m.entries[i := m.entries[i].(leaf := UnmapLeaf(m.entries[i]))]) else m
    case Pin(i, pinned) =>
      if i < |m.entries| then m.(entries := m.entries[i := m.entries[i].(leaf := PinLeaf(m.entries[i].leaf, pinned))])
      else m
    case Clear(kind) => Cleared(kind, m)
  }

  /** The address space after the events. */
  function Run(m: Mem, evs: seq<Event>): (r: Mem)
    requires forall i :: 0 <= i < |m.entries| ==> m.entries[i].vma < |m.vmas|
    ensures |r.entries| == |m.entries| && |r.vmas| == |m.vmas|
    ensures forall i :: 0 <= i < |r.entries| ==> r.entries[i].vma == m.entries[i].vma < |r.vmas|
  {
    if evs == [] then m else Happen(Run(m, evs[..|evs| - 1]), evs[|evs| - 1])
  }

  predicate ClearsSoftDirty(ev: Event) { ev == Clear(CLEAR_REFS_SOFT_DIRTY) }

  /** The page was written after the last time the soft-dirty bits were cleared. */
  predicate WrittenSinceClear(evs: seq<Event>, i: nat) {
    evs != [] && !ClearsSoftDirty(evs[|evs| - 1])
    && (evs[|evs| - 1] == Write(i) || WrittenSinceClear(evs[..|evs| - 1], i))
  }

  /** The entry and its VMA after an event. */
  lemma HappenAt(m: Mem, ev: Event, i: nat)
    requires m.Valid() && i < |m.entries|
    ensures var n, e := Happen(m, ev), m.entries[i];
      && n.Valid() && |n.entries| == |m.entries| && n.entries[i].vma == e.vma && n.entries[i].huge == e.huge
      && n.entries[i].leaf == (match ev
           case Write(k) => if k == i then WriteLeaf(e.leaf) else e.leaf
           case Unmap(k) => if k == i then UnmapLeaf(e) else e.leaf
           case Pin(k, pinned) => if k == i then PinLeaf(e.leaf, pinned) else e.leaf
           case Clear(kind) =>
             if kind == CLEAR_REFS_MM_HIWATER_RSS || Skips(kind, m.vmas[e.vma]) then e.leaf else ClearLeaf(kind, e))
      && n.vmas[e.vma] == if ClearsSoftDirty(ev) then m.vmas[e.vma].(softDirty := false) else m.vmas[e.vma]
  {
    hide WriteLeaf, UnmapLeaf, PinLeaf, ClearLeaf, Skips;
  }

  /** The page is not pinned in the run, unless `pins` allows for that. */
  predicate Admits(pins: bool, evs: seq<Event>, i: nat) { pins || Pin(i, true) !in evs }

  /** Every event keeps a tracked page tracked. */
  lemma StepKeepsTracked(m: Mem, ev: Event, i: nat, pins: bool)
    requires m.Valid() && i < |m.entries| && m.TrackedAt(i, pins) && Admits(pins, [ev], i)
    ensures Happen(m, ev).Valid() && |Happen(m, ev).entries| == |m.entries|
    ensures Happen(m, ev).TrackedAt(i, pins)
  {
    hide Happen;
    assert ev in [ev];
    HappenAt(m, ev, i);
  }

  lemma {:induction false} RunKeepsTracked(m: Mem, evs: seq<Event>, i: nat, pins: bool)
    requires m.Valid() && i < |m.entries| && m.TrackedAt(i, pins) && Admits(pins, evs, i)
    ensures Run(m, evs).Valid() && Run(m, evs).TrackedAt(i, pins)
  {
    hide Happen;
    if evs != [] {
      var init, ev := evs[..|evs| - 1], evs[|evs| - 1];
      RunKeepsTracked(m, init, i, pins);
      assert ev in evs;
      StepKeepsTracked(Run(m, init), ev, i, pins);
    }
  }

  /** The writes to a tracked page show. */
  lemma {:induction false} WritesShow(m: Mem, evs: seq<Event>, i: nat, pins: bool)
    requires m.Valid() && i < |m.entries| && m.TrackedAt(i, pins) && Admits(pins, evs, i)
    requires WrittenSinceClear(evs, i)
    ensures Run(m, evs).Shows(i)
  {
    hide Happen;
    var init, ev := evs[..|evs| - 1], evs[|evs| - 1];
    RunKeepsTracked(m, init, i, pins);
    HappenAt(Run(m, init), ev, i);
    if ev != Write(i) {
      WritesShow(m, init, i, pins);
    }
  }

  /** What becomes of a page in a run of one, two or three events. */
  lemma ShortRuns(m: Mem, a: Event, b: Event, c: Event)
    requires m.Valid()
    ensures Happen(m, a).Valid() && Happen(Happen(m, a), b).Valid()
    ensures Run(m, [a]) == Happen(m, a) && Run(m, [a, b]) == Happen(Happen(m, a), b)
    ensures Run(m, [a, b, c]) == Happen(Happen(Happen(m, a), b), c)
  {
    hide Happen;
    HappenShape(m, a);
    HappenShape(Happen(m, a), b);
    assert [a][..0] == [] && [a, b][..1] == [a] && [a, b, c][..2] == [a, b];
    assert Run(m, []) == m;
    assert Run(m, [a]) == Happen(m, a);
  }

  /** A write that is lost on a page that is not tracked. */
  lemma LostWrite(m: Mem, i: nat, pins: bool) returns (evs: seq<Event>)
    requires m.Valid() && i < |m.entries| && !m.TrackedAt(i, pins)
    ensures Admits(pins, evs, i) && WrittenSinceClear(evs, i) && !Run(m, evs).Shows(i)
  {
    hide Happen;
    var clear := Clear(CLEAR_REFS_SOFT_DIRTY);
    var e := m.entries[i];
    if !m.vmas[e.vma].softDirty {
      evs := [Write(i)];
      ShortRuns(m, Write(i), clear, clear);
      HappenAt(m, Write(i), i);
    } else if m.vmas[e.vma].pfnmap || e.leaf.pinned {
      evs := [clear, Write(i)];
      ShortRuns(m, clear, Write(i), clear);
      HappenAt(m, clear, i);
      HappenAt(Happen(m, clear), Write(i), i);
    } else {
      evs := [Pin(i, true), clear, Write(i)];
      ShortRuns(m, Pin(i, true), clear, Write(i));
      HappenAt(m, Pin(i, true), i);
      HappenAt(Happen(m, Pin(i, true)), clear, i);
      HappenAt(Happen(Happen(m, Pin(i, true)), clear), Write(i), i);
    }
  }

  /** No write is lost, over any run of writes, evictions, pins and clearings, if and only if
      the page is tracked to begin with: it is in no PFN mapping, and it is not silently
      writable; or its VMA shows as soft-dirty, and the page is huge, or neither pinned nor
      pinned in the run. */
  lemma NoWriteIsLost(m: Mem, i: nat, pins: bool)
    requires m.Valid() && i < |m.entries|
    ensures (forall evs :: Admits(pins, evs, i) && WrittenSinceClear(evs, i) ==> Run(m, evs).Shows(i))
       <==> m.TrackedAt(i, pins)
  {
    if m.TrackedAt(i, pins) {
      forall evs | Admits(pins, evs, i) && WrittenSinceClear(evs, i)
        ensures Run(m, evs).Shows(i)
      {
        WritesShow(m, evs, i, pins);
      }
    } else {
      var evs := LostWrite(m, i, pins);
    }
  }

  /** For instance: a page of a PFN mapping, even if it is not writable; or a writable page that
      is pinned, and soft-dirty only through its VMA, shows no write after the next clearing. */
  lemma WriteIsLostInPfnMapping(write: bool, softDirty: bool)
    ensures var leaf := Mapped(write, softDirty, false, false, false, false);
            var m := Mem([Vma(true, true, true)], [Entry(0, false, leaf)]);
      m.Valid() && m.Shows(0) && !Run(m, [Clear(CLEAR_REFS_SOFT_DIRTY), Write(0)]).Shows(0)
  {
    var m := Mem([Vma(true, true, true)], [Entry(0, false, Mapped(write, softDirty, false, false, false, false))]);
    var clear := Clear(CLEAR_REFS_SOFT_DIRTY);
    hide Happen;
    ShortRuns(m, clear, Write(0), clear);
    HappenAt(m, clear, 0);
    HappenAt(Happen(m, clear), Write(0), 0);
  }

  lemma WriteIsLostWhenPinned()
    ensures var m := Mem([Vma(true, false, false)], [Entry(0, false, Mapped(true, false, false, false, true, true))]);
      m.Valid() && m.Shows(0) && !Run(m, [Clear(CLEAR_REFS_SOFT_DIRTY), Write(0)]).Shows(0)
  {
    var m := Mem([Vma(true, false, false)], [Entry(0, false, Mapped(true, false, false, false, true, true))]);
    var clear := Clear(CLEAR_REFS_SOFT_DIRTY);
    hide Happen;
    ShortRuns(m, clear, Write(0), clear);
    HappenAt(m, clear, 0);
    HappenAt(Happen(m, clear), Write(0), 0);
  }

  lemma HappenShape(m: Mem, ev: Event)
    requires m.Valid()
    ensures Happen(m, ev).Valid() && |Happen(m, ev).entries| == |m.entries|
  {
  }

  /** What shows as soft-dirty after a clearing: pinned pages that can be written, and huge swap
      entries that are no migration entries, if their entries were soft-dirty. */
  predicate StaysDirty(m: Mem, i: nat)
    requires i < |m.entries| && m.entries[i].vma < |m.vmas|
  {
    var e := m.entries[i];
    SoftDirtyLeaf(e.leaf) && !m.vmas[e.vma].pfnmap
    && ((!e.huge && e.leaf.Mapped? && e.leaf.write && e.leaf.pinned)
        || (e.huge && e.leaf.Swapped? && !e.leaf.migration))
  }

  /** The run clears no soft-dirty bits. */
  predicate NoClearing(evs: seq<Event>) { Clear(CLEAR_REFS_SOFT_DIRTY) !in evs }

  /** The page shows as soft-dirty after a clearing and a run if it was left so or written. */
  ghost predicate ShowsWrites(m: Mem, evs: seq<Event>, i: nat)
    requires m.Valid() && i < |m.entries|
  {
    Run(Cleared(CLEAR_REFS_SOFT_DIRTY, m), evs).Shows(i) <==> StaysDirty(m, i) || Write(i) in evs
  }

  lemma {:induction false} DisarmedShows(m: Mem, evs: seq<Event>, i: nat)
    requires m.Valid() && i < |m.entries| && NoClearing(evs)
    requires m.Catches(i)
    ensures ShowsWrites(m, evs, i)
    ensures !Run(Cleared(CLEAR_REFS_SOFT_DIRTY, m), evs).Silent(i)
  {
    hide Happen;
    var c := Cleared(CLEAR_REFS_SOFT_DIRTY, m);
    ClearHappens(m, CLEAR_REFS_SOFT_DIRTY);
    HappenAt(m, Clear(CLEAR_REFS_SOFT_DIRTY), i);
    if evs != [] {
      var init, ev := evs[..|evs| - 1], evs[|evs| - 1];
      assert evs == init + [ev];
      DisarmedShows(m, init, i);
      HappenAt(Run(c, init), ev, i);
      VmaStaysClear(c, init, i);
    }
  }

  /** Nothing but a fresh mapping makes a VMA soft-dirty. */
  lemma {:induction false} VmaStaysClear(m: Mem, evs: seq<Event>, i: nat)
    requires m.Valid() && i < |m.entries| && !m.vmas[m.entries[i].vma].softDirty
    ensures !Run(m, evs).vmas[m.entries[i].vma].softDirty
    ensures Run(m, evs).vmas[m.entries[i].vma].pfnmap == m.vmas[m.entries[i].vma].pfnmap
  {
    hide Happen;
    if evs != [] {
      var init := evs[..|evs| - 1];
      VmaStaysClear(m, init, i);
      HappenAt(Run(m, init), evs[|evs| - 1], i);
    }
  }

  /** After a clearing a page shows exactly the writes since then, and what the clearing left
      soft-dirty, in every run without another clearing, if and only if it is in no PFN mapping
      and the clearing disarmed it where it was silently writable. */
  lemma ShowsExactlyTheWrites(m: Mem, i: nat)
    requires m.Valid() && i < |m.entries|
    ensures (forall evs :: NoClearing(evs) ==> ShowsWrites(m, evs, i)) <==> m.Catches(i)
  {
    hide ShowsWrites;
    if !m.Catches(i) {
      UndarmedMisses(m, i);
      assert NoClearing([Write(i)]);
    } else {
      forall evs | NoClearing(evs)
        ensures ShowsWrites(m, evs, i)
      {
        DisarmedShows(m, evs, i);
      }
    }
  }

  lemma UndarmedMisses(m: Mem, i: nat)
    requires m.Valid() && i < |m.entries| && !m.Catches(i)
    ensures !ShowsWrites(m, [Write(i)], i)
  {
    hide Happen;
    var c := Cleared(CLEAR_REFS_SOFT_DIRTY, m);
    ClearHappens(m, CLEAR_REFS_SOFT_DIRTY);
    HappenAt(m, Clear(CLEAR_REFS_SOFT_DIRTY), i);
    HappenAt(c, Write(i), i);
    ShortRuns(c, Write(i), Write(i), Write(i));
  }

  lemma ClearHappens(m: Mem, kind: int)
    requires m.Valid()
    ensures Happen(m, Clear(kind)) == Cleared(kind, m)
  {
  }
}
