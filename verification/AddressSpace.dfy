/** Snapshots of a process's VMAs, and the lookup every reader of an address space is
    built on: the first VMA that ends after an address. */
module AddressSpace {

  datatype Option<T> = None | Some(value: T)

  /** A mapped range `start .. end` with what the readers look at: whether a file backs it,
      its permissions, whether all of it counts as soft-dirty, and whether it is locked in
      memory. */
  datatype Vma = Vma(start: nat, end: nat, file: bool, read: bool, write: bool, exec: bool, mayShare: bool,
                     softDirty: bool, locked: bool)

  type Snapshot = seq<Vma>

  /** VMAs are not empty, sorted and disjoint. */
  ghost predicate WellFormed(s: Snapshot) {
    && (forall i :: 0 <= i < |s| ==> s[i].start < s[i].end)
    && (forall i, j :: 0 <= i < j < |s| ==> s[i].end <= s[j].start)
  }

  /** What an attempt to lock a VMA under RCU may do. */
  datatype LockOutcome = Locked | Again | Interrupted

  ghost predicate Covers(v: Vma, addr: nat) { v.start <= addr < v.end }

  ghost predicate Mapped(s: Snapshot, addr: nat) {
    exists i :: 0 <= i < |s| && Covers(s[i], addr)
  }

  /** The first VMA with `end > addr`. */
  function FirstAfter(s: Snapshot, addr: nat): (r: Option<Vma>)
    ensures r.Some? ==> r.value in s && r.value.end > addr
  {
    if s == [] then None
    else if s[0].end > addr then Some(s[0])
    else FirstAfter(s[1..], addr)
  }

  /** Nothing is mapped between `addr` and the VMA found, and nothing from `addr` on if none
      is found. */
  lemma {:induction false} NothingBefore(s: Snapshot, addr: nat, x: nat)
    requires WellFormed(s) && addr <= x && Mapped(s, x)
    ensures FirstAfter(s, addr).Some?
    ensures x < FirstAfter(s, addr).value.end ==> Covers(FirstAfter(s, addr).value, x)
  {
    var i :| 0 <= i < |s| && Covers(s[i], x);
    if s[0].end > addr {
      if i > 0 {
        assert s[0].end <= s[i].start;
        LaterFound(s, i, s[0].end);
      }
    } else {
      assert s[i] == s[1..][i - 1];
      assert Mapped(s[1..], x);
      NothingBefore(s[1..], addr, x);
    }
  }

  /** The first VMA lies below all the others. */
  lemma OthersLater(s: Snapshot, w: Vma)
    requires WellFormed(s) && w in s && w != s[0]
    ensures s[0].end <= w.start && s[0].start < w.start && s[0].end < w.end && w in s[1..]
  {
    var i :| 0 <= i < |s| && s[i] == w;
    assert s[1..][i - 1] == w;
  }

  /** The VMA found is `w` or lies below it. */
  lemma {:induction false} FoundNotAfter(s: Snapshot, addr: nat, w: Vma)
    requires WellFormed(s) && w in s && addr < w.end
    ensures FirstAfter(s, addr).Some?
    ensures var v := FirstAfter(s, addr).value;
            w == v || (v.end <= w.start && v.start < w.start && v.end < w.end)
  {
    if w != s[0] {
      OthersLater(s, w);
      if s[0].end <= addr {
        FoundNotAfter(s[1..], addr, w);
      }
    }
  }

  /** The VMA found lies below every other VMA that ends after the address. */
  lemma FirstIsLowest(s: Snapshot, addr: nat)
    requires WellFormed(s)
    ensures FirstAfter(s, addr).None? ==> forall w :: w in s ==> w.end <= addr
    ensures FirstAfter(s, addr).Some? ==>
              var v := FirstAfter(s, addr).value;
              forall w :: w in s && addr < w.end ==> w == v || (v.end <= w.start && v.start < w.start && v.end < w.end)
  {
    hide FirstAfter, WellFormed;
    forall w | w in s && addr < w.end
      ensures FirstAfter(s, addr).Some?
      ensures var v := FirstAfter(s, addr).value;
              w == v || (v.end <= w.start && v.start < w.start && v.end < w.end)
    {
      FoundNotAfter(s, addr, w);
    }
  }

  lemma {:induction false} LaterFound(s: Snapshot, i: nat, addr: nat)
    requires i < |s| && s[i].end > addr
    ensures FirstAfter(s, addr).Some?
  {
    if s[0].end <= addr {
      LaterFound(s[1..], i - 1, addr);
    }
  }

  /** The VMA found stays the first one up to its end. */
  lemma {:induction false} FirstAfterLater(s: Snapshot, addr: nat, later: nat)
    requires addr <= later
    ensures FirstAfter(s, addr).None? ==> FirstAfter(s, later).None?
    ensures FirstAfter(s, addr).Some? && later < FirstAfter(s, addr).value.end ==>
              FirstAfter(s, later) == FirstAfter(s, addr)
  {
    if s != [] && s[0].end <= addr {
      FirstAfterLater(s[1..], addr, later);
    }
  }

  /** One step of a reader's position: at `time` the position went from `from` to the end of
      the first VMA after it. */
  datatype Pass = Pass(from: nat, vma: Vma, time: nat)

  /** The steps of a reader that starts at `origin`, each taken in the snapshot of its own
      time. */
  ghost predicate TraceFrom(history: nat -> Snapshot, origin: nat, passes: seq<Pass>) {
    && (forall t :: WellFormed(history(t)))
    && (forall i :: 0 <= i < |passes| ==> FirstAfter(history(passes[i].time), passes[i].from) == Some(passes[i].vma))
    && (forall i, j :: 0 <= i < |passes| && j == i + 1 && j < |passes| ==> passes[j].from == passes[i].vma.end)
    && (passes != [] ==> passes[0].from == origin)
  }

  /** The steps of a reader of the whole address space. */
  ghost predicate Trace(history: nat -> Snapshot, passes: seq<Pass>) { TraceFrom(history, 0, passes) }

  /** The position after the steps. */
  ghost function Position(passes: seq<Pass>): nat {
    if passes == [] then 0 else passes[|passes| - 1].vma.end
  }

  /** The address was dealt with: a reported VMA covers it, or nothing was mapped there in
      the snapshot in which the position passed it. */
  ghost predicate Accounted(history: nat -> Snapshot, passes: seq<Pass>, addr: nat) {
    exists i :: 0 <= i < |passes| && passes[i].from <= addr < passes[i].vma.end
      && (Covers(passes[i].vma, addr) || !Mapped(history(passes[i].time), addr))
  }

  /** However the address space changes between the steps, every address below the position
      is accounted for. */
  lemma {:induction false} EveryAddressAccounted(history: nat -> Snapshot, origin: nat, passes: seq<Pass>, addr: nat)
    requires TraceFrom(history, origin, passes) && origin <= addr < Position(passes)
    ensures Accounted(history, passes, addr)
  {
    var n := |passes| - 1;
    var last := passes[n];
    if last.from <= addr {
      if Mapped(history(last.time), addr) {
        NothingBefore(history(last.time), last.from, addr);
      }
    } else {
      assert n > 0 && passes[n - 1].vma.end == last.from;
      EveryAddressAccounted(history, origin, passes[..n], addr);
      var i :| 0 <= i < n && passes[..n][i].from <= addr < passes[..n][i].vma.end
        && (Covers(passes[..n][i].vma, addr) || !Mapped(history(passes[..n][i].time), addr));
      assert passes[i] == passes[..n][i];
    }
  }

  /** When nothing is left after the position, the whole address space is accounted for. */
  lemma WholeSpaceAccounted(history: nat -> Snapshot, passes: seq<Pass>, time: nat, addr: nat)
    requires Trace(history, passes) && FirstAfter(history(time), Position(passes)).None?
    ensures Accounted(history, passes, addr) || (Position(passes) <= addr && !Mapped(history(time), addr))
  {
    if addr < Position(passes) {
      EveryAddressAccounted(history, 0, passes, addr);
    } else if Mapped(history(time), addr) {
      NothingBefore(history(time), Position(passes), addr);
    }
  }

  /** The position strictly increases from step to step, so the parts of the VMAs the steps
      add are disjoint and in address order. */
  lemma {:induction false} PositionsIncrease(history: nat -> Snapshot, passes: seq<Pass>, i: nat, j: nat)
    requires Trace(history, passes) && i < j < |passes|
    ensures passes[i].from < passes[i].vma.end <= passes[j].from < passes[j].vma.end
  {
    if i < j - 1 {
      PositionsIncrease(history, passes, i, j - 1);
    }
  }

  /** A step more. */
  lemma TracePush(history: nat -> Snapshot, passes: seq<Pass>, p: Pass)
    requires Trace(history, passes) && p.from == Position(passes)
    requires FirstAfter(history(p.time), p.from) == Some(p.vma)
    ensures Trace(history, passes + [p]) && Position(passes + [p]) == p.vma.end > p.from
  {
  }

  /** The last step taken back. */
  lemma TracePop(history: nat -> Snapshot, passes: seq<Pass>)
    requires Trace(history, passes) && passes != []
    ensures Trace(history, passes[..|passes| - 1])
    ensures Position(passes[..|passes| - 1]) == passes[|passes| - 1].from
  {
    var n := |passes| - 1;
    if n > 0 {
      assert passes[n].from == passes[n - 1].vma.end;
    }
  }
}
