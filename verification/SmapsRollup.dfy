/** /proc/pid/smaps_rollup: the usage of a whole address space, gathered under a lock that
    is dropped whenever a writer is waiting for it. Its ranges are disjoint; but a walk that is
    resumed inside a huge page counts all of it (`CountedOnceIffNoneInside`). */
module SmapsRollup {
  import opened Kernel
  import opened AddressSpace
  import opened Smaps
  import opened SmapsTally
  import opened SmapsWalk

  /** The VMAs and the page tables at each time. */
  datatype World = World(history: nat -> Snapshot, memory: Memory)

  /** A huge page lies in one VMA. */
  ghost predicate InOneVma(s: Snapshot, page: nat) {
    var v := FirstAfter(s, page);
    v.Some? && v.value.start <= Base(page) && Base(page) + HPAGE_NR <= v.value.end
  }

  ghost predicate ValidWorld(w: World) {
    && (forall t :: WellFormed(w.history(t)))
    && ValidMemory(w.memory)
    && (forall t, x :: w.memory(t, x).Huge? ==> InOneVma(w.history(t), x))
  }

  /** Where a step begins to walk: at the start of its VMA, or at the position if that lies in
      the VMA. */
  function WalkStart(p: Pass): nat {
    if p.vma.start >= p.from then p.vma.start else p.from
  }

  ghost predicate Gathers(p: Pass, page: nat) { WalkStart(p) <= page < p.vma.end }

  /** The step begins inside a huge page. */
  ghost predicate StartsInside(w: World, p: Pass) { Inside(w.memory, p.time, WalkStart(p)) }

  /** The step counts the page. */
  ghost predicate Counts(w: World, p: Pass, page: nat) {
    FirstCounted(w.memory, p.time, WalkStart(p)) <= page < p.vma.end
  }

  ghost function StepEntries(w: World, p: Pass): (es: seq<Entry>)
    requires ValidWorld(w)
    ensures forall e :: e in es ==> ValidEntry(e)
  {
    EntriesIn(w.memory, p.time, WalkStart(p), p.vma.end)
  }

  /** What the steps gathered. */
  ghost function Gathered(precise: bool, w: World, passes: seq<Pass>): Stats
    requires ValidWorld(w)
  {
    if passes == [] then ZERO
    else
      var p := passes[|passes| - 1];
      Walk(precise, Gathered(precise, w, passes[..|passes| - 1]), StepEntries(w, p), p.vma.locked)
  }

  /** The figures of one VMA, as smaps has them. */
  ghost function VmaStats(precise: bool, w: World, time: nat, v: Vma): Stats
    requires ValidWorld(w)
  {
    Walk(precise, ZERO, EntriesIn(w.memory, time, v.start, v.end), v.locked)
  }

  /** The sum of the figures of the VMAs. */
  ghost function SumVmas(precise: bool, w: World, time: nat, s: Snapshot): Stats
    requires ValidWorld(w)
  {
    if s == [] then ZERO else Plus(VmaStats(precise, w, time, s[0]), SumVmas(precise, w, time, s[1..]))
  }

  /** The VMAs from the first that ends after `addr` on. */
  ghost function Rest(s: Snapshot, addr: nat): Snapshot {
    if s == [] || s[0].end > addr then s else Rest(s[1..], addr)
  }

  lemma {:induction false} RestIsFound(s: Snapshot, addr: nat)
    requires WellFormed(s)
    ensures FirstAfter(s, addr) == if Rest(s, addr) == [] then None else Some(Rest(s, addr)[0])
    ensures Rest(s, addr) != [] ==> Rest(s, Rest(s, addr)[0].end) == Rest(s, addr)[1..]
  {
    if s != [] && s[0].end <= addr {
      RestIsFound(s[1..], addr);
      var r := Rest(s[1..], addr);
      if r != [] {
        RestEnds(s[1..], addr);
        assert r[0] in s[1..];
      }
    } else if |s| > 1 {
      assert s[1..][0] == s[1];
    }
  }

  lemma {:induction false} RestEnds(s: Snapshot, addr: nat)
    requires Rest(s, addr) != []
    ensures Rest(s, addr)[0].end > addr && Rest(s, addr)[0] in s
  {
    if s[0].end <= addr {
      RestEnds(s[1..], addr);
    }
  }

  /** What the environment does in each round: whether a writer wants the lock, how far the
      address space moves on while it is dropped, and whether taking it again fails. */
  datatype Rounds = Rounds(contended: nat -> bool, delay: nat -> nat, killed: nat -> bool)

  /** What the rollup delivers besides the total: the error code, the steps it took and when it
      found nothing more. */
  datatype Rollup = Rollup(ret: int, passes: seq<Pass>, endTime: nat)

  ghost predicate Bounded(w: World, taskSize: nat) {
    ValidWorld(w) && forall t, i :: 0 <= i < |w.history(t)| ==> w.history(t)[i].end <= taskSize
  }

  /** The VMA found after a position moves it on, within the task's address space. */
  lemma FoundIsBounded(w: World, taskSize: nat, time: nat, addr: nat)
    requires Bounded(w, taskSize)
    ensures FirstAfter(w.history(time), addr).Some? ==>
              addr < FirstAfter(w.history(time), addr).value.end <= taskSize
  {
    var v := FirstAfter(w.history(time), addr);
    if v.Some? {
      var i :| 0 <= i < |w.history(time)| && w.history(time)[i] == v.value;
    }
  }

  /** The steps from the position `last` on. */
  ghost function Run(w: World, r: Rounds, taskSize: nat, round: nat, now: nat, last: nat): Rollup
    requires Bounded(w, taskSize)
    decreases taskSize - last
  {
    FoundIsBounded(w, taskSize, now, last);
    var v := FirstAfter(w.history(now), last);
    if v.None? then Rollup(0, [], now)
    else
      var end, later := v.value.end, now + r.delay(round);
      var p := Pass(last, v.value, now);
      if !r.contended(round) then
        var rest := Run(w, r, taskSize, round + 1, now, end);
        rest.(passes := [p] + rest.passes)
      else if r.killed(round) then Rollup(-EINTR, [p], later)
      else
        FoundIsBounded(w, taskSize, later, end);
        var u := FirstAfter(w.history(later), end);
        if u.None? then Rollup(0, [p], later)
        else
          var rest := Run(w, r, taskSize, round + 1, later, u.value.end);
          rest.(passes := [p, Pass(end, u.value, later)] + rest.passes)
  }

  lemma NoSteps(precise: bool, w: World, passes: seq<Pass>)
    requires ValidWorld(w) && passes == []
    ensures Trace(w.history, passes) && Position(passes) == 0 && Gathered(precise, w, passes) == ZERO
  {
    hide ValidMemory, Walk, StepEntries;
  }

  /** In the snapshot in which a VMA was found the next one starts after it. */
  lemma NextStartsLater(s: Snapshot, addr: nat)
    requires WellFormed(s) && FirstAfter(s, addr).Some?
    ensures var v := FirstAfter(s, addr).value;
            FirstAfter(s, v.end).Some? ==> v.end <= FirstAfter(s, v.end).value.start
  {
    FirstIsLowest(s, addr);
  }

  /** One step: the VMA found after the position is walked from there on, or from its start. */
  lemma GatherStep(precise: bool, w: World, passes: seq<Pass>, now: nat, v: Vma)
    requires ValidWorld(w) && Trace(w.history, passes)
    requires FirstAfter(w.history(now), Position(passes)) == Some(v)
    ensures var p := Pass(Position(passes), v, now);
      && Trace(w.history, passes + [p]) && Position(passes + [p]) == v.end
      && Gathered(precise, w, passes + [p])
         == Walk(precise, Gathered(precise, w, passes), StepEntries(w, p), v.locked)
      && StepEntries(w, p) == EntriesIn(w.memory, now, WalkStart(p), v.end)
      && WalkStart(p) == if v.start >= Position(passes) then v.start else Position(passes)
    ensures v.start < v.end && v in w.history(now)
    ensures FirstAfter(w.history(now), v.end).Some? ==> v.end <= FirstAfter(w.history(now), v.end).value.start
  {
    hide Walk, EntriesIn, ValidMemory, InOneVma;
    var p := Pass(Position(passes), v, now);
    TracePush(w.history, passes, p);
    NextStartsLater(w.history(now), Position(passes));
    assert (passes + [p])[..|passes|] == passes;
  }

  /** The run makes a step, or two with the lock dropped in between. */
  lemma RunStep(w: World, r: Rounds, taskSize: nat, round: nat, now: nat, last: nat)
    requires Bounded(w, taskSize)
    ensures var v := FirstAfter(w.history(now), last);
      && (v.None? ==> Run(w, r, taskSize, round, now, last) == Rollup(0, [], now))
      && (v.Some? ==>
            var end, later, p := v.value.end, now + r.delay(round), Pass(last, v.value, now);
            var u := FirstAfter(w.history(later), end);
            var rest := if !r.contended(round) then Run(w, r, taskSize, round + 1, now, end)
                        else if r.killed(round) then Rollup(-EINTR, [], later)
                        else if u.None? then Rollup(0, [], later)
                        else Run(w, r, taskSize, round + 1, later, u.value.end);
            var more := if r.contended(round) && !r.killed(round) && u.Some? then [Pass(end, u.value, later)] else [];
            Run(w, r, taskSize, round, now, last) == rest.(passes := [p] + more + rest.passes))
  {
    hide FirstAfter, Bounded;
  }

  /** One VMA gathered: from its start on if `start` is 0, else from the position on. */
  method GatherPass(mss: MemSizeStats, precise: bool, w: World, now: nat, v: Vma, start: nat, ghost passes: seq<Pass>,
                    ghost startTime: nat)
    requires ValidWorld(w) && Trace(w.history, passes) && Within(passes, startTime, now) && startTime <= now
    requires FirstAfter(w.history(now), Position(passes)) == Some(v)
    requires start == if v.start >= Position(passes) then 0 else Position(passes)
    requires mss.State() == Gathered(precise, w, passes)
    modifies mss
    ensures var more := passes + [Pass(Position(passes), v, now)];
      && mss.State() == Gathered(precise, w, more)
      && Trace(w.history, more) && Position(more) == v.end && Within(more, startTime, now)
    ensures v.start < v.end
    ensures FirstAfter(w.history(now), v.end).Some? ==> v.end <= FirstAfter(w.history(now), v.end).value.start
  {
    hide Trace, WellFormed, FirstAfter, Gathered, Walk, StepEntries, EntriesIn, Within, ValidMemory;
    GatherStep(precise, w, passes, now, v);
    WithinPush(passes, Pass(Position(passes), v, now), startTime, now);
    GatherStats(mss, precise, w.memory, now, v, start);
  }

  lemma BoundedIsValid(w: World, taskSize: nat)
    requires Bounded(w, taskSize)
    ensures ValidWorld(w)
  {
  }

  /** What the loop knows before it gathers the VMA found after `lastEnd`. */
  ghost predicate AtStep(precise: bool, w: World, st: Stats, passes: seq<Pass>, startTime: nat, now: nat, lastEnd: nat)
    requires ValidWorld(w)
  {
    && Trace(w.history, passes) && Position(passes) == lastEnd && Within(passes, startTime, now) && startTime <= now
    && st == Gathered(precise, w, passes)
  }

  /** One round of the loop: a VMA, and another one if the lock was dropped and taken again. The
      rollup stops if that fails or nothing is left. */
  method GatherRound(mss: MemSizeStats, precise: bool, w: World, rounds: Rounds, taskSize: nat, round: nat,
                     start: nat, vma: Vma, ghost passes: seq<Pass>, ghost startTime: nat, ghost position: nat)
    returns (ret: int, stop: bool, now: nat, lastEnd: nat, ghost more: seq<Pass>)
    requires Bounded(w, taskSize) && AtStep(precise, w, mss.State(), passes, startTime, start, position)
    requires FirstAfter(w.history(start), position) == Some(vma) && position <= vma.start
    modifies mss
    ensures AtStep(precise, w, mss.State(), passes + more, startTime, now, lastEnd)
    ensures position < lastEnd <= taskSize && start <= now && (!rounds.contended(round) ==> now == start)
    ensures var rest := if stop then Rollup(ret, [], now) else Run(w, rounds, taskSize, round + 1, now, lastEnd);
            Run(w, rounds, taskSize, round, start, position) == rest.(passes := more + rest.passes)
    ensures ret == if rounds.contended(round) && rounds.killed(round) then -EINTR else 0
    ensures ret != 0 ==> stop
    ensures stop && ret == 0 ==> FirstAfter(w.history(now), lastEnd).None?
    ensures !stop ==> var u := FirstAfter(w.history(now), lastEnd); u.Some? ==> lastEnd <= u.value.start
  {
    hide Trace, WellFormed, FirstAfter, Gathered, Within, Run, Bounded, ValidWorld, Position;
    BoundedIsValid(w, taskSize);
    ret, stop, now := 0, false, start;
    FoundIsBounded(w, taskSize, now, position);
    RunStep(w, rounds, taskSize, round, now, position);
    GatherPass(mss, precise, w, now, vma, 0, passes, startTime);
    more, lastEnd := [Pass(position, vma, now)], vma.end;
    if rounds.contended(round) {
      WithinLonger(passes + more, startTime, now, now + rounds.delay(round));
      now := now + rounds.delay(round);
      if rounds.killed(round) {
        ret, stop := -EINTR, true;
        return;
      }
      var next := FirstAfter(w.history(now), lastEnd);
      if next.None? {
        stop := true;
        return;
      }
      var v := next.value;
      FoundIsBounded(w, taskSize, now, lastEnd);
      if v.start >= lastEnd {
        GatherPass(mss, precise, w, now, v, 0, passes + more, startTime);
      } else if v.end > lastEnd {
        GatherPass(mss, precise, w, now, v, lastEnd, passes + more, startTime);
      }
      ghost var p := Pass(lastEnd, v, now);
      assert passes + more + [p] == passes + (more + [p]);
      more := more + [p];
      lastEnd := v.end;
    }
  }

  /** `mss` starts empty and ends with the total. `count` rounds are made; only in the last can
      the lock have been waited for in vain. */
  method ShowSmapsRollup(mss: MemSizeStats, precise: bool, w: World, rounds: Rounds, startTime: nat, taskSize: nat)
    returns (ret: int, ghost r: Rollup, ghost count: nat)
    requires Bounded(w, taskSize) && mss.State() == ZERO
    modifies mss
    ensures r == Run(w, rounds, taskSize, 0, startTime, 0) && r.ret == ret
    ensures mss.State() == Gathered(precise, w, r.passes)
    ensures Trace(w.history, r.passes) && Within(r.passes, startTime, r.endTime)
    ensures ret == 0 ==> FirstAfter(w.history(r.endTime), Position(r.passes)).None?
    ensures ret == if count > 0 && rounds.contended(count - 1) && rounds.killed(count - 1) then -EINTR else 0
    ensures forall i :: 0 <= i < count - 1 ==> !(rounds.contended(i) && rounds.killed(i))
    ensures (forall i :: !rounds.contended(i)) ==> r.endTime == startTime
  {
    hide Trace, WellFormed, FirstAfter, Gathered, Within, Run, Bounded, ValidWorld, Position;
    BoundedIsValid(w, taskSize);
    var now, lastEnd, round: nat := startTime, 0, 0;
    ghost var passes: seq<Pass> := [];
    ghost var whole := Run(w, rounds, taskSize, 0, startTime, 0);
    NoSteps(precise, w, passes);
    WithinNothing(startTime);
    var vma, stop := FirstAfter(w.history(now), 0), false;
    ret := 0;
    while vma.Some? && !stop
      invariant AtStep(precise, w, mss.State(), passes, startTime, now, lastEnd)
      invariant !stop ==> vma == FirstAfter(w.history(now), lastEnd) && ret == 0
      invariant !stop && vma.Some? ==> lastEnd <= vma.value.start
      invariant var rest := if stop then Rollup(ret, [], now) else Run(w, rounds, taskSize, round, now, lastEnd);
                whole == rest.(passes := passes + rest.passes)
      invariant ret == if round > 0 && rounds.contended(round - 1) && rounds.killed(round - 1) then -EINTR else 0
      invariant forall i :: 0 <= i < round - 1 ==> !(rounds.contended(i) && rounds.killed(i))
      invariant stop && ret == 0 ==> FirstAfter(w.history(now), lastEnd).None?
      invariant (forall i :: !rounds.contended(i)) ==> now == startTime
      decreases taskSize - lastEnd, !stop
    {
      ghost var more;
      ghost var position := lastEnd;
      ret, stop, now, lastEnd, more :=
        GatherRound(mss, precise, w, rounds, taskSize, round, now, vma.value, passes, startTime, position);
      assert forall rest: seq<Pass> :: passes + (more + rest) == passes + more + rest;
      passes := passes + more;
      round := round + 1;
      vma := FirstAfter(w.history(now), lastEnd);
    }
    if !stop {
      RunStep(w, rounds, taskSize, round, now, lastEnd);
    }
    r, count := Rollup(ret, passes, now), round;
  }

  /** Every step was taken between the two times. */
  ghost predicate Within(passes: seq<Pass>, from: nat, to: nat) {
    forall i :: 0 <= i < |passes| ==> from <= passes[i].time <= to
  }

  lemma WithinNothing(time: nat)
    ensures Within([], time, time)
  {
  }

  lemma WithinPush(passes: seq<Pass>, p: Pass, from: nat, to: nat)
    requires Within(passes, from, to) && from <= p.time <= to
    ensures Within(passes + [p], from, to)
  {
  }

  lemma WithinLonger(passes: seq<Pass>, from: nat, to: nat, later: nat)
    requires Within(passes, from, to) && to <= later
    ensures Within(passes, from, later)
  {
  }

  // ---- what the total means ----

  /** A step leaves its VMA where no huge page is cut, and begins inside one only where the step
      before ended. */
  lemma StepBounds(w: World, passes: seq<Pass>, i: nat)
    requires ValidWorld(w) && Trace(w.history, passes) && i < |passes|
    ensures WalkStart(passes[i]) < passes[i].vma.end && !Inside(w.memory, passes[i].time, passes[i].vma.end)
    ensures StartsInside(w, passes[i]) ==>
              && i > 0 && WalkStart(passes[i]) == passes[i].from == passes[i - 1].vma.end
              && Base(WalkStart(passes[i])) + HPAGE_NR <= passes[i].vma.end
  {
    hide ValidMemory, WellFormed, FirstAfter;
    var p := passes[i];
    var s := w.history(p.time);
    assert FirstAfter(s, p.from) == Some(p.vma);
    NotEmpty(s, p.from);
    EndsWhole(w, p);
    StartsWhole(w, p);
    if i > 0 {
      assert passes[i].from == passes[i - 1].vma.end;
    }
  }

  lemma NotEmpty(s: Snapshot, addr: nat)
    requires WellFormed(s) && FirstAfter(s, addr).Some?
    ensures FirstAfter(s, addr).value.start < FirstAfter(s, addr).value.end && addr < FirstAfter(s, addr).value.end
  {
    var v := FirstAfter(s, addr).value;
    var i :| 0 <= i < |s| && s[i] == v;
  }

  lemma EndsWhole(w: World, p: Pass)
    requires ValidWorld(w) && FirstAfter(w.history(p.time), p.from) == Some(p.vma)
    ensures !Inside(w.memory, p.time, p.vma.end)
  {
    hide FirstAfter, WellFormed;
    NotEmpty(w.history(p.time), p.from);
    var last := p.vma.end - 1;
    FirstAfterLater(w.history(p.time), p.from, last);
    assert InBlock(last, Base(p.vma.end)) && w.memory(p.time, p.vma.end).Huge? ==>
        w.memory(p.time, last) == w.memory(p.time, p.vma.end);
    assert w.memory(p.time, last).Huge? ==> InOneVma(w.history(p.time), last);
  }

  /** A VMA begins at no page inside a huge one, and holds those it has whole. */
  lemma StartsWhole(w: World, p: Pass)
    requires ValidWorld(w) && FirstAfter(w.history(p.time), p.from) == Some(p.vma)
    ensures StartsInside(w, p) ==> p.vma.start < p.from && Base(WalkStart(p)) + HPAGE_NR <= p.vma.end
  {
    hide FirstAfter, WellFormed, ValidMemory;
    NotEmpty(w.history(p.time), p.from);
    FirstAfterLater(w.history(p.time), p.from, WalkStart(p));
    assert w.memory(p.time, WalkStart(p)).Huge? ==> InOneVma(w.history(p.time), WalkStart(p));
  }

  /** The ranges gathered are disjoint and increasing, whatever happened to the address space in
      between. */
  lemma RangesAreDisjoint(history: nat -> Snapshot, passes: seq<Pass>, page: nat, i: nat, j: nat)
    requires Trace(history, passes) && i < |passes| && j < |passes|
    requires Gathers(passes[i], page) && Gathers(passes[j], page)
    ensures i == j
  {
    hide WellFormed, FirstAfter;
    if i < j {
      PositionsIncrease(history, passes, i, j);
    } else if j < i {
      PositionsIncrease(history, passes, j, i);
    }
  }

  /** No page is counted by two steps if and only if no step begins inside a huge page. */
  lemma CountedOnceIffNoneInside(w: World, passes: seq<Pass>)
    requires ValidWorld(w) && Trace(w.history, passes)
    ensures (forall page: nat, i, j ::
               0 <= i < |passes| && 0 <= j < |passes| && Counts(w, passes[i], page) && Counts(w, passes[j], page) ==>
                 i == j)
       <==> (forall i :: 0 <= i < |passes| ==> !StartsInside(w, passes[i]))
  {
    hide ValidWorld, TraceFrom, Inside;
    if i: nat :| i < |passes| && StartsInside(w, passes[i]) {
      CountedAgain(w, passes, i);
      var page := passes[i].from - 1;
      assert Counts(w, passes[i - 1], page) && Counts(w, passes[i], page);
    } else {
      forall page: nat, i, j | 0 <= i < |passes| && 0 <= j < |passes|
                               && Counts(w, passes[i], page) && Counts(w, passes[j], page)
        ensures i == j
      {
        RangesAreDisjoint(w.history, passes, page, i, j);
      }
    }
  }

  /** The page before a step that begins inside a huge page is counted by that step, and by the
      one before. */
  lemma CountedAgain(w: World, passes: seq<Pass>, i: nat)
    requires ValidWorld(w) && Trace(w.history, passes) && i < |passes| && StartsInside(w, passes[i])
    ensures i > 0 && passes[i].from > 0
    ensures Counts(w, passes[i - 1], passes[i].from - 1) && Counts(w, passes[i], passes[i].from - 1)
  {
    hide ValidWorld, TraceFrom;
    StepBounds(w, passes, i);
    StepBounds(w, passes, i - 1);
  }

  /** The step counts the page again: it lies in the huge page the step begins inside of, before
      the position. */
  ghost predicate Recounts(w: World, p: Pass, page: nat) {
    StartsInside(w, p) && Base(WalkStart(p)) <= page < WalkStart(p)
  }

  /** A page is counted again at most once. */
  lemma RecountedOnce(w: World, passes: seq<Pass>, page: nat, i: nat, j: nat)
    requires ValidWorld(w) && Trace(w.history, passes) && i < j < |passes|
    ensures !(Recounts(w, passes[i], page) && Recounts(w, passes[j], page))
  {
    hide ValidWorld, TraceFrom, Inside;
    StepBounds(w, passes, i);
    StepBounds(w, passes, j);
    PositionsIncrease(w.history, passes, i, j);
  }

  /** An address that is mapped all the time is gathered by exactly one step of a rollup that is
      not interrupted; it is counted exactly once if and only if no step counts it again. */
  lemma MappedIsCountedOnce(w: World, r: Rollup, startTime: nat, page: nat)
    requires ValidWorld(w) && Trace(w.history, r.passes) && Within(r.passes, startTime, r.endTime)
    requires startTime <= r.endTime && FirstAfter(w.history(r.endTime), Position(r.passes)).None?
    requires forall t :: startTime <= t <= r.endTime ==> Mapped(w.history(t), page)
    ensures exists i :: 0 <= i < |r.passes| && Gathers(r.passes[i], page)
              && (forall j :: 0 <= j < |r.passes| && Gathers(r.passes[j], page) ==> j == i)
              && ((forall j :: 0 <= j < |r.passes| && Counts(w, r.passes[j], page) ==> j == i)
                  <==> forall j :: 0 <= j < |r.passes| ==> !Recounts(w, r.passes[j], page))
  {
    hide ValidWorld, Inside;
    var i := GatheredBy(w.history, r, startTime, page);
    forall j | 0 <= j < |r.passes|
      ensures Gathers(r.passes[j], page) ==> j == i
      ensures Counts(w, r.passes[j], page) <==> Gathers(r.passes[j], page) || Recounts(w, r.passes[j], page)
      ensures Recounts(w, r.passes[j], page) ==> !Gathers(r.passes[j], page)
    {
      if Gathers(r.passes[j], page) {
        RangesAreDisjoint(w.history, r.passes, page, i, j);
      }
      StepBounds(w, r.passes, j);
    }
  }

  lemma GatheredBy(history: nat -> Snapshot, r: Rollup, startTime: nat, page: nat) returns (i: nat)
    requires Trace(history, r.passes) && Within(r.passes, startTime, r.endTime) && startTime <= r.endTime
    requires FirstAfter(history(r.endTime), Position(r.passes)).None?
    requires forall t :: startTime <= t <= r.endTime ==> Mapped(history(t), page)
    ensures i < |r.passes| && Gathers(r.passes[i], page)
  {
    hide Trace, FirstAfter, Mapped;
    WholeSpaceAccounted(history, r.passes, r.endTime, page);
    i :| 0 <= i < |r.passes| && r.passes[i].from <= page < r.passes[i].vma.end
      && (Covers(r.passes[i].vma, page) || !Mapped(history(r.passes[i].time), page));
  }

  /** The total page by page: each step adds the pages it counts. */
  ghost function TotalOfSteps(precise: bool, w: World, passes: seq<Pass>): Stats
    requires ValidWorld(w)
  {
    if passes == [] then ZERO
    else
      var p := passes[|passes| - 1];
      Plus(TotalOfSteps(precise, w, passes[..|passes| - 1]),
           Total(CountedPages(precise, w.memory, p.time, FirstCounted(w.memory, p.time, WalkStart(p)), p.vma.end),
                 p.vma.locked))
  }

  lemma {:induction false} RollupIsTheTotal(precise: bool, w: World, passes: seq<Pass>)
    requires ValidWorld(w) && Trace(w.history, passes)
    ensures Gathered(precise, w, passes) == TotalOfSteps(precise, w, passes)
  {
    hide ValidMemory, InOneVma, FirstAfter, Walk, Total, Plus, CountedPages, EntriesIn, Inside;
    if passes != [] {
      var n := |passes| - 1;
      var p := passes[n];
      TracePop(w.history, passes);
      RollupIsTheTotal(precise, w, passes[..n]);
      StepBounds(w, passes, n);
      WalkAddsTotal(precise, Gathered(precise, w, passes[..n]), StepEntries(w, p), p.vma.locked);
      EntriesCountPages(precise, w.memory, p.time, WalkStart(p), p.vma.end);
    }
  }

  /** A walk on top of what is gathered adds the figures of a walk from nothing. */
  lemma WalkAdds(precise: bool, st: Stats, es: seq<Entry>, locked: bool)
    requires forall e :: e in es ==> ValidEntry(e)
    ensures Walk(precise, st, es, locked) == Plus(st, Walk(precise, ZERO, es, locked))
  {
    hide Walk, Plus, Total;
    WalkAddsTotal(precise, st, es, locked);
    WalkIsTotal(precise, es, locked);
  }

  /** The steps over one snapshot gather its VMAs one after the other. */
  lemma {:induction false} StepsGatherVmas(precise: bool, w: World, passes: seq<Pass>, time: nat)
    requires ValidWorld(w) && Trace(w.history, passes) && Within(passes, time, time)
    ensures Plus(Gathered(precise, w, passes), SumVmas(precise, w, time, Rest(w.history(time), Position(passes))))
         == SumVmas(precise, w, time, w.history(time))
  {
    hide ValidMemory, InOneVma, Walk, Plus, EntriesIn;
    var s := w.history(time);
    if passes == [] {
      assert Rest(s, 0) == s;
      PlusLaws(SumVmas(precise, w, time, s), ZERO, ZERO);
    } else {
      var n := |passes| - 1;
      var p := passes[n];
      TracePop(w.history, passes);
      StepsGatherVmas(precise, w, passes[..n], time);
      RestIsFound(s, p.from);
      assert Rest(s, p.from)[0] == p.vma;
      if n > 0 {
        NextStartsLater(s, passes[n - 1].from);
        assert passes[n].from == passes[n - 1].vma.end;
      }
      var before := Gathered(precise, w, passes[..n]);
      WalkAdds(precise, before, StepEntries(w, p), p.vma.locked);
      PlusLaws(before, VmaStats(precise, w, time, p.vma), SumVmas(precise, w, time, Rest(s, p.from)[1..]));
    }
  }

  /** Without contention the total is the sum of the figures smaps has for the VMAs. */
  lemma UncontendedIsTheSum(precise: bool, w: World, r: Rollup, time: nat)
    requires ValidWorld(w) && Trace(w.history, r.passes) && Within(r.passes, time, r.endTime) && r.endTime == time
    requires FirstAfter(w.history(time), Position(r.passes)).None?
    ensures Gathered(precise, w, r.passes) == SumVmas(precise, w, time, w.history(time))
  {
    hide ValidMemory, InOneVma, Walk, Plus, EntriesIn;
    StepsGatherVmas(precise, w, r.passes, time);
    RestIsFound(w.history(time), Position(r.passes));
    PlusLaws(Gathered(precise, w, r.passes), ZERO, ZERO);
  }
}
