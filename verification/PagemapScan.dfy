/** The PAGEMAP_SCAN request: walk, flush, and walk on from where the buffer filled up.
    `ScanPost`, the contract of `DoPagemapScan`, gives the meaning of the result. */
module PagemapScan {
  import opened Kernel
  import opened ScanTypes
  import opened Regions
  import opened ScanBuffer
  import opened ScanSpec
  import opened ScanSplit
  import opened ScanWalk

  /** What the caller gets: the result, the vector, and `walk_end`; and, for the
      specification, the table as the scan met it, how far it got (`stop`), how far what
      was copied out reaches (`flushed`), where the last walk began (`resumed`) and the
      table it began with (`met`), and whether a huge page was backed out. */
  datatype Outcome = Outcome(
    ret: int, vec: seq<PageRegion>, walkEnd: nat,
    seen: Table, stop: nat, flushed: nat, resumed: nat, met: Table, backedOut: bool)

  /** `walk_end` of a scan whose last walk reached the end of the range: where that walk began
      if it was not the first, and the mark of the last back-out in it, if any. */
  ghost function EndOfCompleteScan(arg: ScanArg, o: Outcome): nat
    requires arg.start <= arg.end <= |o.met| == |o.seen|
  {
    var mark := LastClamp(arg, o.met, o.seen, o.resumed, arg.end, if o.resumed == arg.start then 0 else o.resumed);
    if mark == 0 then arg.end else mark
  }

  /** The whole contract of a scan of `before` that leaves `after`. */
  ghost predicate ScanPost(arg: ScanArg, before: Table, after: Table, o: Outcome) {
    && SplitOf(arg, before, o.seen) && |before| == |o.met| == |o.seen|
    && arg.start <= o.resumed <= o.stop <= arg.end <= |o.seen| && arg.start <= o.flushed <= o.stop
    // exactly the huge pages that have to be are split
    && SplitsExactly(arg, before, o.seen, arg.start, o.stop)
    && SplitOf(arg, before, o.met) && SplitOf(arg, o.met, o.seen)
    && SplitsExactly(arg, before, o.met, arg.start, o.resumed)
    && (arg.vecLen > 0 && !o.backedOut ==> o.seen == before)
    && (if o.resumed > arg.start then o.vec != [] else o.met == before)
    // the pages passed are protected as asked, and nothing else changes
    && Scanned(arg, after, o.seen, o.stop)
    // what was copied out is the list of matches, up to `flushed`
    && Expand(o.vec) == (if arg.vecLen == 0 then [] else Matches(arg, o.seen, arg.start, o.flushed))
    && WellFormed(o.vec, o.backedOut)
    && |o.vec| <= arg.vecLen && |Expand(o.vec)| <= arg.maxPages
    // success: nothing is missing, and an early stop has one of two reasons
    && (o.ret >= 0 ==>
          && o.ret == |o.vec| && o.flushed == o.stop
          && (o.stop == arg.end || |Expand(o.vec)| == arg.maxPages || |o.vec| == arg.vecLen)
          && (o.stop < arg.end ==> o.walkEnd == o.stop)
          && (o.stop == arg.end ==> o.walkEnd == EndOfCompleteScan(arg, o)))
    // a VMA that fails the scan is what stopped it, and none was passed
    && AllPassable(arg, o.seen, arg.start, o.stop)
    && (o.ret == -EPERM ==> o.stop < arg.end && !Passable(arg, o.seen[o.stop]))
    && (o.ret < 0 ==> o.ret in {-EPERM, -EINTR, -EFAULT})
  }

  lemma Begin(arg: ScanArg, st: ScanState, table: Table)
    requires st.Valid() && st.arg == arg && st.out == [] && st.Content() == []
    requires arg.start <= |table|
    ensures Progress(st, table, table, arg.start) && Flushed(st, table, table, arg.start)
    ensures SplitOf(arg, table, table) && AtBoundary(arg, table, arg.start)
  {
    assert st.Regions() == [];
  }

  /** What has been copied out when everything reported has been. */
  lemma Delivered(st: ScanState, table: Table, seen: Table, pos: nat)
    requires Flushed(st, table, seen, pos)
    ensures Expand(st.out) == if st.arg.vecLen == 0 then [] else Matches(st.arg, seen, st.arg.start, pos)
    ensures WellFormed(st.out, st.backedOut)
    ensures |st.out| <= st.arg.vecLen && |Expand(st.out)| == st.found <= st.arg.maxPages
    ensures Scanned(st.arg, table, seen, pos) && st.arg.start <= pos <= |seen|
    ensures st.vecLen == 0 ==> |st.out| == st.arg.vecLen
  {
    if st.arg.vecLen == 0 {
      assert st.out == [];
    }
  }

  /** What has been copied out when the last copy failed. */
  lemma Undelivered(st: ScanState, table: Table, seen: Table, pos: nat) returns (flushed: nat)
    requires Progress(st, table, seen, pos) && st.HasBuffer()
    ensures st.arg.start <= flushed <= pos <= |seen|
    ensures Expand(st.out) == Matches(st.arg, seen, st.arg.start, flushed)
    ensures WellFormed(st.out, st.backedOut)
    ensures |st.out| <= st.arg.vecLen && |Expand(st.out)| <= st.arg.maxPages
    ensures Scanned(st.arg, table, seen, pos)
  {
    ExpandConcat(st.out, st.Content());
    flushed := PrefixCut(st.arg, seen, st.arg.start, pos, |Expand(st.out)|);
    assert forall i :: 0 <= i < |st.out| ==> st.Regions()[i] == st.out[i];
  }

  /** What a round leaves of the specification's view of the scan. */
  ghost predicate Standing(p: ScanPrivate, mm: Mm, before: Table, seen: Table, stop: nat, flushed: nat)
    reads p, p.vecBuf, mm
  {
    && SplitOf(p.arg, before, seen) && Scanned(p.arg, mm.table, seen, stop)
    && p.arg.start <= flushed <= stop <= |seen|
    && Expand(p.vecOut) == (if p.arg.vecLen == 0 then [] else Matches(p.arg, seen, p.arg.start, flushed))
    && WellFormed(p.vecOut, p.backedOut)
    && |p.vecOut| <= p.arg.vecLen && |Expand(p.vecOut)| <= p.arg.maxPages
    && AllPassable(p.arg, seen, p.arg.start, stop)
    && SplitsExactly(p.arg, before, seen, p.arg.start, stop)
    && (p.arg.vecLen > 0 && !p.backedOut ==> seen == before)
  }

  /** The next round starts at `pos`, with an empty buffer. */
  ghost predicate Restartable(p: ScanPrivate, mm: Mm, seen: Table, pos: nat)
    reads p, p.vecBuf, mm
  {
    At(p, mm, seen, pos) && HugeAligned(seen) && AtBoundary(p.arg, seen, pos) && p.State().Content() == []
  }

  lemma StartOfScan(p: ScanPrivate, mm: Mm)
    requires p.Allocated() && p.State().Valid() && p.State().Ready() && !p.backedOut
    requires p.State().out == [] && p.State().Content() == []
    requires p.arg.start <= |mm.table| <= ULONG_MAX && HugeAligned(mm.table)
    ensures Standing(p, mm, mm.table, mm.table, p.arg.start, p.arg.start)
    ensures Restartable(p, mm, mm.table, p.arg.start)
  {
    hide Matches, Expand, Progress, Flushed, SplitsExactly, SplitOf, Scanned, WellFormed;
    Begin(p.arg, p.State(), mm.table);
    NothingSplit(p.arg, mm.table, p.arg.start, p.arg.start);
    Delivered(p.State(), mm.table, mm.table, p.arg.start);
  }

  /** Everything before a run of regions is shorter than what they add up to. */
  lemma {:induction false} LongerVector(a: seq<PageRegion>, b: seq<PageRegion>)
    requires NonEmpty(b) && |a| < |b| && a == b[..|a|]
    ensures |Expand(a)| < |Expand(b)|
  {
    var n := |b| - 1;
    if |a| < n {
      assert b[..n][..|a|] == a;
      LongerVector(a, b[..n]);
    }
  }

  lemma ReportedSoFar(st: ScanState, table: Table, seen: Table, pos: nat)
    requires Progress(st, table, seen, pos) && st.Content() == []
    ensures st.HasBuffer() ==> Expand(st.out) == Matches(st.arg, seen, st.arg.start, pos)
    ensures st.HasBuffer() <==> st.arg.vecLen > 0
  {
    assert st.Regions() == st.out;
  }

  /** A round that lengthens the list of what was reported has moved on. */
  lemma RoundAdvances(arg: ScanArg, seen0: Table, seen: Table, from: nat, to: nat)
    requires SameBelow(arg, seen0, seen, from) && from <= to <= |seen|
    requires |Matches(arg, seen0, arg.start, from)| < |Matches(arg, seen, arg.start, to)|
    ensures from < to
  {
    MatchesAgree(arg, seen0, seen, arg.start, from);
  }

  /** The flush that ends a round whose walk returned `walked`. */
  method FlushRound(p: ScanPrivate, mm: Mm, walked: int, fault: bool,
                    ghost before: Table, ghost seen: Table, ghost stop: nat)
    returns (ret: int, nOut: int, more: bool, ghost flushed: nat)
    requires p.Allocated() && |seen| <= ULONG_MAX && Progress(p.State(), mm.table, seen, stop)
    requires SplitOf(p.arg, before, seen) && p.arg.start <= stop <= |seen|
    requires AllPassable(p.arg, seen, p.arg.start, stop) && SplitsExactly(p.arg, before, seen, p.arg.start, stop)
    requires p.arg.vecLen > 0 && !p.backedOut ==> seen == before
    requires walked == -ENOSPC ==> Blocked(p.State(), seen, stop)
    requires walked != -EFAULT
    modifies p`vecLen, p`vecOut, p`vecBufIndex, p`vecBufLen, p.vecBuf
    ensures Standing(p, mm, before, seen, stop, flushed)
    ensures if nOut >= 0 then ret == walked else ret == -EFAULT && fault && !more
    ensures nOut >= 0 ==> flushed == stop && |p.vecOut| == |old(p.vecOut)| + nOut
                          && |Expand(p.vecOut)| == (if p.vecBuf == null then 0 else p.foundPages)
    ensures |p.vecOut| >= |old(p.vecOut)|
    ensures ret == -ENOSPC ==> p.vecBuf != null && p.arg.start < stop
    ensures ret == -ENOSPC && !more ==> |p.vecOut| == p.arg.vecLen || p.foundPages == p.arg.maxPages
    ensures more ==> ret == -ENOSPC && At(p, mm, seen, stop) && p.vecLen < old(p.vecLen)
                     && p.foundPages != p.arg.maxPages && nOut > 0
                     && p.State().Content() == [] && |Expand(p.vecOut)| > |Expand(old(p.vecOut))|
  {
    hide Matches, Expand, Progress, Flushed, Blocked, SplitOf, SplitsExactly, Scanned, WellFormed, AllPassable;
    ghost var st := p.State();
    FlushProgress(st, mm.table, seen, stop);
    ret, more := walked, false;
    nOut := p.FlushBuffer(fault);
    if nOut < 0 {
      ret := nOut;
      flushed := Undelivered(st, mm.table, seen, stop);
      return;
    }
    flushed := stop;
    Delivered(p.State(), mm.table, seen, stop);
    if nOut > 0 {
      LongerVector(st.out, p.vecOut);
    }
    more := ret == -ENOSPC && p.vecLen != 0 && p.foundPages != p.arg.maxPages;
  }

  /** One round: a walk and a flush. `more` tells that the walk stopped for want of room,
      that there is room again, and that `max_pages` is not reached. */
  method ScanRound(p: ScanPrivate, mm: Mm, walkStart: nat, end: nat, fault: bool,
                   ghost before: Table, ghost seen0: Table)
    returns (ret: int, nOut: int, more: bool, ghost seen: Table, ghost stop: nat, ghost flushed: nat)
    requires Restartable(p, mm, seen0, walkStart) && SplitOf(p.arg, before, seen0)
    requires walkStart < end == p.arg.end <= |seen0| == |before| && AllPassable(p.arg, seen0, p.arg.start, walkStart)
    requires p.arg.start <= walkStart && SplitsExactly(p.arg, before, seen0, p.arg.start, walkStart)
    requires p.arg.vecLen > 0 && !p.backedOut ==> seen0 == before
    modifies p`vecBufIndex, p`foundPages, p`walkEnd, p`backedOut, p`curVmaCategory,
             p`vecLen, p`vecOut, p`vecBufLen, p.vecBuf, mm
    ensures Standing(p, mm, before, seen, stop, flushed)
    ensures walkStart <= stop <= end <= |seen| == |before| == |seen0|
    ensures ret in {0, -ENOSPC, -EPERM, -EFAULT} && (ret == -EFAULT ==> fault)
    ensures ret == -EPERM ==> stop < end && !Passable(p.arg, seen[stop])
    ensures nOut >= 0 ==> ret != -EFAULT && flushed == stop && |p.vecOut| == |old(p.vecOut)| + nOut
                          && |Expand(p.vecOut)| == (if p.vecBuf == null then 0 else p.foundPages)
    ensures nOut < 0 ==> ret == -EFAULT && !more
    ensures ret == 0 ==> stop == end
    ensures ret == -ENOSPC ==> p.arg.start < stop < end && p.walkEnd == stop
    ensures SplitOf(p.arg, seen0, seen) && |p.vecOut| >= |old(p.vecOut)|
    ensures ret == 0 ==> p.walkEnd == LastClamp(p.arg, seen0, seen, walkStart, end, old(p.walkEnd))
    ensures ret == -ENOSPC && !more ==> |p.vecOut| == p.arg.vecLen || p.foundPages == p.arg.maxPages
    ensures more ==> ret == -ENOSPC && Restartable(p, mm, seen, stop) && walkStart < stop && nOut > 0
                     && p.vecLen < old(p.vecLen)
    ensures p.vecBuf == null ==> ret != -ENOSPC
    ensures old(p.backedOut) ==> p.backedOut
  {
    hide Matches, Expand, Progress, Flushed, Blocked, AtBoundary, HugeAligned, SplitOf, Passable, AllPassable;
    hide SplitsExactly, SplitsBelow, LastClamp;
    ghost var reported := p.vecOut;
    assert p.vecBuf != null ==> Expand(reported) == Matches(p.arg, seen0, p.arg.start, walkStart) by {
      ReportedSoFar(p.State(), mm.table, seen0, walkStart);
    }
    ret, seen, stop := WalkPageRange(p, mm, walkStart, end, seen0);
    SplitTransitive(p.arg, before, seen0, seen);
    assert p.vecBuf == null ==> p.arg.vecLen == 0 by {
      ReportedSoFar(old(p.State()), old(mm.table), seen0, walkStart);
    }
    PassableOn(p.arg, seen0, seen, p.arg.start, walkStart, stop);
    SplitsOn(p.arg, before, seen0, seen, p.arg.start, walkStart, stop);
    ret, nOut, more, flushed := FlushRound(p, mm, ret, fault, before, seen, stop);
    if more {
      RoundAdvances(p.arg, seen0, seen, walkStart, stop);
    }
  }

  /** `fault` and `signal` decide in which rounds the copy to the caller fails, and which
      rounds are interrupted before their walk; `rounds` of them are walked. */
  method DoPagemapScan(mm: Mm, arg: ScanArg, fault: nat -> bool, signal: nat -> bool, writebackFault: bool)
    returns (ret: int, vec: seq<PageRegion>, walkEnd: nat, ghost o: Outcome, ghost rounds: nat)
    requires arg.start <= arg.end <= |mm.table| <= ULONG_MAX && 0 < arg.maxPages <= ULONG_MAX
    requires HugeAligned(mm.table)
    modifies mm
    ensures ScanPost(arg, old(mm.table), mm.table, o)
    ensures ret == o.ret && vec == o.vec && walkEnd == o.walkEnd
    ensures writebackFault ==> ret == -EFAULT
    ensures signal(0) && arg.start < arg.end && !writebackFault ==> ret == -EINTR
    ensures ret == -EINTR ==> signal(rounds)
    ensures forall i :: 0 <= i < rounds ==> !signal(i)
    ensures ret == -EFAULT ==> writebackFault || (rounds > 0 && fault(rounds - 1))
  {
    hide Matches, Expand, Progress, Flushed, Blocked, AtBoundary, HugeAligned, SplitOf, Scanned, WellFormed, Passable;
    hide SplitsExactly, LastClamp, AllPassable, Restartable;
    var p := new ScanPrivate(arg);
    StartOfScan(p, mm);
    NothingSplit(arg, mm.table, arg.start, arg.start);
    Unclamped(arg, mm.table, arg.start, arg.end, 0);
    ghost var seen, met := mm.table, mm.table;
    ghost var stop: nat, flushed: nat, resumed: nat := arg.start, arg.start, arg.start;
    var walkStart: nat, nRangesOut, nOut, round := arg.start, 0, 0, 0;
    var more := arg.start < arg.end;
    ret := 0;
    while more
      invariant p.arg == arg && fresh(p) && (p.vecBuf != null ==> fresh(p.vecBuf))
      invariant arg.start <= walkStart <= stop <= arg.end <= |seen| == |old(mm.table)|
      invariant Standing(p, mm, old(mm.table), seen, stop, flushed)
      invariant more ==> walkStart == stop == flushed < arg.end && Restartable(p, mm, seen, walkStart)
      invariant more ==> ret == -ENOSPC || (ret == 0 && walkStart == arg.start)
      invariant arg.start <= resumed <= stop
      invariant SplitOf(arg, old(mm.table), met) && SplitOf(arg, met, seen) && |met| == |seen|
      invariant SplitsExactly(arg, old(mm.table), met, arg.start, resumed)
      invariant resumed > arg.start || (more && walkStart > arg.start) ==> p.vecOut != []
      invariant more && walkStart == arg.start ==> seen == old(mm.table)
      invariant resumed == arg.start ==> met == old(mm.table)
      invariant more ==> p.walkEnd == if walkStart == arg.start then 0 else walkStart
      invariant ret in {0, -ENOSPC, -EPERM, -EFAULT}
      invariant ret == -EPERM ==> stop < arg.end && !Passable(arg, seen[stop])
      invariant ret == -EFAULT ==> round > 0 && fault(round - 1)
      invariant forall i :: 0 <= i < round ==> !signal(i)
      invariant round == 0 ==> more == (arg.start < arg.end)
      invariant ret == 0 || ret == -ENOSPC ==>
                  && flushed == stop && nRangesOut == |p.vecOut|
                  && (stop == arg.end || more || |p.vecOut| == arg.vecLen || |Expand(p.vecOut)| == arg.maxPages)
                  && (ret == -ENOSPC ==> arg.start < stop < arg.end && p.walkEnd == stop)
                  && (ret == 0 && !more ==> stop == arg.end)
                  && (ret == 0 && !more ==>
                        p.walkEnd == LastClamp(arg, met, seen, resumed, arg.end,
                                               if resumed == arg.start then 0 else resumed))
      decreases if more then 1 else 0, p.vecLen
    {
      resumed, met := walkStart, seen;
      Unsplit(arg, seen, 0);
      if signal(round) {
        ret := -EINTR;
        break;
      }
      ret, nOut, more, seen, stop, flushed :=
        ScanRound(p, mm, walkStart, arg.end, fault(round), old(mm.table), seen);
      if nOut >= 0 {
        nRangesOut := nRangesOut + nOut;
      }
      if more {
        walkStart := p.walkEnd;
      }
      round := round + 1;
    }
    if ret == 0 || ret == -ENOSPC {
      ret := nRangesOut;
    }
    walkEnd, vec := if p.walkEnd == 0 then arg.end else p.walkEnd, p.vecOut;
    if writebackFault {
      ret := -EFAULT;
    }
    rounds := round;
    o := Outcome(ret, vec, walkEnd, seen, stop, flushed, resumed, met, p.backedOut);
  }
}
