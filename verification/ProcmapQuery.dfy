/** The PROCMAP_QUERY request: find the VMA at or after an address that satisfies a filter,
    over an address space that may change between two lookups. */
module ProcmapQuery {
  import opened Kernel
  import opened AddressSpace

  /** The query's flags: which VMAs will do. */
  datatype Flags = Flags(coveringOrNext: bool, fileBacked: bool,
                         readable: bool, writable: bool, executable: bool, shared: bool)

  /** The VMA passes the file and permission filters. */
  predicate Satisfies(v: Vma, f: Flags) {
    && (f.fileBacked ==> v.file) && (f.readable ==> v.read) && (f.writable ==> v.write)
    && (f.executable ==> v.exec) && (f.shared ==> v.mayShare)
  }

  /** What each flag asks for: a VMA is turned down exactly if it lacks one of these. */
  lemma TurnedDownFor(v: Vma, f: Flags)
    ensures !Satisfies(v, f) <==>
              || (f.fileBacked && !v.file) || (f.readable && !v.read) || (f.writable && !v.write)
              || (f.executable && !v.exec) || (f.shared && !v.mayShare)
  {
  }

  /** What the query is for, in one snapshot: the VMA of lowest address that satisfies the
      filters among those it may return. */
  ghost predicate Answers(s: Snapshot, addr: nat, f: Flags, v: Vma) {
    && v in s && addr < v.end && Satisfies(v, f) && (v.start <= addr || f.coveringOrNext)
    && forall w :: w in s && addr < w.end && Satisfies(w, f) ==> v.start <= w.start
  }

  /** No VMA of the snapshot may be returned. */
  ghost predicate NoAnswer(s: Snapshot, addr: nat, f: Flags) {
    forall v :: v in s && addr < v.end && Satisfies(v, f) ==> v.start > addr && !f.coveringOrNext
  }

  /** The reader's own share of locks and references. */
  datatype Holding = Holding(mm: nat, mmapLock: nat, rcu: nat, vmaLocks: nat)

  datatype Result = Found(vma: Vma) | Error(code: int)

  /** What VMAs skipped on the way to `addr` have in common: they do not pass the filters. */
  ghost predicate SkippedTo(s: Snapshot, from: nat, addr: nat, f: Flags) {
    from <= addr && forall w :: w in s && from < w.end <= addr ==> !Satisfies(w, f)
  }

  /** The VMA locks of the first `n` lookups were taken. */
  ghost predicate AllLocked(outcome: nat -> LockOutcome, n: nat) {
    forall i :: 0 <= i < n ==> outcome(i).Locked?
  }

  /** The lookup after `n` others, none of which needed the mmap lock, was interrupted. */
  ghost predicate InterruptedAfter(outcome: nat -> LockOutcome, n: nat) {
    AllLocked(outcome, n) && outcome(n).Interrupted?
  }

  /** One lookup more: the VMA found is the answer, or is skipped, or there is none. */
  lemma LookupStep(s: Snapshot, from: nat, addr: nat, f: Flags)
    requires WellFormed(s) && SkippedTo(s, from, addr, f) && (from < addr ==> f.coveringOrNext)
    ensures FirstAfter(s, addr).None? ==> NoAnswer(s, from, f)
    ensures FirstAfter(s, addr).Some? ==>
              var v := FirstAfter(s, addr).value;
              && (Satisfies(v, f) && (f.coveringOrNext || v.start <= addr) ==> Answers(s, from, f, v))
              && (!Satisfies(v, f) ==> SkippedTo(s, from, v.end, f))
              && (!f.coveringOrNext && !(Satisfies(v, f) && v.start <= addr) ==> NoAnswer(s, from, f))
  {
    FirstIsLowest(s, addr);
    forall w | w in s && from < w.end && Satisfies(w, f)
      ensures addr < w.end
    {
    }
  }

  /** Where the lookup after the steps begins. */
  ghost function Next(from: nat, passes: seq<Pass>): nat {
    if passes == [] then from else Position(passes)
  }

  /** The steps of a query from `from` on: every VMA found failed the filters. */
  ghost predicate Skips(history: nat -> Snapshot, from: nat, passes: seq<Pass>, f: Flags) {
    && TraceFrom(history, from, passes)
    && (forall i :: 0 <= i < |passes| ==> !Satisfies(passes[i].vma, f))
    && (passes != [] ==> f.coveringOrNext)
  }

  /** Whatever changed between the lookups, an address that a query has passed over was in a
      VMA that failed the filters when it was found, or was not mapped then. */
  lemma PassedOverForAReason(history: nat -> Snapshot, from: nat, passes: seq<Pass>, f: Flags, addr: nat)
    requires Skips(history, from, passes, f) && from <= addr < Next(from, passes)
    ensures exists i :: 0 <= i < |passes| && passes[i].from <= addr < passes[i].vma.end
              && ((Covers(passes[i].vma, addr) && !Satisfies(passes[i].vma, f))
                  || !Mapped(history(passes[i].time), addr))
  {
    EveryAddressAccounted(history, from, passes, addr);
  }

  /** One VMA more that failed the filters. */
  lemma SkipOne(history: nat -> Snapshot, from: nat, passes: seq<Pass>, f: Flags, time: nat, v: Vma)
    requires Skips(history, from, passes, f) && f.coveringOrNext
    requires FirstAfter(history(time), Next(from, passes)) == Some(v) && !Satisfies(v, f)
    ensures var more := passes + [Pass(Next(from, passes), v, time)];
            Skips(history, from, more, f) && Next(from, more) == v.end
  {
    hide FirstAfter, WellFormed, Satisfies;
  }

  class QueryContext {
    const history: nat -> Snapshot
    /** No VMA ends beyond the task's address space. */
    const taskSize: nat
    var now: nat
    var lockedVma: Option<Vma>
    var mmapLocked: bool
    var held: Holding

    constructor (history: nat -> Snapshot, taskSize: nat)
      ensures Idle() && this.history == history && this.taskSize == taskSize
    {
      this.history, this.taskSize := history, taskSize;
      now, lockedVma, mmapLocked, held := 0, None, false, Holding(0, 0, 0, 0);
    }

    ghost predicate Idle()
      reads this
    {
      held == Holding(0, 0, 0, 0) && lockedVma.None?
    }

    ghost predicate Bounded() {
      forall t :: WellFormed(history(t)) && forall i :: 0 <= i < |history(t)| ==> history(t)[i].end <= taskSize
    }

    /** The mm reference, and at most one of the mmap lock and a VMA lock. */
    ghost predicate Running()
      reads this
    {
      && held == (if mmapLocked then Holding(1, 1, 0, 0)
                  else Holding(1, 0, 0, if lockedVma.Some? then 1 else 0))
      && (mmapLocked ==> lockedVma.None?)
    }

    /** The address space has been the same since `time`. */
    ghost predicate UnchangedSince(time: nat)
      reads this
    {
      time <= now && forall t :: time <= t <= now ==> history(t) == history(time)
    }

    method UnlockCtxVma()
      requires lockedVma.Some? ==> held.vmaLocks > 0
      modifies this`lockedVma, this`held
      ensures lockedVma.None?
      ensures held == if old(lockedVma).Some? then old(held).(vmaLocks := old(held).vmaLocks - 1) else old(held)
    {
      if lockedVma.Some? {
        held := held.(vmaLocks := held.vmaLocks - 1);
        lockedVma := None;
      }
    }

    /** The first VMA that ends after `addr`, protected by its own lock or by the mmap lock,
        which is taken when the VMA cannot be locked. */
    method FindByAddr(addr: nat, outcome: LockOutcome, steps: nat) returns (vma: Option<Vma>, err: int)
      requires Running()
      modifies this`now, this`lockedVma, this`mmapLocked, this`held
      ensures Running() && old(now) <= now
      ensures err == 0 ==> vma == FirstAfter(history(now), addr) && (vma.Some? ==> mmapLocked || lockedVma == vma)
      ensures mmapLocked == (old(mmapLocked) || outcome.Again?)
      ensures err != 0 <==> !old(mmapLocked) && outcome.Interrupted?
      ensures err != 0 ==> err == EINTR
    {
      if mmapLocked {
        return FirstAfter(history(now), addr), 0;
      }
      UnlockCtxVma();
      held := held.(rcu := held.rcu + 1);
      now := now + steps;
      vma, err := None, 0;
      match outcome {
        case Locked =>
          vma := FirstAfter(history(now), addr);
          if vma.Some? {
            held := held.(vmaLocks := held.vmaLocks + 1);
          }
        case Again => err := EAGAIN;
        case Interrupted => err := EINTR;
      }
      held := held.(rcu := held.rcu - 1);
      if err == 0 {
        lockedVma := vma;
      } else if err == EAGAIN {
        held := held.(mmapLock := held.mmapLock + 1);
        vma, err := FirstAfter(history(now), addr), 0;
        mmapLocked := true;
      }
    }

    /** `outcome` and `steps` say what each lookup meets. Over an address space that does not
        change the result is the answer, or ENOENT exactly if there is none; over any, `passes`
        are the VMAs passed over, and the result is what the lookup after them found. */
    method QueryMatchingVma(addr0: nat, f: Flags, outcome: nat -> LockOutcome, steps: nat -> nat)
      returns (r: Result, ghost passes: seq<Pass>)
      requires Running() && Bounded()
      modifies this`now, this`lockedVma, this`mmapLocked, this`held
      ensures Running() && old(now) <= now
      ensures r.Found? ==>
                && r.vma in history(now) && addr0 < r.vma.end && Satisfies(r.vma, f)
                && (r.vma.start <= addr0 || f.coveringOrNext)
                && (mmapLocked || lockedVma == Some(r.vma))
      ensures UnchangedSince(old(now)) ==>
                && (r.Found? ==> Answers(history(now), addr0, f, r.vma))
                && (r == Error(ENOENT) ==> NoAnswer(history(now), addr0, f))
      ensures r.Error? ==> r.code == ENOENT || r.code == EINTR
      ensures r == Error(EINTR) <==> !old(mmapLocked) && InterruptedAfter(outcome, |passes|)
      ensures Skips(history, addr0, passes, f)
      ensures r.Found? ==> FirstAfter(history(now), Next(addr0, passes)) == Some(r.vma)
      ensures r == Error(ENOENT) ==>
                var v := FirstAfter(history(now), Next(addr0, passes));
                v.Some? ==> !f.coveringOrNext && (!Satisfies(v.value, f) || v.value.start > addr0)
    {
      hide Skips, Answers, NoAnswer, FirstAfter, Satisfies;
      var addr, round := addr0, 0;
      passes := [];
      assert Skips(history, addr0, passes, f) by { NothingSkipped(addr0, f); }
      while true
        invariant Running() && old(now) <= now
        invariant Skips(history, addr0, passes, f) && addr == Next(addr0, passes)
        invariant round == |passes| && mmapLocked == (old(mmapLocked) || !AllLocked(outcome, round))
        invariant addr0 <= addr && (addr0 < addr ==> f.coveringOrNext && addr <= taskSize)
        invariant UnchangedSince(old(now)) ==> SkippedTo(history(old(now)), addr0, addr, f)
        decreases if addr <= taskSize then taskSize - addr + 1 else 0
      {
        var vma, err := FindByAddr(addr, outcome(round), steps(round));
        if err != 0 {
          return Error(err), passes;
        }
        if UnchangedSince(old(now)) {
          assert history(now) == history(old(now));
          LookupStep(history(now), addr0, addr, f);
        }
        if vma.None? {
          return Error(ENOENT), passes;
        }
        var v := vma.value;
        if Satisfies(v, f) && (f.coveringOrNext || v.start <= addr) {
          return Found(v), passes;
        }
        addr := v.end;
        if !f.coveringOrNext {
          return Error(ENOENT), passes;
        }
        SkipOne(history, addr0, passes, f, now, v);
        passes := passes + [Pass(Next(addr0, passes), v, now)];
        round := round + 1;
      }
    }

    lemma NothingSkipped(from: nat, f: Flags)
      requires Bounded()
      ensures Skips(history, from, [], f)
    {
    }

    method Teardown()
      requires Running()
      modifies this`lockedVma, this`mmapLocked, this`held
      ensures held == Holding(1, 0, 0, 0) && lockedVma.None? && !mmapLocked
    {
      if mmapLocked {
        held := held.(mmapLock := held.mmapLock - 1);
        mmapLocked := false;
      } else {
        UnlockCtxVma();
      }
    }

    /** The whole request; `lateError` stands for any error after the VMA was found, while it
        is copied into the reply. On every exit all locks and references are given back. */
    method DoProcmapQuery(mmAlive: bool, addr: nat, f: Flags, outcome: nat -> LockOutcome, steps: nat -> nat,
                          lateError: int) returns (r: Result, ghost passes: seq<Pass>)
      requires Idle() && Bounded()
      modifies this
      ensures Idle() && old(now) <= now
      ensures !mmAlive ==> r == Error(ESRCH) && now == old(now)
      ensures mmAlive && r.Found? ==> lateError == 0
      ensures mmAlive && r.Error? ==>
                r.code == ENOENT || (lateError != 0 && r.code == lateError)
                || (r.code == EINTR && InterruptedAfter(outcome, |passes|))
      ensures mmAlive && InterruptedAfter(outcome, |passes|) ==> r == Error(EINTR)
      ensures Skips(history, addr, passes, f)
      ensures r.Found? ==> FirstAfter(history(now), Next(addr, passes)) == Some(r.vma) && Satisfies(r.vma, f)
                           && (r.vma.start <= addr || f.coveringOrNext)
      ensures mmAlive && lateError == 0 && UnchangedSince(old(now)) ==>
                && (r.Found? ==> Answers(history(now), addr, f, r.vma))
                && (r == Error(ENOENT) ==> NoAnswer(history(now), addr, f))
    {
      if !mmAlive {
        NothingSkipped(addr, f);
        return Error(ESRCH), [];
      }
      held := held.(mm := held.mm + 1);
      lockedVma, mmapLocked := None, false;
      r, passes := QueryMatchingVma(addr, f, outcome, steps);
      if r.Found? && lateError != 0 {
        r := Error(lateError);
      }
      Teardown();
      held := held.(mm := held.mm - 1);
    }
  }

  /** The result is determined: a query has an answer or none, and only one. */
  lemma AnswerIsUnique(s: Snapshot, addr: nat, f: Flags, v: Vma, w: Vma)
    requires WellFormed(s) && Answers(s, addr, f, v) && Answers(s, addr, f, w)
    ensures v == w && !NoAnswer(s, addr, f)
  {
    var i :| 0 <= i < |s| && s[i] == v;
    var j :| 0 <= j < |s| && s[j] == w;
    assert v.start == w.start < v.end && w.start < w.end;
    assert (i < j ==> v.end <= w.start) && (j < i ==> w.end <= v.start);
  }
}
