/** Reading /proc/pid/maps (and smaps): the seq_file callbacks m_start, m_next and m_stop
    over an address space that other threads may change whenever nothing protects it. The
    reader takes one VMA lock at a time under RCU and falls back to the mmap lock. */
module MapsIteration {
  import opened Kernel
  import opened AddressSpace

  const SENTINEL_VMA_END := -1
  const SENTINEL_VMA_GATE := -2

  /** The reader's own share of locks and references. */
  datatype Held = Held(task: nat, mm: nat, mmapLock: nat, rcu: nat, vmaLocks: nat)

  const NOTHING := Held(0, 0, 0, 0, 0)

  datatype Item = Record(vma: Vma) | Gate | Null | Error(code: int)

  class MapsReader {
    /** The file is `maps`; `smaps` and `numa_maps` take the mmap lock from the start. */
    const perVma: bool
    const hasGate: bool
    /** The address space at each time, and the time. */
    const history: nat -> Snapshot
    var now: nat

    var task: bool
    var lockedVma: Option<Vma>
    var mmapLocked: bool
    var iter: nat
    var lastPos: int
    var held: Held

    /** The records delivered, each with the snapshot it was found in; a record is taken back
        when reading resumes where it began. */
    ghost var passes: seq<Pass>
    /** The record delivered last. */
    ghost var last: Option<Pass>
    /** When no VMA was left. */
    ghost var endTime: nat

    constructor (perVma: bool, hasGate: bool, history: nat -> Snapshot)
      requires forall t :: WellFormed(history(t))
      ensures Idle() && Tracks(0)
      ensures this.perVma == perVma && this.hasGate == hasGate && this.history == history && last.None?
    {
      this.perVma, this.hasGate, this.history := perVma, hasGate, history;
      now, iter, lastPos := 0, 0, 0;
      task, lockedVma, mmapLocked, held := false, None, false, NOTHING;
      passes, last, endTime := [], None, 0;
    }

    /** Between m_stop and m_start nothing is held. */
    ghost predicate Idle()
      reads this
    {
      !task && lockedVma.None? && held == NOTHING
    }

    /** Between m_start and m_stop: one task and one mm reference, and either the mmap lock
        with the iterator at `pos`, or RCU and at most one VMA lock. */
    ghost predicate Running(pos: int)
      reads this
    {
      && task
      && held == (if mmapLocked then Held(1, 1, 1, 0, 0)
                  else Held(1, 1, 0, 1, if lockedVma.Some? then 1 else 0))
      && (mmapLocked ==> lockedVma.None? && (pos >= 0 ==> iter == pos))
    }

    /** `pos` is where the records delivered so far end; at the end nothing is left after it in
        the snapshot of `endTime`. */
    ghost predicate Tracks(pos: int)
      reads this
    {
      && Trace(history, passes)
      && (pos >= 0 ==> pos == Position(passes) && RemembersLast())
      && (pos < 0 ==> FirstAfter(history(endTime), Position(passes)).None?)
    }

    /** `last_pos` is where the last record began. That record is still among those delivered,
        unless reading was to resume there and was interrupted. */
    ghost predicate RemembersLast()
      reads this
    {
      && (last.None? ==> passes == [])
      && (last.Some? ==>
            && lastPos == last.value.from
            && FirstAfter(history(last.value.time), last.value.from) == Some(last.value.vma)
            && (DeliveredLast() || Position(passes) == last.value.from))
    }

    ghost predicate DeliveredLast()
      reads this
    {
      passes != [] && last == Some(passes[|passes| - 1])
    }

    /** Where reading resumes: where the last record began. */
    ghost function ResumeFrom(): nat
      reads this
    {
      if last.Some? then last.value.from else 0
    }

    /** The records that stay delivered when reading resumes. */
    ghost function Kept(): seq<Pass>
      reads this
    {
      if DeliveredLast() then passes[..|passes| - 1] else passes
    }

    /** A record is protected while the reader uses it. */
    ghost predicate Protects(vma: Vma)
      reads this
    {
      mmapLocked || lockedVma == Some(vma)
    }

    /** Other threads may change the address space unless the mmap lock is held. */
    method Interference(steps: nat)
      modifies this`now
      ensures old(now) <= now && (held.mmapLock > 0 ==> now == old(now))
    {
      if held.mmapLock == 0 {
        now := now + steps;
      }
    }

    method UnlockCtxVma()
      requires lockedVma.Some? ==> held.vmaLocks > 0
      modifies this`lockedVma, this`held
      ensures lockedVma.None?
      ensures held == if old(lockedVma).Some? then old(held).(vmaLocks := old(held).vmaLocks - 1) else old(held)
    {
      if lockedVma.Some? {
        held := held.(vmaLocks := held.vmaLocks - 1);
        lockedVma := None;
      }
    }

    /** The next VMA, from the iterator or by locking it under RCU; an error code if the lock
        could not be taken. */
    method GetNextVma(pos: nat, outcome: LockOutcome, steps: nat) returns (vma: Option<Vma>, err: int)
      requires Running(pos)
      modifies this`now, this`lockedVma, this`held, this`iter
      ensures old(now) <= now && (err == 0 <==> mmapLocked || outcome.Locked?)
      ensures err == 0 ==> vma == FirstAfter(history(now), pos)
                           && Running(if vma.Some? then vma.value.end else pos)
                           && (vma.Some? ==> Protects(vma.value))
      ensures err != 0 ==> !mmapLocked && lockedVma.None? && Running(pos) && iter == old(iter)
                           && err == (if outcome.Again? then EAGAIN else EINTR) && !outcome.Locked?
    {
      Interference(steps);
      if mmapLocked {
        vma, err := FirstAfter(history(now), iter), 0;
        if vma.Some? {
          iter := vma.value.end;
        }
        return;
      }
      UnlockCtxVma();
      match outcome {
        case Again => return None, EAGAIN;
        case Interrupted => return None, EINTR;
        case Locked =>
          vma, err := FirstAfter(history(now), pos), 0;
          if vma.Some? {
            held := held.(vmaLocks := held.vmaLocks + 1);
            lockedVma := vma;
          }
      }
    }

    method FallbackToMmapLock(pos: nat) returns (taken: bool)
      requires Running(pos) && lockedVma.None?
      modifies this`held, this`iter, this`mmapLocked
      ensures taken == !old(mmapLocked) && mmapLocked && Running(pos)
    {
      if mmapLocked {
        return false;
      }
      held := held.(rcu := held.rcu - 1);
      held := held.(mmapLock := held.mmapLock + 1);
      iter := pos;
      mmapLocked := true;
      return true;
    }

    /** Deliver the next record. The position moves strictly past it, and never on an error;
        EAGAIN never gets out, but leaves the reader with the mmap lock. */
    method ProcGetVma(pos: nat, outcome: LockOutcome, steps: nat, moreSteps: nat) returns (item: Item, next: int)
      requires Running(pos) && Trace(history, passes) && pos == Position(passes)
      modifies this`now, this`lockedVma, this`held, this`iter, this`mmapLocked, this`lastPos,
               this`passes, this`last, this`endTime
      ensures Running(next) && old(now) <= now && Trace(history, passes)
      ensures mmapLocked == (old(mmapLocked) || outcome.Again?)
      ensures item.Error? <==> !old(mmapLocked) && outcome.Interrupted?
      ensures item.Gate? || item.Null? ==> item == if hasGate then Gate else Null
      ensures item.Record? ==>
                && Tracks(next) && pos < next == item.vma.end && Protects(item.vma)
                && FirstAfter(history(now), pos) == Some(item.vma)
                && last == Some(Pass(pos, item.vma, now)) && passes == old(passes) + [last.value]
      ensures item.Gate? || item.Null? ==>
                next == SENTINEL_VMA_GATE && passes == old(passes) && Tracks(next) && endTime == now
      ensures item.Error? ==>
                item.code == EINTR && outcome.Interrupted? && next == pos
                && passes == old(passes) && lastPos == old(lastPos) && last == old(last)
    {
      hide TraceFrom, FirstAfter;
      var vma, err := GetNextVma(pos, outcome, steps);
      if err == EAGAIN {
        var taken := FallbackToMmapLock(pos);
        vma, err := GetNextVma(pos, outcome, moreSteps);
      }
      if err != 0 {
        return Error(err), pos;
      }
      lastPos := pos;
      if vma.Some? {
        next, item := vma.value.end, Record(vma.value);
        TracePush(history, passes, Pass(pos, vma.value, now));
        last := Some(Pass(pos, vma.value, now));
        passes := passes + [last.value];
      } else {
        next, item := SENTINEL_VMA_GATE, if hasGate then Gate else Null;
        endTime := now;
      }
    }

    /** Begin or resume reading. Resuming goes back to where the last record began; in the same
        snapshot it delivers that record again, in another one what has taken its place. */
    method MStart(pos: int, taskAlive: bool, mmAlive: bool, killed: bool,
                  outcome: LockOutcome, steps: nat, moreSteps: nat) returns (item: Item, next: int)
      requires Idle() && Tracks(pos) && pos >= SENTINEL_VMA_GATE
      modifies this`now, this`task, this`lockedVma, this`held, this`iter, this`mmapLocked, this`lastPos,
               this`passes, this`last, this`endTime
      ensures Tracks(next) && next >= SENTINEL_VMA_GATE && old(now) <= now
      ensures Idle() || Running(next)
      ensures Idle() ==> next == pos && passes == old(passes) && last == old(last)
      ensures pos == SENTINEL_VMA_END ==> Idle() && item == Null
      ensures pos != SENTINEL_VMA_END && !taskAlive ==> Idle() && item == Error(ESRCH)
      ensures pos != SENTINEL_VMA_END && taskAlive && !mmAlive ==> Idle() && item == Null
      ensures pos != SENTINEL_VMA_END && taskAlive && mmAlive ==>
                if perVma || !killed then Running(next) else Idle() && item == Error(EINTR)
      ensures pos == SENTINEL_VMA_GATE && Running(next) ==>
                item == (if hasGate then Gate else Null) && passes == old(passes) && last == old(last)
      ensures Running(next) && item.Record? ==>
                && pos >= 0 && next == item.vma.end && Protects(item.vma)
                && last == Some(Pass(old(ResumeFrom()), item.vma, now))
                && FirstAfter(history(now), old(ResumeFrom())) == Some(item.vma)
                && passes == old(Kept()) + [last.value]
      ensures Running(next) && item.Record? && old(last).Some? && history(now) == history(old(last).value.time) ==>
                item.vma == old(last).value.vma
      ensures pos >= 0 && Running(next) && !item.Record? ==> passes == old(Kept())
      ensures Running(next) && item.Error? ==> last == old(last)
      ensures Running(next) && (item.Gate? || item.Null?) ==> next == SENTINEL_VMA_GATE
      ensures Running(next) && item.Error? ==> item.code == EINTR && next >= 0
    {
      hide Trace, TraceFrom, Kept, FirstAfter;
      next := pos;
      ghost var kept := Kept();
      if pos >= 0 {
        KeptTraces(pos);
      }
      if pos == SENTINEL_VMA_END {
        return Null, next;
      }
      item := Acquire(taskAlive, mmAlive, killed);
      if !task {
        return;
      }
      if pos == SENTINEL_VMA_GATE {
        return if hasGate then Gate else Null, next;
      }
      if pos > 0 {
        next := lastPos;
      }
      passes := kept;
      iter := next;
      item, next := ProcGetVma(next, outcome, steps, moreSteps);
    }

    lemma KeptTraces(pos: nat)
      requires Tracks(pos)
      ensures Trace(history, Kept()) && Position(Kept()) == ResumeFrom()
      ensures ResumeFrom() == if pos > 0 then lastPos else 0
      ensures last.None? ==> Kept() == []
    {
      if passes != [] {
        TracePop(history, passes);
      }
    }

    lemma KeptIsPart()
      ensures forall p :: p in Kept() ==> p in passes
    {
    }

    /** Why the reader cannot start, and what it delivers instead of a record. */
    function Failure(taskAlive: bool, mmAlive: bool, killed: bool): Option<Item> {
      if !taskAlive then Some(Error(ESRCH))
      else if !mmAlive then Some(Null)
      else if !perVma && killed then Some(Error(EINTR))
      else None
    }

    /** Take the references and the lock; on failure nothing is kept. */
    method Acquire(taskAlive: bool, mmAlive: bool, killed: bool) returns (item: Item)
      requires Idle()
      modifies this`task, this`lockedVma, this`held, this`mmapLocked
      ensures task <==> Failure(taskAlive, mmAlive, killed).None?
      ensures task ==> Running(SENTINEL_VMA_GATE)
      ensures !task ==> Idle() && item == Failure(taskAlive, mmAlive, killed).value
    {
      if !taskAlive {
        return Error(ESRCH);
      }
      held := held.(task := held.task + 1);
      task := true;
      if !mmAlive {
        PutTask();
        return Null;
      }
      held := held.(mm := held.mm + 1);
      var locked := LockVmaRange(killed);
      if !locked {
        held := held.(mm := held.mm - 1);
        PutTask();
        return Error(EINTR);
      }
      return Null;
    }

    method PutTask()
      requires task && held.task > 0
      modifies this`task, this`held
      ensures !task && held == old(held).(task := old(held).task - 1)
    {
      held := held.(task := held.task - 1);
      task := false;
    }

    method LockVmaRange(killed: bool) returns (ok: bool)
      requires held.mmapLock == held.rcu == held.vmaLocks == 0 && lockedVma.None?
      modifies this`mmapLocked, this`lockedVma, this`held
      ensures ok == (perVma || !killed) && lockedVma.None?
      ensures ok ==> mmapLocked == !perVma
                     && held == if perVma then old(held).(rcu := 1) else old(held).(mmapLock := 1)
      ensures !ok ==> held == old(held)
    {
      if !perVma {
        if killed {
          return false;
        }
        held := held.(mmapLock := held.mmapLock + 1);
        mmapLocked := true;
      } else {
        held := held.(rcu := held.rcu + 1);
        lockedVma, mmapLocked := None, false;
      }
      return true;
    }

    method MNext(pos: int, outcome: LockOutcome, steps: nat, moreSteps: nat) returns (item: Item, next: int)
      requires Running(pos) && Tracks(pos) && (pos == SENTINEL_VMA_GATE || pos >= 0)
      modifies this`now, this`lockedVma, this`held, this`iter, this`mmapLocked, this`lastPos,
               this`passes, this`last, this`endTime
      ensures Running(next) && Tracks(next) && old(now) <= now
      ensures pos == SENTINEL_VMA_GATE ==> item == Null && next == SENTINEL_VMA_END && passes == old(passes)
      ensures item.Record? ==>
                && 0 <= pos < next == item.vma.end && Protects(item.vma)
                && last == Some(Pass(pos, item.vma, now)) && FirstAfter(history(now), pos) == Some(item.vma)
                && passes == old(passes) + [last.value]
      ensures pos >= 0 && (item.Gate? || item.Null?) ==> next == SENTINEL_VMA_GATE && passes == old(passes)
      ensures item.Error? <==> pos >= 0 && !old(mmapLocked) && outcome.Interrupted?
      ensures item.Error? ==> item.code == EINTR && next == pos && passes == old(passes) && last == old(last)
    {
      if pos == SENTINEL_VMA_GATE {
        return Null, SENTINEL_VMA_END;
      }
      item, next := ProcGetVma(pos, outcome, steps, moreSteps);
    }

    /** Release everything m_start and the lookups took; a no-op if m_start took nothing. */
    method MStop(ghost pos: int)
      requires Idle() || Running(pos)
      modifies this`task, this`lockedVma, this`held
      ensures Idle()
    {
      if !task {
        return;
      }
      if mmapLocked {
        held := held.(mmapLock := held.mmapLock - 1);
      } else {
        UnlockCtxVma();
        held := held.(rcu := held.rcu - 1);
      }
      held := held.(mm := held.mm - 1);
      PutTask();
    }
  }

  /** What the environment does in one call, and whether the reader then pauses. */
  datatype Call = Call(taskAlive: bool, mmAlive: bool, killed: bool, outcome: LockOutcome,
                       steps: nat, moreSteps: nat, pause: bool)

  /** A record that reached the reader; `resumed` tells that it is the first one after a pause,
      or the first of all. */
  datatype Delivery = Delivery(pass: Pass, resumed: bool)

  /** What the reader gets: each record is the first one after where its step began. After a pause
      that is where the record before began, otherwise where it ended. */
  ghost predicate Delivers(history: nat -> Snapshot, log: seq<Delivery>) {
    && (forall k :: 0 <= k < |log| ==>
          FirstAfter(history(log[k].pass.time), log[k].pass.from) == Some(log[k].pass.vma))
    && (forall j, k :: 0 <= j < |log| && k == j + 1 && k < |log| ==>
          log[k].pass.from == if log[k].resumed then log[j].pass.from else log[j].pass.vma.end)
    && (log != [] ==> log[0].pass.from == 0)
  }

  /** Nothing is lost at a pause: as long as the address space has not changed, the record before
      it is delivered again, and after that the next one. */
  lemma PauseLosesNothing(history: nat -> Snapshot, log: seq<Delivery>, k: nat)
    requires Delivers(history, log) && 0 < k < |log| && log[k].resumed
    requires history(log[k].pass.time) == history(log[k - 1].pass.time)
    ensures log[k].pass.vma == log[k - 1].pass.vma
    ensures k + 1 < |log| && !log[k + 1].resumed ==> log[k + 1].pass.from == log[k - 1].pass.vma.end
  {
    hide FirstAfter;
  }

  lemma DeliversMore(history: nat -> Snapshot, log: seq<Delivery>, d: Delivery)
    requires Delivers(history, log) && FirstAfter(history(d.pass.time), d.pass.from) == Some(d.pass.vma)
    requires if log == [] then d.pass.from == 0
             else d.pass.from == if d.resumed then log[|log| - 1].pass.from else log[|log| - 1].pass.vma.end
    ensures Delivers(history, log + [d])
  {
    hide FirstAfter;
  }

  /** The record has reached the reader. */
  ghost predicate Reached(log: seq<Delivery>, p: Pass) {
    exists k :: 0 <= k < |log| && log[k].pass == p
  }

  lemma ReachedMore(log: seq<Delivery>, d: Delivery, p: Pass)
    requires Reached(log, p) || d.pass == p
    ensures Reached(log + [d], p)
  {
    if Reached(log, p) {
      var k :| 0 <= k < |log| && log[k].pass == p;
      assert (log + [d])[k].pass == p;
    } else {
      assert (log + [d])[|log|].pass == p;
    }
  }

  /** What holds between two calls. */
  ghost predicate Reading(r: MapsReader, pos: int, running: bool, log: seq<Delivery>)
    reads r
  {
    && r.Tracks(pos) && pos >= SENTINEL_VMA_GATE
    && (if running then r.Running(pos) && pos != SENTINEL_VMA_END else r.Idle())
    && Delivers(r.history, log) && (forall p :: p in r.passes ==> Reached(log, p))
    && (pos >= 0 ==> if log == [] then r.ResumeFrom() == 0 else r.last == Some(log[|log| - 1].pass))
    && (running && pos >= 0 ==> log != [] && log[|log| - 1].pass.vma.end == pos)
  }

  /** One call of seq_file: start, or next; and stop, if there is nothing more or the reader
      pauses. */
  method ReadOnce(r: MapsReader, pos: int, running: bool, c: Call, ghost log: seq<Delivery>)
    returns (next: int, goesOn: bool, ghost more: seq<Delivery>)
    requires Reading(r, pos, running, log)
    modifies r
    ensures Reading(r, next, goesOn, more)
    ensures more == log || (|more| == |log| + 1 && more[..|log|] == log && more[|log|].resumed == !running)
    ensures c.pause ==> !goesOn
  {
    hide TraceFrom, Position, FirstAfter, Delivers, Reached, MapsReader.Kept;
    more := log;
    r.KeptIsPart();
    var item;
    if running {
      item, next := r.MNext(pos, c.outcome, c.steps, c.moreSteps);
    } else {
      item, next := r.MStart(pos, c.taskAlive, c.mmAlive, c.killed, c.outcome, c.steps, c.moreSteps);
    }
    if item.Record? {
      ghost var d := Delivery(r.last.value, !running);
      DeliversMore(r.history, log, d);
      forall p | p in r.passes
        ensures Reached(log + [d], p)
      {
        ReachedMore(log, d, p);
      }
      more := log + [d];
    }
    goesOn := (item.Record? || item.Gate?) && !c.pause;
    if !goesOn {
      r.MStop(next);
    }
  }

  /** Reading as seq_file does it, for any sequence of calls: start, next while there are
      records, stop when the reader pauses or there are none, start again. Afterwards
      nothing is held, the records that count have reached the reader, and every address the
      position has passed is accounted for by them; all addresses are, once the end is reached.
      At no pause is a record lost. */
  method ReadMaps(r: MapsReader, calls: seq<Call>) returns (pos: int, ghost log: seq<Delivery>)
    requires r.Idle() && r.Tracks(0)
    modifies r
    ensures r.Idle() && r.Tracks(pos) && Delivers(r.history, log)
    ensures forall p :: p in r.passes ==> Reached(log, p)
    ensures forall addr: nat :: addr < Position(r.passes) ==> Accounted(r.history, r.passes, addr)
    ensures pos < 0 ==> forall addr: nat ::
              Accounted(r.history, r.passes, addr)
              || (Position(r.passes) <= addr && !Mapped(r.history(r.endTime), addr))
  {
    hide TraceFrom, Position, FirstAfter, Delivers, Reached, MapsReader.Kept;
    NothingYet(r);
    pos, log := 0, [];
    var running := false;
    for i := 0 to |calls|
      invariant Reading(r, pos, running, log)
    {
      pos, running, log := ReadOnce(r, pos, running, calls[i], log);
    }
    if running {
      r.MStop(pos);
    }
    forall addr: nat | addr < Position(r.passes)
      ensures Accounted(r.history, r.passes, addr)
    {
      EveryAddressAccounted(r.history, 0, r.passes, addr);
    }
    if pos < 0 {
      forall addr: nat
        ensures Accounted(r.history, r.passes, addr)
             || (Position(r.passes) <= addr && !Mapped(r.history(r.endTime), addr))
      {
        WholeSpaceAccounted(r.history, r.passes, r.endTime, addr);
      }
    }
  }

  lemma NothingYet(r: MapsReader)
    requires r.Tracks(0)
    ensures r.passes == [] && r.ResumeFrom() == 0 && Delivers(r.history, [])
  {
  }
}
