/** Reading /proc/pid/pagemap: the callbacks that fill the buffer, the chunked read, and the
    userspace readers on top of it. */
module PagemapRead {
  import opened Kernel
  import opened AddressSpace
  import opened PagemapEntry
  import opened PagemapView

  const PMD_SIZE: nat := 0x20_0000
  const PM_ENTRY_BYTES: nat := 8
  const PM_END_OF_BUFFER := 1
  /** The longest read the virtual file system asks for. */
  const MAX_RW_COUNT: nat := 0x7FFF_F000

  class Reader {
    const view: View
    const showPfn: bool
    const buffer: array<bv64>
    var pos: nat
    const len: nat

    constructor (view: View, showPfn: bool, len: nat)
      requires ValidView(view)
      ensures Valid() && this.view == view && this.showPfn == showPfn && this.len == len && pos == 0
      ensures fresh(buffer)
    {
      this.view, this.showPfn, this.len, pos := view, showPfn, len, 0;
      buffer := new bv64[len];
    }

    ghost predicate Valid()
      reads this
    {
      pos <= len == buffer.Length && ValidView(view)
    }

    /** What the buffer holds. */
    ghost function Written(): seq<bv64>
      requires Valid()
      reads this, buffer
    {
      buffer[..pos]
    }

    /** The buffer has room for the pages `lo .. hi`, and they are there. */
    ghost predicate Room(lo: nat, hi: nat)
      reads this
    {
      Valid() && lo <= hi <= |view.slots| && hi - lo <= len - pos
    }

    method AddToPagemap(pme: bv64) returns (err: int)
      requires Valid() && pos < len
      modifies this`pos, buffer
      ensures Valid() && Written() == old(Written()) + [pme] && pos == old(pos) + 1
      ensures err == if pos == len then PM_END_OF_BUFFER else 0
    {
      buffer[pos] := pme;
      assert buffer[..pos] == old(Written());
      pos := pos + 1;
      assert buffer[..pos] == old(Written()) + [pme];
      return if pos >= len then PM_END_OF_BUFFER else 0;
    }

    /** The same entry for a run of pages, after what `base` and the pages from `start` on
        have contributed. */
    method AddRun(addr: nat, end: nat, pme: bv64, ghost base: seq<bv64>, ghost start: nat) returns (err: int)
      requires Room(addr, end) && start <= addr && Written() == base + Entries(view, showPfn, start, addr)
      requires forall i :: addr <= i < end ==> Entry(view, showPfn, i) == pme
      modifies this`pos, buffer
      ensures Valid() && pos == old(pos) + (end - addr)
      ensures Written() == base + Entries(view, showPfn, start, end)
      ensures err == if addr < end && pos == len then PM_END_OF_BUFFER else 0
    {
      hide Entry, ValidView;
      var i := addr;
      err := 0;
      while i < end && err == 0
        invariant addr <= i <= end && Valid() && pos == old(pos) + (i - addr)
        invariant Written() == base + Entries(view, showPfn, start, i)
        invariant err == if addr < i && pos == len then PM_END_OF_BUFFER else 0
      {
        err := AddToPagemap(pme);
        i := i + 1;
      }
    }

    /** Pages without page tables, in or between VMAs. */
    method PteHole(start: nat, end: nat) returns (err: int)
      requires Room(start, end) && forall i :: start <= i < end ==> view.slots[i].NoTable?
      modifies this`pos, buffer
      ensures Valid() && pos == old(pos) + (end - start)
      ensures Written() == old(Written()) + Entries(view, showPfn, start, end)
      ensures err == if start < end && pos == len then PM_END_OF_BUFFER else 0
    {
      hide Entries, Entry, HoleEntry, FirstAfter, ValidView;
      var addr := start;
      err := 0;
      EntriesEmpty(view, showPfn, start);
      ghost var base := Written();
      while addr < end
        invariant start <= addr <= end && Valid() && pos == old(pos) + (addr - start) && err == 0
        invariant Written() == base + Entries(view, showPfn, start, addr)
        invariant start < addr ==> pos < len
      {
        var vma := FirstAfter(view.vmas, addr);
        HoleEntries(view, showPfn, addr, end);
        var holeEnd := if vma.Some? && vma.value.start < end then vma.value.start else end;
        if addr < holeEnd {
          err := AddRun(addr, holeEnd, HoleEntry(false), base, start);
          addr := holeEnd;
          if err != 0 {
            return;
          }
        }
        if vma.None? {
          break;
        }
        var vmaEnd := if vma.value.end < end then vma.value.end else end;
        if addr < vmaEnd {
          err := AddRun(addr, vmaEnd, HoleEntry(vma.value.softDirty), base, start);
          addr := vmaEnd;
          if err != 0 {
            return;
          }
        }
      }
    }

    /** A huge page, or the part of it from `start` to `end`: the frame is stepped along. */
    method PmdRangeThp(start: nat, end: nat, vmaSoftDirty: bool) returns (err: int)
      requires Room(start, end) && start < end <= Base(start) + HPAGE_NR
      requires forall i :: start <= i < end ==>
                 view.slots[i] == view.slots[start] && VmaSoftDirty(view.vmas, i) == vmaSoftDirty
      requires view.slots[start].Pmd? && ValidLeaf(view.slots[start].leaf)
      modifies this`pos, buffer
      ensures Valid() && pos == old(pos) + (end - start)
      ensures Written() == old(Written()) + Entries(view, showPfn, start, end)
      ensures err == if pos == len then PM_END_OF_BUFFER else 0
    {
      hide Pack, PmdFlags, PmdFrame, FrameStep, VmaSoftDirty, Plus, ValidLeaf, Entry, ValidView;
      var leaf := view.slots[start].leaf;
      var addr, idx := start, start % HPAGE_NR;
      var frame, flags := PmdFrame(showPfn, leaf, idx), PmdFlags(vmaSoftDirty, leaf);
      err := 0;
      while addr != end && err == 0
        invariant start <= addr <= end && Valid() && pos == old(pos) + (addr - start)
        invariant idx == addr - Base(start) && frame == PmdFrame(showPfn, leaf, idx)
        invariant Written() == old(Written()) + Entries(view, showPfn, start, addr)
        invariant err == if start < addr && pos == len then PM_END_OF_BUFFER else 0
        decreases end - addr
      {
        ThpEntry(view, showPfn, start, addr);
        err := AddToPagemap(Pack(frame, flags));
        FrameStepRefines(showPfn, leaf, idx);
        frame := Plus(frame, FrameStep(showPfn, leaf));
        addr, idx := addr + 1, idx + 1;
      }
    }

    /** PTEs of one VMA. */
    method PteRange(start: nat, end: nat, vmaSoftDirty: bool) returns (err: int)
      requires Room(start, end) && start < end
      requires forall i :: start <= i < end ==> view.slots[i].Pte? && VmaSoftDirty(view.vmas, i) == vmaSoftDirty
      modifies this`pos, buffer
      ensures Valid() && pos == old(pos) + (end - start)
      ensures Written() == old(Written()) + Entries(view, showPfn, start, end)
      ensures err == if pos == len then PM_END_OF_BUFFER else 0
    {
      hide PteEntry, VmaSoftDirty, ValidView;
      var addr := start;
      err := 0;
      while addr < end && err == 0
        invariant start <= addr <= end && Valid() && pos == old(pos) + (addr - start)
        invariant Written() == old(Written()) + Entries(view, showPfn, start, addr)
        invariant err == if start < addr && pos == len then PM_END_OF_BUFFER else 0
      {
        err := AddToPagemap(PteEntry(showPfn, vmaSoftDirty, view.slots[addr].leaf));
        addr := addr + 1;
      }
    }

    /** The walk, stretch by stretch, until the range or the buffer ends: both at once, if both
        are of the same length. */
    method WalkPageRange(start: nat, end: nat) returns (ret: int)
      requires Room(start, end)
      modifies this`pos, buffer
      ensures Valid() && pos == old(pos) + (end - start)
      ensures Written() == old(Written()) + Entries(view, showPfn, start, end)
      ensures ret == 0 || ret == PM_END_OF_BUFFER
    {
      hide Entries, ValidView, VmaSoftDirty, Stretch;
      var addr := start;
      ret := 0;
      EntriesEmpty(view, showPfn, start);
      while addr < end
        invariant start <= addr <= end && Valid() && pos == old(pos) + (addr - start)
        invariant Written() == old(Written()) + Entries(view, showPfn, start, addr)
        invariant ret == 0
      {
        StretchExists(view, addr, end);
        var next :| addr < next <= end && Stretch(view, addr, next, end);
        StretchAlike(view, addr, next, end);
        var sd := VmaSoftDirty(view.vmas, addr);
        match view.slots[addr] {
          case NoTable => ret := PteHole(addr, next);
          case Pte(_) => ret := PteRange(addr, next, sd);
          case Pmd(_) => ret := PmdRangeThp(addr, next, sd);
        }
        EntriesSplit(view, showPfn, start, addr, next);
        addr := next;
        if ret != 0 {
          return;
        }
      }
    }
  }

  /** The entry of a page of a huge page, by its distance from the start of the block. */
  lemma ThpEntry(v: View, showPfn: bool, start: nat, page: nat)
    requires start <= page < |v.slots| && page < Base(start) + HPAGE_NR && v.slots[start].Pmd?
    requires v.slots[page] == v.slots[start]
    ensures Entry(v, showPfn, page) == Pack(PmdFrame(showPfn, v.slots[start].leaf, page - Base(start)),
                                            PmdFlags(VmaSoftDirty(v.vmas, page), v.slots[start].leaf))
  {
    hide Pack, PmdFlags, PmdFrame, VmaSoftDirty;
    assert page % HPAGE_NR == page - Base(start);
  }

  lemma EntriesEmpty(v: View, showPfn: bool, lo: nat)
    requires lo <= |v.slots|
    ensures Entries(v, showPfn, lo, lo) == []
  {
  }

  /** Between an address and the end of the first VMA after it the hole entries change once,
      at the start of that VMA. */
  lemma HoleRuns(v: View, addr: nat)
    requires ValidView(v)
    ensures var r := FirstAfter(v.vmas, addr);
      && (r.None? ==> forall i :: addr <= i ==> !VmaSoftDirty(v.vmas, i))
      && (r.Some? ==> forall i :: addr <= i < r.value.end ==>
            VmaSoftDirty(v.vmas, i) == (r.value.start <= i && r.value.softDirty))
  {
    forall i | addr <= i
      ensures FirstAfter(v.vmas, addr).None? ==> FirstAfter(v.vmas, i).None?
      ensures FirstAfter(v.vmas, addr).Some? && i < FirstAfter(v.vmas, addr).value.end ==>
                FirstAfter(v.vmas, i) == FirstAfter(v.vmas, addr)
    {
      FirstAfterLater(v.vmas, addr, i);
    }
  }

  /** The entries of pages without page tables, up to the end of the first VMA. */
  lemma HoleEntries(v: View, showPfn: bool, addr: nat, end: nat)
    requires ValidView(v) && addr <= end <= |v.slots|
    requires forall i :: addr <= i < end ==> v.slots[i].NoTable?
    ensures var r := FirstAfter(v.vmas, addr);
      && (forall i :: addr <= i < end && (r.Some? ==> i < r.value.start) ==> Entry(v, showPfn, i) == HoleEntry(false))
      && (r.Some? ==> forall i :: addr <= i < end && r.value.start <= i < r.value.end ==>
            Entry(v, showPfn, i) == HoleEntry(r.value.softDirty))
      && (r.Some? ==> addr < r.value.end && r.value.start < r.value.end)
  {
    hide HoleEntry, VmaSoftDirty;
    HoleRuns(v, addr);
  }

  /** The slots `addr .. next` are one stretch of a walk: without page tables, or PTEs in one
      VMA, or the rest of a huge page. */
  predicate Stretch(v: View, addr: nat, next: nat, end: nat) {
    && addr < next <= end && next <= |v.slots|
    && (forall i :: addr <= i < next ==>
          && (v.slots[i].NoTable? <==> v.slots[addr].NoTable?) && (v.slots[i].Pte? <==> v.slots[addr].Pte?)
          && (!v.slots[addr].NoTable? ==> FirstAfter(v.vmas, i) == FirstAfter(v.vmas, addr)))
    && (v.slots[addr].Pmd? ==> next == if Base(addr) + HPAGE_NR < end then Base(addr) + HPAGE_NR else end)
  }

  lemma StretchExists(v: View, addr: nat, end: nat)
    requires ValidView(v) && addr < end <= |v.slots|
    ensures exists next :: addr < next <= end && Stretch(v, addr, next, end)
  {
    var next := if !v.slots[addr].Pmd? then addr + 1
                else if Base(addr) + HPAGE_NR < end then Base(addr) + HPAGE_NR else end;
    if v.slots[addr].Pmd? {
      assert HugeBlock(v.slots, addr) && OneVma(v, addr);
    }
    assert Stretch(v, addr, next, end);
  }

  /** What the pages of a stretch have in common. */
  lemma StretchAlike(v: View, addr: nat, next: nat, end: nat)
    requires ValidView(v) && addr < next <= end <= |v.slots| && Stretch(v, addr, next, end)
    ensures v.slots[addr].NoTable? ==> forall i :: addr <= i < next ==> v.slots[i].NoTable?
    ensures v.slots[addr].Pte? ==> forall i :: addr <= i < next ==>
              v.slots[i].Pte? && VmaSoftDirty(v.vmas, i) == VmaSoftDirty(v.vmas, addr)
    ensures v.slots[addr].Pmd? ==> ValidLeaf(v.slots[addr].leaf) && next <= Base(addr) + HPAGE_NR
    ensures v.slots[addr].Pmd? ==> forall i :: addr <= i < next ==>
              v.slots[i] == v.slots[addr] && VmaSoftDirty(v.vmas, i) == VmaSoftDirty(v.vmas, addr)
  {
    if v.slots[addr].Pmd? {
      assert HugeBlock(v.slots, addr) && OneVma(v, addr);
    }
    if !v.slots[addr].NoTable? {
      forall i | addr <= i < next
        ensures VmaSoftDirty(v.vmas, i) == VmaSoftDirty(v.vmas, addr)
      {
      }
    }
  }

  // ---- the read itself ----

  /** What a read of `n` entries from entry `p` on delivers: the entries of the pages up to
      the end of the task's address space. */
  ghost function ReadEntries(v: View, showPfn: bool, p: nat, n: nat): seq<bv64> {
    if p >= |v.slots| then []
    else Entries(v, showPfn, p, if p + n < |v.slots| then p + n else |v.slots|)
  }

  /** The byte range a read covers, guarding against wrap-around. */
  method ReadRange(ppos: nat, count: nat, taskSize: nat) returns (startVaddr: nat, endVaddr: nat)
    requires ppos % PM_ENTRY_BYTES == 0 && 0 < count <= MAX_RW_COUNT && count % PM_ENTRY_BYTES == 0
    requires taskSize < TWO64 && taskSize % PAGE_SIZE == 0
    ensures var p, n, t := ppos / PM_ENTRY_BYTES, count / PM_ENTRY_BYTES, taskSize / PAGE_SIZE;
      if p < t then startVaddr == p * PAGE_SIZE && endVaddr == (if p + n < t then p + n else t) * PAGE_SIZE
      else startVaddr >= endVaddr
  {
    var svpfn := ppos / PM_ENTRY_BYTES;
    endVaddr := taskSize;
    startVaddr := endVaddr;
    if svpfn <= (TWO64 - 1) / PAGE_SIZE {
      startVaddr := svpfn * PAGE_SIZE;
      var end := (startVaddr + count / PM_ENTRY_BYTES * PAGE_SIZE) % TWO64;
      if end >= startVaddr && end < taskSize {
        endVaddr := end;
      }
    }
    if startVaddr > taskSize {
      startVaddr := endVaddr;
    }
  }

  lemma RoundDown(x: nat)
    ensures x / PMD_SIZE * PMD_SIZE <= x < x / PMD_SIZE * PMD_SIZE + PMD_SIZE
    ensures x / PMD_SIZE * PMD_SIZE % PAGE_SIZE == 0
  {
    var q := x / PMD_SIZE;
    assert q * PMD_SIZE == q * HPAGE_NR * PAGE_SIZE;
  }

  /** The end of the chunk that starts at `start`: the next boundary of a huge page. */
  method ChunkEnd(start: nat, endVaddr: nat) returns (end: nat)
    requires start < endVaddr < TWO64 && start % PAGE_SIZE == 0 && endVaddr % PAGE_SIZE == 0
    ensures start < end <= endVaddr && end % PAGE_SIZE == 0
    ensures start / PAGE_SIZE < end / PAGE_SIZE <= endVaddr / PAGE_SIZE
    ensures end / PAGE_SIZE - start / PAGE_SIZE <= PMD_SIZE / PAGE_SIZE
  {
    end := (start + PMD_SIZE) % TWO64;
    RoundDown(end);
    end := end / PMD_SIZE * PMD_SIZE;
    if end < start || end > endVaddr {
      end := endVaddr;
    }
  }

  lemma ReadEntriesIs(v: View, showPfn: bool, p: nat, n: nat)
    ensures p >= |v.slots| ==> ReadEntries(v, showPfn, p, n) == []
    ensures p < |v.slots| ==>
              ReadEntries(v, showPfn, p, n) == Entries(v, showPfn, p, if p + n < |v.slots| then p + n else |v.slots|)
    ensures p < |v.slots| ==> Entries(v, showPfn, p, p) == []
  {
  }

  /** The buffer filled with one chunk: the pages from `page` to the next boundary of a huge
      page, or to the end of the range. */
  method FillBuffer(pm: Reader, startVaddr: nat, endVaddr: nat, ghost page: nat, ghost last: nat)
    returns (ret: int, end: nat, ghost next: nat)
    requires pm.Valid() && pm.len == PMD_SIZE / PAGE_SIZE
    requires startVaddr == page * PAGE_SIZE && endVaddr == last * PAGE_SIZE < TWO64
    requires page < last <= |pm.view.slots|
    modifies pm`pos, pm.buffer
    ensures pm.Valid() && end == next * PAGE_SIZE && page < next <= last
    ensures pm.Written() == Entries(pm.view, pm.showPfn, page, next) && pm.pos == next - page
    ensures ret == 0 || ret == PM_END_OF_BUFFER
  {
    hide Entries, ValidView;
    pm.pos := 0;
    end := ChunkEnd(startVaddr, endVaddr);
    next := end / PAGE_SIZE;
    ret := pm.WalkPageRange(startVaddr / PAGE_SIZE, end / PAGE_SIZE);
  }

  /** `killed` and `fault` say which chunks cannot be walked or copied. Unless one of them
      strikes, the read delivers what it should and moves the file position past it; if one
      does, the position stays where it was. `rounds` counts the chunks, and what comes before
      them as one. */
  method PagemapRead(view: View, showPfn: bool, ppos: nat, count0: nat, taskSize: nat,
                     killed: nat -> bool, fault: nat -> bool)
    returns (ret: int, newPos: nat, out: seq<bv64>, ghost rounds: nat)
    requires ValidView(view) && |view.slots| == taskSize / PAGE_SIZE
    requires taskSize < TWO64 && taskSize % PAGE_SIZE == 0 && count0 <= MAX_RW_COUNT
    ensures ret == -EINVAL <==> ppos % PM_ENTRY_BYTES != 0 || count0 % PM_ENTRY_BYTES != 0
    ensures ret >= 0 ==>
              && out == ReadEntries(view, showPfn, ppos / PM_ENTRY_BYTES, count0 / PM_ENTRY_BYTES)
              && ret == |out| * PM_ENTRY_BYTES && newPos == ppos + ret
    ensures ret < 0 ==> newPos == ppos && ret in {-EINVAL, -EINTR, -EFAULT}
    ensures ret == -EINTR ==> killed(rounds)
    ensures ret == -EFAULT ==> fault(rounds)
    ensures forall i :: 1 <= i < rounds ==> !killed(i) && !fault(i)
    ensures |out| == 0 || |out| <= (rounds - 1) * (PMD_SIZE / PAGE_SIZE)
    ensures killed(0) && count0 > 0 && ppos / PM_ENTRY_BYTES <= (TWO64 - 1) / PAGE_SIZE ==>
              ret == -EINTR || ret == -EINVAL
  {
    hide Entries, ValidView, ReadEntries;
    ret, newPos, out, rounds := 0, ppos, [], 0;
    if ppos % PM_ENTRY_BYTES != 0 || count0 % PM_ENTRY_BYTES != 0 {
      return -EINVAL, ppos, [], 0;
    }
    var p := ppos / PM_ENTRY_BYTES;
    ReadEntriesIs(view, showPfn, p, count0 / PM_ENTRY_BYTES);
    if count0 == 0 {
      return;
    }
    if p <= (TWO64 - 1) / PAGE_SIZE && killed(0) {
      return -EINTR, ppos, [], 0;
    }
    var startVaddr, endVaddr := ReadRange(ppos, count0, taskSize);
    var pm := new Reader(view, showPfn, PMD_SIZE / PAGE_SIZE);
    var count, copied, round := count0, 0, 1;
    ghost var page, last := startVaddr / PAGE_SIZE, endVaddr / PAGE_SIZE;
    while count > 0 && startVaddr < endVaddr
      invariant fresh(pm) && fresh(pm.buffer) && pm.Valid()
      invariant pm.view == view && pm.showPfn == showPfn && pm.len == PMD_SIZE / PAGE_SIZE
      invariant p < |view.slots| ==>
                  && startVaddr == page * PAGE_SIZE && endVaddr == last * PAGE_SIZE
                  && p <= page <= last <= |view.slots| && last <= p + count0 / PM_ENTRY_BYTES
                  && out == Entries(view, showPfn, p, page) && |out| == page - p
      invariant p >= |view.slots| ==> startVaddr >= endVaddr && out == []
      invariant copied == |out| * PM_ENTRY_BYTES && count + copied == count0
      invariant ret == 0 || ret == PM_END_OF_BUFFER
      invariant round >= 1 && |out| <= (round - 1) * (PMD_SIZE / PAGE_SIZE)
      invariant forall i :: 1 <= i < round ==> !killed(i) && !fault(i)
      decreases endVaddr - startVaddr
    {
      if killed(round) {
        return -EINTR, ppos, out, round;
      }
      ghost var next;
      ret, startVaddr, next := FillBuffer(pm, startVaddr, endVaddr, page, last);
      EntriesSplit(view, showPfn, p, page, next);
      page := next;
      var len := if count < PM_ENTRY_BYTES * pm.pos then count else PM_ENTRY_BYTES * pm.pos;
      if fault(round) {
        return -EFAULT, ppos, out, round;
      }
      out := out + pm.buffer[..len / PM_ENTRY_BYTES];
      copied := copied + len;
      count := count - len;
      round := round + 1;
    }
    newPos := ppos + copied;
    ret, rounds := copied, round;
  }

  lemma {:induction false} EntriesLength(v: View, showPfn: bool, lo: nat, hi: nat)
    requires lo <= hi <= |v.slots|
    ensures |Entries(v, showPfn, lo, hi)| == hi - lo
  {
    if lo < hi {
      EntriesLength(v, showPfn, lo, hi - 1);
    }
  }

  /** A read delivers one entry for each page, from page `p` on, as many as were asked for and
      there are. */
  lemma ReadEntriesAt(v: View, showPfn: bool, p: nat, n: nat, i: nat)
    ensures var es := ReadEntries(v, showPfn, p, n);
      && |es| == (if p >= |v.slots| then 0 else if p + n < |v.slots| then n else |v.slots| - p)
      && (i < |es| ==> es[i] == Entry(v, showPfn, p + i))
  {
    hide Entry;
    if p < |v.slots| {
      var end := if p + n < |v.slots| then p + n else |v.slots|;
      EntriesLength(v, showPfn, p, end);
      if p + i < end {
        EntriesAt(v, showPfn, p, end, i);
      }
    }
  }

  /** On an address space that does not change, two reads in a row deliver what one read of
      both lengths does. */
  lemma TwoReadsAreOne(v: View, showPfn: bool, p: nat, n1: nat, n2: nat)
    ensures var first := ReadEntries(v, showPfn, p, n1);
            ReadEntries(v, showPfn, p, n1 + n2) == first + ReadEntries(v, showPfn, p + |first|, n2)
  {
    hide Entries;
    if p < |v.slots| {
      var mid := if p + n1 < |v.slots| then p + n1 else |v.slots|;
      var end := if p + n1 + n2 < |v.slots| then p + n1 + n2 else |v.slots|;
      EntriesLength(v, showPfn, p, mid);
      EntriesSplit(v, showPfn, p, mid, end);
      if mid == |v.slots| {
        EntriesEmpty(v, showPfn, mid);
      }
    }
  }

  // ---- the userspace readers ----

  /** The frame a privileged reader sees of a page that is present, 0 of any other. */
  function VisiblePfn(v: View, showPfn: bool, page: nat): bv64
    requires page < |v.slots|
  {
    match v.slots[page]
    case Pte(Mapped(pfn, _, _, _)) => if showPfn then Frame(pfn) else 0
    case Pmd(Mapped(pfn, _, _, _)) => if showPfn then Frame(Plus(pfn, ToBv(page % HPAGE_NR))) else 0
    case _ => 0
  }

  /** Either decoder finds the frame in the entry. */
  lemma DecodeEntry(v: View, showPfn: bool, page: nat)
    requires page < |v.slots|
    ensures DecodeMasked(Entry(v, showPfn, page)) == VisiblePfn(v, showPfn, page)
    ensures DecodeShifted(Entry(v, showPfn, page)) == VisiblePfn(v, showPfn, page)
  {
    hide Pack, HoleEntry, SwapFrame, ToBv, Plus, VmaSoftDirty, DecodeMasked, DecodeShifted, Unpack, Reserved, Frame;
    var e, s := Entry(v, showPfn, page), v.slots[page];
    DecodeIsFrame(e);
    EntryTells(v, showPfn, page);
    ZeroFrame();
    if s.Pte? {
      PackDecodes(PteFrame(showPfn, s.leaf), PteFlags(VmaSoftDirty(v.vmas, page), s.leaf));
    } else if s.Pmd? {
      PackDecodes(PmdFrame(showPfn, s.leaf, page % HPAGE_NR), PmdFlags(VmaSoftDirty(v.vmas, page), s.leaf));
    }
  }

  lemma DecodeIsFrame(entry: bv64)
    ensures DecodeMasked(entry) == DecodeShifted(entry) == if Unpack(entry).present then Frame(entry) else 0
  {
  }

  /** With the privilege the frame of a present page is its PFN, if that is below 2^55. */
  lemma PrivilegedReaderSeesPfn(v: View, page: nat)
    requires page < |v.slots| && !v.slots[page].NoTable? && v.slots[page].leaf.Mapped?
    ensures var s := v.slots[page];
            var pfn := if s.Pte? then s.leaf.pfn else Plus(s.leaf.pfn, ToBv(page % HPAGE_NR));
            pfn <= PM_PFRAME_MASK ==> VisiblePfn(v, true, page) == pfn
  {
    hide Frame, Plus, ToBv;
    var s := v.slots[page];
    var pfn := if s.Pte? then s.leaf.pfn else Plus(s.leaf.pfn, ToBv(page % HPAGE_NR));
    if pfn <= PM_PFRAME_MASK {
      FrameFits(pfn);
    }
  }

  lemma OneEntry(v: View, showPfn: bool, page: nat)
    ensures ReadEntries(v, showPfn, page, 1) == if page < |v.slots| then [Entry(v, showPfn, page)] else []
  {
    hide Entry;
    if page < |v.slots| {
      EntriesEmpty(v, showPfn, page);
    }
  }

  /** get_pfn of dirty_trace_v2: index, read eight bytes, mask. */
  method GetPfnMasked(view: View, showPfn: bool, taskSize: nat, vaddr: nat,
                      killed: nat -> bool, fault: nat -> bool) returns (pfn: bv64)
    requires ValidView(view) && |view.slots| == taskSize / PAGE_SIZE
    requires taskSize < TWO64 && taskSize % PAGE_SIZE == 0 && vaddr < TWO64
    ensures vaddr < taskSize && (forall i :: !killed(i) && !fault(i)) ==>
              pfn == VisiblePfn(view, showPfn, vaddr / PAGE_SIZE)
    ensures pfn != 0 ==> vaddr < taskSize && pfn == VisiblePfn(view, showPfn, vaddr / PAGE_SIZE)
  {
    hide Entry, Entries, ReadEntries, ValidView, DecodeMasked, VisiblePfn;
    var offset := vaddr / PAGE_SIZE * PM_ENTRY_BYTES;
    var ret, _, out, _ := PagemapRead(view, showPfn, offset, 8, taskSize, killed, fault);
    OneEntry(view, showPfn, vaddr / PAGE_SIZE);
    if ret != 8 {
      return 0;
    }
    DecodeEntry(view, showPfn, vaddr / PAGE_SIZE);
    return DecodeMasked(out[0]);
  }

  /** get_pfn of malloc_user: shift, seek, read eight bytes, test bit 63. */
  method GetPfnShifted(view: View, showPfn: bool, taskSize: nat, vaddr: nat,
                       killed: nat -> bool, fault: nat -> bool) returns (pfn: bv64)
    requires ValidView(view) && |view.slots| == taskSize / PAGE_SIZE
    requires taskSize < TWO64 && taskSize % PAGE_SIZE == 0 && vaddr < TWO64
    ensures vaddr < taskSize && (forall i :: !killed(i) && !fault(i)) ==>
              pfn == VisiblePfn(view, showPfn, vaddr / PAGE_SIZE)
    ensures pfn != 0 ==> vaddr < taskSize && pfn == VisiblePfn(view, showPfn, vaddr / PAGE_SIZE)
  {
    hide Entry, Entries, ReadEntries, ValidView, DecodeShifted, VisiblePfn;
    var pageIndex := vaddr / 4096;
    var offset := pageIndex * 8;
    var ret, _, out, _ := PagemapRead(view, showPfn, offset, 8, taskSize, killed, fault);
    OneEntry(view, showPfn, pageIndex);
    if ret != 8 {
      return 0;
    }
    DecodeEntry(view, showPfn, pageIndex);
    return DecodeShifted(out[0]);
  }
}
