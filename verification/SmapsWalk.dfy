/** The smaps walk over the page tables of a VMA, or of a part of it: the entries it meets, and
    the pages it counts. A huge page is met as one entry and counted as a whole, even if the
    walk begins in the middle of it. */
module SmapsWalk {
  import opened Kernel
  import opened AddressSpace
  import opened Smaps
  import opened SmapsTally

  /** What the walk meets at a page: a PTE, or the PMD of the huge page around it. Ranges without
      page tables, and mappings the walk leaves out, are like empty PTEs. */
  datatype Slot = Small(entry: Entry) | Huge(entry: Entry)

  /** The page tables at each time. */
  type Memory = (nat, nat) -> Slot

  ghost predicate ValidSlot(s: Slot) {
    ValidEntry(s.entry) && (s.entry.HugeEntry? ==> s.Huge?) && (s.Huge? ==> s.entry.HugeEntry? || s.entry.Nothing?)
  }

  /** Huge pages are aligned blocks. */
  ghost predicate ValidMemory(memory: Memory) {
    && (forall t, x :: ValidSlot(memory(t, x)))
    && (forall t, x, y :: memory(t, x).Huge? && InBlock(y, Base(x)) ==> memory(t, y) == memory(t, x))
  }

  /** The page is in a huge page that begins before it. */
  predicate Inside(memory: Memory, time: nat, page: nat) {
    memory(time, page).Huge? && Base(page) < page
  }

  /** The first page a walk from `lo` counts. */
  function FirstCounted(memory: Memory, time: nat, lo: nat): nat {
    if Inside(memory, time, lo) then Base(lo) else lo
  }

  /** Where the walk goes on after the entry at `addr`. */
  function EntryEnd(memory: Memory, time: nat, addr: nat, end: nat): (next: nat)
    requires addr < end
    ensures addr < next <= end
  {
    if !memory(time, addr).Huge? then addr + 1
    else if Base(addr) + HPAGE_NR < end then Base(addr) + HPAGE_NR
    else end
  }

  /** The entries a walk of the pages `lo .. hi` meets. */
  ghost function EntriesIn(memory: Memory, time: nat, lo: nat, hi: nat): (es: seq<Entry>)
    requires ValidMemory(memory)
    ensures forall e :: e in es ==> ValidEntry(e)
    decreases hi - lo
  {
    if hi <= lo then []
    else
      assert ValidSlot(memory(time, lo));
      [memory(time, lo).entry] + EntriesIn(memory, time, EntryEnd(memory, time, lo, hi), hi)
  }

  /** How a page is counted, if it is. */
  ghost function CountedAt(precise: bool, memory: Memory, time: nat, page: nat): seq<Counted>
    requires ValidMemory(memory)
  {
    assert ValidSlot(memory(time, page));
    match memory(time, page)
    case Small(e) => CountedBy(precise, e)
    case Huge(HugeEntry(f, young, dirty, present)) => [PageOf(precise, f, page - Base(page), young, dirty, present)]
    case Huge(_) => []
  }

  ghost function CountedPages(precise: bool, memory: Memory, time: nat, lo: nat, hi: nat): seq<Counted>
    requires ValidMemory(memory)
  {
    if hi <= lo then []
    else CountedPages(precise, memory, time, lo, hi - 1) + CountedAt(precise, memory, time, hi - 1)
  }

  lemma {:induction false} CountedSplit(precise: bool, memory: Memory, time: nat, lo: nat, mid: nat, hi: nat)
    requires ValidMemory(memory) && lo <= mid <= hi
    ensures CountedPages(precise, memory, time, lo, hi)
         == CountedPages(precise, memory, time, lo, mid) + CountedPages(precise, memory, time, mid, hi)
  {
    hide CountedAt, ValidMemory;
    if mid < hi {
      CountedSplit(precise, memory, time, lo, mid, hi - 1);
    }
  }

  lemma {:induction false} AllCountedConcat(precise: bool, a: seq<Entry>, b: seq<Entry>)
    requires (forall e :: e in a ==> ValidEntry(e)) && (forall e :: e in b ==> ValidEntry(e))
    ensures AllCounted(precise, a + b) == AllCounted(precise, a) + AllCounted(precise, b)
  {
    hide CountedBy, ValidEntry;
    if b == [] {
      assert a + b == a;
    } else {
      var n := |b| - 1;
      assert (a + b)[..|a + b| - 1] == a + b[..n];
      AllCountedConcat(precise, a, b[..n]);
    }
  }

  /** A huge entry counts the pages of its block one by one. */
  lemma {:induction false} BlockCounted(precise: bool, memory: Memory, time: nat, base: nat, n: nat)
    requires ValidMemory(memory) && memory(time, base).Huge? && Base(base) == base && n <= HPAGE_NR
    requires memory(time, base).entry.HugeEntry?
    ensures ValidSlot(memory(time, base))
    ensures var e := memory(time, base).entry;
            CountedPages(precise, memory, time, base, base + n)
              == PagesOf(precise, e.folio, 0, n, e.young, e.dirty, e.present)
  {
    hide PageOf;
    assert ValidSlot(memory(time, base));
    if n > 0 {
      BlockCounted(precise, memory, time, base, n - 1);
      var page := base + n - 1;
      assert InBlock(page, Base(base)) && Base(page) == base;
      assert memory(time, page) == memory(time, base);
    }
  }

  lemma {:induction false} BlockOfNothing(precise: bool, memory: Memory, time: nat, base: nat, n: nat)
    requires ValidMemory(memory) && memory(time, base).Huge? && Base(base) == base && n <= HPAGE_NR
    requires !memory(time, base).entry.HugeEntry?
    ensures CountedPages(precise, memory, time, base, base + n) == []
  {
    assert ValidSlot(memory(time, base));
    if n > 0 {
      BlockOfNothing(precise, memory, time, base, n - 1);
      assert InBlock(base + n - 1, Base(base));
    }
  }

  /** After a PTE no huge page can begin before the next page. */
  lemma AfterSmall(memory: Memory, time: nat, page: nat)
    requires ValidMemory(memory) && memory(time, page).Small?
    ensures !Inside(memory, time, page + 1)
  {
    var next := memory(time, page + 1);
    assert next.Huge? && InBlock(page, Base(page + 1)) ==> memory(time, page) == next;
  }

  /** A huge page that begins before `hi`, where none is cut, ends there at the latest. */
  lemma BlockEnds(memory: Memory, time: nat, lo: nat, hi: nat)
    requires ValidMemory(memory) && lo < hi && memory(time, lo).Huge? && !Inside(memory, time, hi)
    ensures Base(lo) + HPAGE_NR <= hi && EntryEnd(memory, time, lo, hi) == Base(lo) + HPAGE_NR
    ensures memory(time, Base(lo)) == memory(time, lo) && Base(Base(lo)) == Base(lo)
    ensures FirstCounted(memory, time, Base(lo) + HPAGE_NR) == Base(lo) + HPAGE_NR
    ensures FirstCounted(memory, time, lo) == Base(lo)
  {
    assert InBlock(hi, Base(lo)) ==> memory(time, hi) == memory(time, lo);
    assert InBlock(Base(lo), Base(lo));
  }

  /** What one entry counts: its page, or all pages of its block. */
  lemma EntryCounts(precise: bool, memory: Memory, time: nat, lo: nat, hi: nat)
    requires ValidMemory(memory) && lo < hi && !Inside(memory, time, hi)
    ensures ValidSlot(memory(time, lo))
    ensures var next := EntryEnd(memory, time, lo, hi);
      && FirstCounted(memory, time, next) == next
      && CountedBy(precise, memory(time, lo).entry)
         == CountedPages(precise, memory, time, FirstCounted(memory, time, lo), next)
  {
    var slot := memory(time, lo);
    assert ValidSlot(slot);
    if slot.Small? {
      AfterSmall(memory, time, lo);
      assert CountedPages(precise, memory, time, lo, lo) == [];
    } else {
      hide PagesOf, CountedPages, ValidMemory, Inside;
      BlockEnds(memory, time, lo, hi);
      if slot.entry.HugeEntry? {
        BlockCounted(precise, memory, time, Base(lo), HPAGE_NR);
      } else {
        BlockOfNothing(precise, memory, time, Base(lo), HPAGE_NR);
      }
    }
  }

  /** A walk counts every page from `lo` to `hi` once, and before them the pages of the huge page
      it begins inside of. */
  lemma {:induction false} EntriesCountPages(precise: bool, memory: Memory, time: nat, lo: nat, hi: nat)
    requires ValidMemory(memory) && lo <= hi && !Inside(memory, time, hi)
    ensures AllCounted(precise, EntriesIn(memory, time, lo, hi))
         == CountedPages(precise, memory, time, FirstCounted(memory, time, lo), hi)
    decreases hi - lo
  {
    hide CountedBy, Inside, ValidMemory;
    if lo < hi {
      var next, e := EntryEnd(memory, time, lo, hi), memory(time, lo).entry;
      EntryCounts(precise, memory, time, lo, hi);
      EntriesCountPages(precise, memory, time, next, hi);
      AllCountedConcat(precise, [e], EntriesIn(memory, time, next, hi));
      assert AllCounted(precise, [e]) == CountedBy(precise, e) by {
        assert [e][..0] == [];
      }
      CountedSplit(precise, memory, time, FirstCounted(memory, time, lo), next, hi);
    }
  }

  /** One entry more. */
  lemma WalkPush(precise: bool, st: Stats, es: seq<Entry>, e: Entry, locked: bool)
    requires (forall x :: x in es ==> ValidEntry(x)) && ValidEntry(e)
    ensures Walk(precise, st, es + [e], locked) == Step(precise, Walk(precise, st, es, locked), e, locked)
  {
    assert (es + [e])[..|es|] == es;
  }

  lemma WalkNothing(precise: bool, st: Stats, locked: bool)
    ensures Walk(precise, st, [], locked) == st
  {
  }

  lemma NoEntries(memory: Memory, time: nat, lo: nat, hi: nat)
    requires ValidMemory(memory) && hi <= lo
    ensures EntriesIn(memory, time, lo, hi) == []
  {
  }

  lemma FirstEntry(memory: Memory, time: nat, lo: nat, hi: nat)
    requires ValidMemory(memory) && lo < hi
    ensures ValidEntry(memory(time, lo).entry)
    ensures EntriesIn(memory, time, lo, hi)
         == [memory(time, lo).entry] + EntriesIn(memory, time, EntryEnd(memory, time, lo, hi), hi)
  {
    assert ValidSlot(memory(time, lo));
  }

  /** Add up what a VMA, or from `start` on a part of it, contributes. */
  method GatherStats(mss: MemSizeStats, precise: bool, memory: Memory, time: nat, vma: Vma, start: nat)
    requires ValidMemory(memory)
    modifies mss
    ensures mss.State() == Walk(precise, old(mss.State()),
                                EntriesIn(memory, time, if start == 0 then vma.start else start, vma.end), vma.locked)
  {
    hide ValidMemory, Step, Walk, EntriesIn, ValidEntry;
    WalkNothing(precise, mss.State(), vma.locked);
    if start >= vma.end {
      NoEntries(memory, time, if start == 0 then vma.start else start, vma.end);
      return;
    }
    var addr := if start == 0 then vma.start else start;
    ghost var all, done: seq<Entry> := EntriesIn(memory, time, addr, vma.end), [];
    while addr < vma.end
      invariant addr <= vma.end || done == []
      invariant all == done + EntriesIn(memory, time, addr, vma.end) && forall e :: e in done ==> ValidEntry(e)
      invariant mss.State() == Walk(precise, old(mss.State()), done, vma.locked)
      decreases vma.end - addr
    {
      var e, next := memory(time, addr).entry, EntryEnd(memory, time, addr, vma.end);
      FirstEntry(memory, time, addr, vma.end);
      WalkPush(precise, old(mss.State()), done, e, vma.locked);
      mss.CountEntry(precise, e, vma.locked);
      done := done + [e];
      addr := next;
    }
    NoEntries(memory, time, addr, vma.end);
    assert all == done;
  }
}
