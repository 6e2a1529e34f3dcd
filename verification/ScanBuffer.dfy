/** The scan's bounded output buffer: `vec_buf` is filled in place, coalescing runs,
    flushed to the caller's vector, and backed out of when a huge page has to be split.
    `ScanState` is the value of a `ScanPrivate` object; its functions specify the methods
    of the class, and the lemmas say what those functions mean: `Regions` is everything
    reported so far, of which the caller has `out` and the buffer holds `Content`. */
module ScanBuffer {
  import opened Kernel
  import opened ScanTypes
  import opened Regions

  /** check_add_overflow on unsigned longs: the wrapped sum and whether it wrapped. */
  function AddOverflow(a: nat, b: nat): (nat, bool) {
    ((a + b) % TWO64, a + b >= TWO64)
  }

  /** Unsigned 64-bit subtraction. */
  function SubWrap(a: int, b: int): nat { (a - b) % TWO64 }

  /** The excess over `max` computed from the wrapped sum is the true excess. */
  lemma ExcessIsTrue(found: nat, n: nat, max: nat)
    requires found <= max <= ULONG_MAX && n <= ULONG_MAX
    ensures var (total, overflow) := AddOverflow(found, n);
      && ((overflow || total > max) <==> found + n > max)
      && (found + n > max ==> SubWrap(total, max) == found + n - max)
  {
    if found + n >= TWO64 {
      assert (found + n) % TWO64 == found + n - TWO64;
    }
  }

  datatype ScanState = ScanState(
    arg: ScanArg, vecLen: nat, walkEnd: nat, found: nat, out: seq<PageRegion>,
    slots: seq<PageRegion>, bufLen: nat, index: nat, backedOut: bool)
  {
    /** There is an output buffer at all. */
    predicate HasBuffer() { slots != [] }

    ghost predicate Shape() {
      && |out| + vecLen == arg.vecLen
      && 0 < arg.maxPages <= ULONG_MAX
      && (HasBuffer() <==> arg.vecLen > 0)
      && (!HasBuffer() ==> index == bufLen == 0)
      && (HasBuffer() ==>
            && index < |slots| && bufLen <= |slots| && bufLen <= vecLen
            && (bufLen > 0 ==> index < bufLen)
            && slots[index].start <= slots[index].end)
    }

    /** The current region has pages, so that a run can continue it. */
    predicate Open() {
      index < |slots| && slots[index].start < slots[index].end
    }

    /** The regions in the buffer. */
    ghost function Content(): seq<PageRegion>
      requires Shape()
    {
      slots[..if Open() then index + 1 else index]
    }

    ghost function Regions(): seq<PageRegion>
      requires Shape()
    {
      out + Content()
    }

    ghost predicate Valid() {
      && Shape()
      && |Content()| <= bufLen
      && WellFormed(Regions(), backedOut)
      && found == |Expand(Regions())| <= arg.maxPages
    }

    /** A region can be pushed: the buffer has a slot, and the current one is filled or
        cleared, past the first slot only by a back-out. */
    predicate Ready() {
      HasBuffer() ==>
        && index < bufLen <= |slots|
        && (Open() || (slots[index].end == 0 && (index == 0 || backedOut)))
    }

    /** Pushing a run at `addr` cannot break coalescing with what was flushed before. */
    ghost predicate MayFollow(addr: nat, categories: Categories)
      requires Shape()
    {
      backedOut || Content() != [] || out == [] || !Joins(out[|out| - 1], addr, categories)
    }

    // ---- the operations ----

    /** Extend the current region, or take the next slot if there is one. */
    function Push(r: PageRegion): (ScanState, bool)
      requires HasBuffer() && index < bufLen <= |slots|
    {
      var cur := slots[index];
      if r.start == cur.end && r.categories == cur.categories then
        (this.(slots := slots[index := cur.(end := r.end)]), true)
      else if cur.end == 0 then (this.(slots := slots[index := r]), true)
      else if index >= bufLen - 1 then (this, false)
      else (this.(slots := slots[index + 1 := r], index := index + 1), true)
    }

    /** The end of the run `addr .. end` once `max_pages` is taken into account. */
    function Clamp(addr: nat, end: nat): (next: nat)
      requires addr < end <= ULONG_MAX && found <= arg.maxPages <= ULONG_MAX
      ensures next == if found + (end - addr) > arg.maxPages then addr + (arg.maxPages - found) else end
    {
      var (total, overflow) := AddOverflow(found, end - addr);
      ExcessIsTrue(found, end - addr, arg.maxPages);
      if overflow || total > arg.maxPages then end - SubWrap(total, arg.maxPages) else end
    }

    /** The new state, the error code and the end of what was reported. */
    function Output(categories: Categories, addr: nat, end: nat): (ScanState, int, nat)
      requires Ready() && addr < end <= ULONG_MAX && found <= arg.maxPages <= ULONG_MAX
    {
      if !HasBuffer() then (this, 0, end)
      else
        var (s, pushed) := Push(PageRegion(addr, Clamp(addr, end), categories * arg.returnMask));
        var next := if pushed then Clamp(addr, end) else addr;
        if next == end then (s.(found := found + (next - addr)), 0, next)
        else (s.(found := found + (next - addr), walkEnd := next), -ENOSPC, next)
    }

    function Backout(addr: nat, end: nat): ScanState
      requires HasBuffer() ==> index < |slots| && addr <= end && end - addr <= found
    {
      if !HasBuffer() then this
      else
        var cur := slots[index];
        var cut := if cur.start != addr then cur.(end := addr) else cur.(start := 0, end := 0);
        this.(slots := slots[index := cut], found := found - (end - addr), backedOut := true)
    }

    /** The number of regions in the buffer, as the flush counts them. */
    function Count(): nat
      requires HasBuffer() ==> index < |slots|
    {
      if !HasBuffer() then 0
      else index + if slots[index].end != slots[index].start then 1 else 0
    }

    function Flush(): ScanState
      requires HasBuffer() ==> index < |slots| && Count() <= vecLen && Count() <= |slots|
    {
      var n := Count();
      if n == 0 then this
      else
        this.(vecLen := vecLen - n, out := out + slots[..n], index := 0,
              bufLen := if bufLen < vecLen - n then bufLen else vecLen - n,
              slots := slots[0 := slots[0].(start := 0, end := 0)])
    }

    // ---- what they mean ----

    /** A push adds the run to the buffer's regions, coalescing where it can, or fails
        because the buffer is full and the last region is not continued. */
    lemma PushMeaning(r: PageRegion)
      requires Valid() && Ready() && HasBuffer() && r.start <= r.end
      ensures var (s, ok) := Push(r);
        && s.Shape()
        && s.Content() == (if ok && r.start < r.end then PushRegion(Content(), Open(), r) else Content())
        && (ok && r.start < r.end ==> s.Ready() && s.Open() && s.slots[s.index].start <= r.start
                                      && s.slots[s.index].end == r.end)
        && (!ok ==> s == this && |Content()| == bufLen
                    && !Joins(Content()[|Content()| - 1], r.start, r.categories))
    {
      var (s, ok) := Push(r);
      var cur := slots[index];
      if ok {
        if s.index == index {
          assert s.slots[..index] == slots[..index];
        } else {
          assert s.slots[..s.index] == slots[..index] + [cur];
        }
      }
    }

    /** The current region ends with the pages `addr .. end`: what a back-out undoes. */
    predicate EndsWith(addr: nat, end: nat) {
      HasBuffer() ==>
        index < |slots| && slots[index].start <= addr < end == slots[index].end
    }

    /** What a push does to everything reported so far. */
    lemma PushRegions(r: PageRegion)
      requires Valid() && Ready() && HasBuffer() && r.start <= r.end
      requires r.start < r.end ==> MayFollow(r.start, r.categories)
      ensures var (s, ok) := Push(r);
        && s.Shape() && |s.Content()| <= bufLen
        && Expand(s.Regions()) == Expand(Regions()) + (if ok then Pages(r.start, r.end, r.categories) else [])
        && WellFormed(s.Regions(), backedOut)
        && (!ok ==> 0 < bufLen == |s.Content()| && s.Regions() != []
                    && !Joins(s.Regions()[|s.Regions()| - 1], r.start, r.categories))
    {
      PushMeaning(r);
      LastOfContent();
      var (s, ok) := Push(r);
      if ok && r.start < r.end {
        AddRun(out, Content(), Open(), r, backedOut);
        assert s.Regions() == out + PushRegion(Content(), Open(), r);
      } else {
        assert s.Regions() == Regions();
        if !ok {
          assert Regions()[|Regions()| - 1] == Content()[|Content()| - 1];
        }
      }
    }

    /** What a push leaves alone. */
    lemma PushFrame(r: PageRegion)
      requires HasBuffer() && index < bufLen <= |slots|
      ensures var (s, ok) := Push(r);
        s == this.(slots := s.slots, index := s.index) && |s.slots| == |slots| && (!ok ==> s == this)
    {
    }

    /** The counters play no part in what is reported. */
    lemma Counters(found: nat, walkEnd: nat)
      requires Shape()
      ensures var s := this.(found := found, walkEnd := walkEnd);
        s.Shape() && s.Content() == Content() && s.Regions() == Regions()
    {
    }

    /** Everything before `next` is reported and nothing after it. */
    lemma OutputMeaning(categories: Categories, addr: nat, end: nat)
      requires Valid() && Ready() && addr < end <= ULONG_MAX
      requires MayFollow(addr, categories * arg.returnMask)
      ensures var (s, ret, next) := Output(categories, addr, end);
        && s.Valid() && addr <= next <= end
        && (HasBuffer() ==>
              Expand(s.Regions()) == Expand(Regions()) + Pages(addr, next, categories * arg.returnMask))
    {
      hide Push, AddOverflow, SubWrap, Expand;
      if HasBuffer() {
        PushFrame(PageRegion(addr, Clamp(addr, end), categories * arg.returnMask));
        var r := PageRegion(addr, Clamp(addr, end), categories * arg.returnMask);
        var p := Push(r).0;
        var s := Output(categories, addr, end).0;
        PushRegions(r);
        p.Counters(s.found, s.walkEnd);
      }
    }

    /** A run is cut short only by `max_pages`, or not taken at all because the buffer is
        full and its last region is not continued. */
    lemma OutputStops(categories: Categories, addr: nat, end: nat)
      requires Valid() && Ready() && addr < end <= ULONG_MAX
      requires MayFollow(addr, categories * arg.returnMask)
      ensures var (s, ret, next) := Output(categories, addr, end);
        s.Shape() && (ret != 0 ==>
          s.found == arg.maxPages
          || (next == addr && 0 < bufLen == |s.Content()| && s.Regions() != []
              && !Joins(s.Regions()[|s.Regions()| - 1], addr, categories * arg.returnMask)))
    {
      hide Push, AddOverflow, SubWrap, Expand, Pages;
      if HasBuffer() {
        PushFrame(PageRegion(addr, Clamp(addr, end), categories * arg.returnMask));
        var r := PageRegion(addr, Clamp(addr, end), categories * arg.returnMask);
        var p := Push(r).0;
        var s := Output(categories, addr, end).0;
        PushRegions(r);
        p.Counters(s.found, s.walkEnd);
      }
    }

    /** The rest of the state after an output. */
    lemma OutputFrame(categories: Categories, addr: nat, end: nat)
      requires Valid() && Ready() && addr < end <= ULONG_MAX
      ensures var (s, ret, next) := Output(categories, addr, end);
        && s.Shape() && s.out == out && s.arg == arg && s.bufLen == bufLen && s.backedOut == backedOut
        && (s.HasBuffer() <==> HasBuffer()) && (!HasBuffer() ==> s == this)
        && (ret == 0 || ret == -ENOSPC) && (ret == 0 <==> next == end)
        && s.walkEnd == (if ret == 0 then walkEnd else next)
        && (next > addr ==> s.Ready() && s.EndsWith(addr, next) && (HasBuffer() ==> s.Content() != []))
        && (next == addr ==> s.Content() == Content())
    {
      hide Push, AddOverflow, SubWrap, Expand, Pages;
      if HasBuffer() {
        PushFrame(PageRegion(addr, Clamp(addr, end), categories * arg.returnMask));
        PushMeaning(PageRegion(addr, Clamp(addr, end), categories * arg.returnMask));
      }
    }

    /** What a back-out does to the vector: its last region is cut at `addr`. */
    lemma BackoutRegions(addr: nat, end: nat)
      requires Valid() && Ready() && HasBuffer() && addr < end && EndsWith(addr, end)
      ensures Regions() != [] && Regions()[|Regions()| - 1] == slots[index]
      ensures end - addr <= found ==>
        Backout(addr, end).Shape() && Backout(addr, end).Regions() == CutLast(Regions(), addr)
    {
      LastOfContent();
      if end - addr <= found {
        var s := Backout(addr, end);
        assert s.out + s.Content() == CutLast(out + Content(), addr);
      }
    }

    /** A back-out restores the count, and what is reported is again what it was. */
    lemma BackoutMeaning(addr: nat, end: nat, before: seq<Report>, categories: Categories)
      requires Valid() && Ready() && HasBuffer() && addr < end && EndsWith(addr, end)
      requires Expand(Regions()) == before + Pages(addr, end, categories)
      ensures end - addr <= found
      ensures var s := Backout(addr, end);
        && s.Valid() && s.Ready() && s.backedOut
        && Expand(s.Regions()) == before && s.found == |before|
    {
      BackoutRegions(addr, end);
      CutLastMeaning(Regions(), addr);
      var cut := Expand(CutLast(Regions(), addr));
      SamePrefix(cut, Pages(addr, end, slots[index].categories), before, Pages(addr, end, categories));
    }

    /** A flush gives the caller everything reported so far and leaves the buffer ready,
        unless the caller's vector is full. */
    lemma FlushMeaning()
      requires Valid()
      ensures HasBuffer() ==> Count() <= vecLen && Count() <= |slots|
      ensures var s := Flush();
        && s.Valid() && Count() == |Content()| && s.out == Regions() && s.Content() == []
        && s.Regions() == Regions()
        && (Count() > 0 && s.bufLen > 0 ==> s.Ready())
        && (bufLen > 0 ==> (s.bufLen == 0 <==> s.vecLen == 0))
    {
      if HasBuffer() {
        assert Content() == slots[..Count()];
        assert Flush().out + Flush().Content() == Flush().out;
      }
    }

    lemma LastOfContent()
      requires Shape()
      ensures Open() ==> Content() != [] && Content()[|Content()| - 1] == slots[index]
      ensures Ready() && HasBuffer() && !Open() && !backedOut ==> Content() == []
    {
    }
  }

  /** Lengthening the last region. */
  lemma ExtendLast(rs: seq<PageRegion>, end: nat)
    requires rs != [] && rs[|rs| - 1].start <= rs[|rs| - 1].end <= end
    ensures var cur := rs[|rs| - 1];
            Expand(rs[|rs| - 1 := cur.(end := end)]) == Expand(rs) + Pages(cur.end, end, cur.categories)
    ensures Coalesced(rs) ==> Coalesced(rs[|rs| - 1 := rs[|rs| - 1].(end := end)])
  {
    var cur, n := rs[|rs| - 1], |rs| - 1;
    PagesSplit(cur.start, cur.end, end, cur.categories);
    assert rs[n := cur.(end := end)][..n] == rs[..n];
  }

  /** The vector with its last region cut at `mid`, or dropped if nothing is left of it. */
  ghost function CutLast(rs: seq<PageRegion>, mid: nat): seq<PageRegion>
    requires rs != []
  {
    if rs[|rs| - 1].start != mid then rs[|rs| - 1 := rs[|rs| - 1].(end := mid)] else rs[..|rs| - 1]
  }

  lemma CutLastMeaning(rs: seq<PageRegion>, mid: nat)
    requires rs != [] && rs[|rs| - 1].start <= mid <= rs[|rs| - 1].end
    ensures Expand(CutLast(rs, mid)) + Pages(mid, rs[|rs| - 1].end, rs[|rs| - 1].categories) == Expand(rs)
    ensures NonEmpty(rs) ==> NonEmpty(CutLast(rs, mid))
  {
    var cur, n := rs[|rs| - 1], |rs| - 1;
    PagesSplit(cur.start, mid, cur.end, cur.categories);
    assert rs[n := cur.(end := mid)][..n] == rs[..n];
  }

  lemma SamePrefix(a: seq<Report>, b: seq<Report>, c: seq<Report>, d: seq<Report>)
    requires a + b == c + d && |b| == |d|
    ensures a == c
  {
    assert a == (a + b)[..|a|] && c == (c + d)[..|c|];
  }

  /** Adding a run to the part of the vector that is still buffered. */
  lemma AddRun(out: seq<PageRegion>, content: seq<PageRegion>, open: bool, r: PageRegion, backedOut: bool)
    requires r.start < r.end && WellFormed(out + content, backedOut) && (open ==> content != [])
    requires backedOut || open || content == []
    requires backedOut || content != [] || out == [] || !Joins(out[|out| - 1], r.start, r.categories)
    ensures Expand(out + PushRegion(content, open, r))
         == Expand(out + content) + Pages(r.start, r.end, r.categories)
    ensures WellFormed(out + PushRegion(content, open, r), backedOut)
  {
    hide Expand, Pages;
    var rs := out + content;
    if open && Joins(content[|content| - 1], r.start, r.categories) {
      assert rs[|rs| - 1] == content[|content| - 1];
      ExtendLast(rs, r.end);
      assert out + PushRegion(content, open, r) == rs[|rs| - 1 := rs[|rs| - 1].(end := r.end)];
    } else {
      ExpandPush(rs, r);
      assert out + PushRegion(content, open, r) == rs + [r];
      if rs != [] {
        assert rs[|rs| - 1] == if content != [] then content[|content| - 1] else out[|out| - 1];
      }
    }
  }

  class ScanPrivate {
    const arg: ScanArg
    var vecLen: nat
    var walkEnd: nat
    var curVmaCategory: Categories
    var vecBuf: array?<PageRegion>
    var vecBufLen: nat
    var vecBufIndex: nat
    var foundPages: nat
    var vecOut: seq<PageRegion>
    ghost var backedOut: bool

    ghost function State(): ScanState
      reads this, vecBuf
    {
      ScanState(arg, vecLen, walkEnd, foundPages, vecOut,
                if vecBuf == null then [] else vecBuf[..], vecBufLen, vecBufIndex, backedOut)
    }

    /** A buffer that is there has slots. */
    ghost predicate Allocated()
      reads this
    {
      vecBuf == null || vecBuf.Length > 0
    }

    constructor (arg: ScanArg)
      requires 0 < arg.maxPages <= ULONG_MAX
      ensures Allocated() && State().Valid() && State().Ready() && State().out == [] && State().Content() == []
      ensures this.arg == arg && walkEnd == 0 && !backedOut
      ensures vecBufLen == if arg.vecLen < HPAGE_NR then arg.vecLen else HPAGE_NR
      ensures vecBuf != null ==> fresh(vecBuf)
    {
      this.arg := arg;
      vecLen := arg.vecLen;
      walkEnd := 0;
      curVmaCategory := {};
      vecBufIndex, foundPages := 0, 0;
      vecOut, backedOut := [], false;
      if arg.vecLen == 0 {
        vecBuf, vecBufLen := null, 0;
      } else {
        // the buffer has as many slots as a huge page has pages
        var len := if arg.vecLen < HPAGE_NR then arg.vecLen else HPAGE_NR;
        vecBufLen := len;
        var buf := new PageRegion[len];
        buf[0] := PageRegion(0, 0, buf[0].categories);
        vecBuf := buf;
      }
    }

    method PushRange(categories: Categories, addr: nat, end: nat) returns (ok: bool)
      requires vecBuf != null && vecBufIndex < vecBufLen <= vecBuf.Length
      modifies this`vecBufIndex, vecBuf
      ensures (State(), ok) == old(State()).Push(PageRegion(addr, end, categories))
    {
      var cur := vecBuf[vecBufIndex];
      if addr == cur.end && categories == cur.categories {
        vecBuf[vecBufIndex] := cur.(end := end);
        return true;
      }
      if cur.end != 0 {
        if vecBufIndex >= vecBufLen - 1 {
          return false;
        }
        vecBufIndex := vecBufIndex + 1;
      }
      vecBuf[vecBufIndex] := PageRegion(addr, end, categories);
      return true;
    }

    method Output(categories: Categories, addr: nat, end: nat) returns (ret: int, next: nat)
      requires Allocated() && State().Ready() && addr < end <= ULONG_MAX
      requires foundPages <= arg.maxPages <= ULONG_MAX
      modifies this`vecBufIndex, this`foundPages, this`walkEnd, vecBuf
      ensures (State(), ret, next) == old(State()).Output(categories, addr, end)
    {
      ret, next := 0, end;
      if vecBuf == null {
        return;
      }
      var nPages := next - addr;
      var (total, overflow) := AddOverflow(foundPages, nPages);
      ExcessIsTrue(foundPages, nPages, arg.maxPages);
      if overflow || total > arg.maxPages {
        var tooMuch := SubWrap(total, arg.maxPages);
        next := next - tooMuch;
        nPages := nPages - tooMuch;
        ret := -ENOSPC;
      }
      var pushed := PushRange(categories * arg.returnMask, addr, next);
      if !pushed {
        next := addr;
        nPages := 0;
        ret := -ENOSPC;
      }
      foundPages := foundPages + nPages;
      if ret != 0 {
        walkEnd := next;
      }
    }

    method BackoutRange(addr: nat, end: nat)
      requires Allocated()
      requires vecBuf != null ==> vecBufIndex < vecBuf.Length && addr <= end && end - addr <= foundPages
      modifies this`foundPages, this`backedOut, vecBuf
      ensures State() == old(State()).Backout(addr, end)
    {
      if vecBuf == null {
        return;
      }
      var cur := vecBuf[vecBufIndex];
      if cur.start != addr {
        vecBuf[vecBufIndex] := cur.(end := addr);
      } else {
        vecBuf[vecBufIndex] := cur.(start := 0, end := 0);
      }
      foundPages := foundPages - (end - addr);
      backedOut := true;
    }

    /** A failing copy is signalled by `fault`; then nothing reaches the caller. */
    method FlushBuffer(fault: bool) returns (n: int)
      requires Allocated()
      requires vecBuf != null ==> vecBufIndex < vecBuf.Length
                                  && State().Count() <= vecLen && State().Count() <= vecBuf.Length
      modifies this`vecLen, this`vecOut, this`vecBufIndex, this`vecBufLen, vecBuf
      ensures fault && old(State()).Count() > 0 ==> n == -EFAULT && State() == old(State())
      ensures !fault || old(State()).Count() == 0 ==> n == old(State()).Count() && State() == old(State()).Flush()
    {
      if vecBuf == null {
        return 0;
      }
      n := vecBufIndex;
      if vecBuf[n].end != vecBuf[n].start {
        n := n + 1;
      }
      if n == 0 {
        return 0;
      }
      if fault {
        return -EFAULT;
      }
      vecLen := vecLen - n;
      vecOut := vecOut + vecBuf[..n];
      vecBufIndex := 0;
      vecBufLen := if vecBufLen < vecLen then vecBufLen else vecLen;
      vecBuf[0] := vecBuf[0].(start := 0, end := 0);
    }
  }
}
