/** Runs of pages. A `PageRegion` is one record of the scan's output vector; a
    `Report` is what that record says about a single page. `Expand` is the meaning
    of a vector, `Coalesced` says that no run could have been written shorter, and
    the two together determine the vector (`RunLengthUnique`). Addresses are page
    numbers: every address that reaches this code is page aligned. */
module Regions {
  import opened ScanTypes

  datatype PageRegion = PageRegion(start: nat, end: nat, categories: Categories)

  datatype Report = Report(page: nat, categories: Categories)

  /** The reports of the pages `start .. end`, all with the same categories. */
  ghost function Pages(start: nat, end: nat, categories: Categories): (s: seq<Report>)
    ensures |s| == if start <= end then end - start else 0
  {
    if start >= end then [] else Pages(start, end - 1, categories) + [Report(end - 1, categories)]
  }

  /** What a vector of regions says, page by page, in order. */
  ghost function Expand(rs: seq<PageRegion>): seq<Report> {
    if rs == [] then []
    else
      var r := rs[|rs| - 1];
      Expand(rs[..|rs| - 1]) + Pages(r.start, r.end, r.categories)
  }

  /** A run starting at `addr` would continue `r`. */
  predicate Joins(r: PageRegion, addr: nat, categories: Categories) {
    addr == r.end && categories == r.categories
  }

  /** `rs` with the run `r` added: by lengthening the last region if that is still open
      and `r` continues it, else as a region of its own. */
  ghost function PushRegion(rs: seq<PageRegion>, open: bool, r: PageRegion): seq<PageRegion> {
    if open && rs != [] && Joins(rs[|rs| - 1], r.start, r.categories)
    then rs[|rs| - 1 := rs[|rs| - 1].(end := r.end)]
    else rs + [r]
  }

  ghost predicate NonEmpty(rs: seq<PageRegion>) {
    forall i :: 0 <= i < |rs| ==> rs[i].start < rs[i].end
  }

  /** Maximally coalesced: no region is continued by the next one. */
  ghost predicate Coalesced(rs: seq<PageRegion>) {
    forall i, j :: 0 <= i < j < |rs| && j == i + 1 ==> !Joins(rs[i], rs[j].start, rs[j].categories)
  }

  /** A vector as the scan builds it; after a back-out it may not be coalesced. */
  ghost predicate WellFormed(rs: seq<PageRegion>, backedOut: bool) {
    NonEmpty(rs) && (backedOut || Coalesced(rs))
  }

  ghost predicate SortedDisjoint(rs: seq<PageRegion>) {
    forall i, j :: 0 <= i < j < |rs| ==> rs[i].end <= rs[j].start
  }

  ghost predicate Ascending(ps: seq<Report>) {
    forall i, j :: 0 <= i < j < |ps| ==> ps[i].page < ps[j].page
  }

  lemma {:induction false} PagesAt(start: nat, end: nat, categories: Categories, i: nat)
    requires start + i < end
    ensures Pages(start, end, categories)[i] == Report(start + i, categories)
  {
    if start + i < end - 1 {
      PagesAt(start, end - 1, categories, i);
    }
  }

  lemma {:induction false} PagesSplit(start: nat, mid: nat, end: nat, categories: Categories)
    requires start <= mid <= end
    ensures Pages(start, end, categories) == Pages(start, mid, categories) + Pages(mid, end, categories)
  {
    if mid < end {
      PagesSplit(start, mid, end - 1, categories);
      assert Pages(start, end, categories)
          == Pages(start, mid, categories) + (Pages(mid, end - 1, categories) + [Report(end - 1, categories)]);
    }
  }

  lemma ExpandPush(rs: seq<PageRegion>, r: PageRegion)
    ensures Expand(rs + [r]) == Expand(rs) + Pages(r.start, r.end, r.categories)
  {
    assert (rs + [r])[..|rs|] == rs;
  }

  lemma {:induction false} ExpandConcat(a: seq<PageRegion>, b: seq<PageRegion>)
    ensures Expand(a + b) == Expand(a) + Expand(b)
  {
    hide Pages;
    if b == [] {
      assert a + b == a;
    } else {
      var n := |b| - 1;
      ExpandConcat(a, b[..n]);
      assert (a + b)[..|a + b| - 1] == a + b[..n];
    }
  }

  /** Where page `k` of region `i` stands in the expansion. */
  lemma {:induction false} ExpandHolds(rs: seq<PageRegion>, i: nat, page: nat)
    requires i < |rs| && rs[i].start <= page < rs[i].end
    ensures Report(page, rs[i].categories) in Expand(rs)
  {
    var n := |rs| - 1;
    if i == n {
      PagesAt(rs[n].start, rs[n].end, rs[n].categories, page - rs[n].start);
      assert Report(page, rs[n].categories) in Pages(rs[n].start, rs[n].end, rs[n].categories);
    } else {
      ExpandHolds(rs[..n], i, page);
    }
  }

  /** Every page of the expansion comes from a region. */
  lemma {:induction false} ExpandFrom(rs: seq<PageRegion>, r: Report) returns (i: nat)
    requires r in Expand(rs)
    ensures i < |rs| && rs[i].start <= r.page < rs[i].end && rs[i].categories == r.categories
  {
    var n := |rs| - 1;
    if r in Expand(rs[..n]) {
      i := ExpandFrom(rs[..n], r);
    } else {
      i := n;
      PagesFrom(rs[n].start, rs[n].end, rs[n].categories, r);
    }
  }

  lemma {:induction false} PagesFrom(start: nat, end: nat, categories: Categories, r: Report)
    requires r in Pages(start, end, categories)
    ensures start <= r.page < end && r.categories == categories
  {
    if r != Report(end - 1, categories) {
      PagesFrom(start, end - 1, categories, r);
    }
  }

  /** A vector of non-empty regions whose pages ascend is sorted and disjoint. */
  lemma {:induction false} AscendingRegions(rs: seq<PageRegion>)
    requires NonEmpty(rs) && Ascending(Expand(rs))
    ensures SortedDisjoint(rs)
  {
    if rs != [] {
      var n := |rs| - 1;
      var init := Expand(rs[..n]);
      assert forall i, j :: 0 <= i < j < |init| ==> init[i] == Expand(rs)[i] && init[j] == Expand(rs)[j];
      AscendingRegions(rs[..n]);
      forall i | 0 <= i < n
        ensures rs[i].end <= rs[n].start
      {
        ExpandHolds(rs[..n], i, rs[i].end - 1);
        var k :| 0 <= k < |init| && init[k] == Report(rs[i].end - 1, rs[i].categories);
        PagesAt(rs[n].start, rs[n].end, rs[n].categories, 0);
        assert Expand(rs)[|init|] == Report(rs[n].start, rs[n].categories);
        assert Expand(rs)[k] == init[k];
      }
    }
  }

  /** The last region of a coalesced vector is the longest run that ends the list:
      its start is determined by the page list alone. */
  lemma {:induction false} LastRun(rs: seq<PageRegion>, i: nat)
    requires rs != [] && NonEmpty(rs) && Coalesced(rs)
    requires var r := rs[|rs| - 1]; i < r.end - r.start
    ensures var r := rs[|rs| - 1]; var e := Expand(rs);
      && |e| >= r.end - r.start
      && e[|e| - 1 - i] == Report(r.end - 1 - i, r.categories)
      && (|e| > r.end - r.start ==>
            |rs| > 1
            && e[|e| - 1 - (r.end - r.start)] == Report(rs[|rs| - 2].end - 1, rs[|rs| - 2].categories)
            && !Joins(rs[|rs| - 2], r.start, r.categories))
  {
    var n := |rs| - 1;
    var r, e := rs[n], Expand(rs);
    var run := r.end - r.start;
    PagesAt(r.start, r.end, r.categories, run - 1 - i);
    assert e[|e| - 1 - i] == Pages(r.start, r.end, r.categories)[run - 1 - i];
    if |e| > run {
      var q := rs[n - 1];
      PagesAt(q.start, q.end, q.categories, q.end - q.start - 1);
      assert rs[..n][..n - 1] == rs[..n - 1];
      assert Expand(rs[..n]) == Expand(rs[..n - 1]) + Pages(q.start, q.end, q.categories);
    }
  }

  /** Two coalesced vectors with the same expansion end in the same region. */
  lemma {:induction false} SameLastRun(a: seq<PageRegion>, b: seq<PageRegion>)
    requires a != [] && b != []
    requires NonEmpty(a) && Coalesced(a) && NonEmpty(b) && Coalesced(b)
    requires Expand(a) == Expand(b)
    requires a[|a| - 1].end - a[|a| - 1].start <= b[|b| - 1].end - b[|b| - 1].start
    ensures a[|a| - 1] == b[|b| - 1]
  {
    var r, s := a[|a| - 1], b[|b| - 1];
    LastRun(a, 0);
    LastRun(b, 0);
    var run := r.end - r.start;
    if run < s.end - s.start {
      LastRun(b, run);
    }
  }

  /** The vector is the run-length encoding of its page list: there is only one
      coalesced vector of non-empty regions for each list of pages. */
  lemma {:induction false} RunLengthUnique(a: seq<PageRegion>, b: seq<PageRegion>)
    requires NonEmpty(a) && Coalesced(a) && NonEmpty(b) && Coalesced(b)
    requires Expand(a) == Expand(b)
    ensures a == b
  {
    if a == [] || b == [] {
    } else {
      if a[|a| - 1].end - a[|a| - 1].start <= b[|b| - 1].end - b[|b| - 1].start {
        SameLastRun(a, b);
      } else {
        SameLastRun(b, a);
      }
      var r, m, n := a[|a| - 1], |a| - 1, |b| - 1;
      var tail := Pages(r.start, r.end, r.categories);
      assert Expand(a[..m]) == Expand(a)[..|Expand(a)| - |tail|];
      assert Expand(b[..n]) == Expand(b)[..|Expand(b)| - |tail|];
      RunLengthUnique(a[..m], b[..n]);
      assert a == a[..m] + [r] && b == b[..n] + [r];
    }
  }
}
