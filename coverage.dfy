/**
 * Coverage analysis over visibility windows: merging, gap finding,
 * the continuous-coverage test and the peak number of concurrent windows
 * (neet/note.py).
 */
module Coverage {
  import opened Sorting

  /** A closed time window [start, end]; the source does not check start <= end. */
  datatype Interval = Interval(start: int, end: int)

  function Max(a: int, b: int): int { if a >= b then a else b }

  /** The key of `sort(key=lambda x: x[0])`. */
  function StartLe(a: Interval, b: Interval): bool { a.start <= b.start }

  lemma StartLePreorder()
    ensures TotalPreorder(StartLe)
  {
  }

  predicate Contains(x: Interval, t: int) { x.start <= t <= x.end }

  /** Some window of `xs` contains the instant `t`. */
  ghost predicate Covered(xs: seq<Interval>, t: int) {
    exists x :: x in xs && Contains(x, t)
  }

  predicate WellFormed(xs: seq<Interval>) {
    forall i :: 0 <= i < |xs| ==> xs[i].start <= xs[i].end
  }

  predicate SortedByStart(xs: seq<Interval>) {
    forall i, j :: 0 <= i < j < |xs| ==> xs[i].start <= xs[j].start
  }

  /** Each window starts strictly after the previous one ends. */
  predicate Separated(xs: seq<Interval>) {
    forall i :: 0 < i < |xs| ==> xs[i - 1].end < xs[i].start
  }

  // ---------------------------------------------------------------------------
  // merge_intervals
  // ---------------------------------------------------------------------------

  /** One step of the merge loop: extend the last merged window or append `cur`. */
  function Fuse(m: seq<Interval>, cur: Interval): (r: seq<Interval>)
    requires m != []
    ensures |m| <= |r| <= |m| + 1
  {
    var last := m[|m| - 1];
    if cur.start <= last.end then m[|m| - 1 := Interval(last.start, Max(last.end, cur.end))]
    else m + [cur]
  }

  /** The merge loop run over an already sorted, non-empty list. */
  function MergeSorted(s: seq<Interval>): (r: seq<Interval>)
    requires s != []
    ensures 0 < |r| <= |s|
  {
    if |s| == 1 then [s[0]] else Fuse(MergeSorted(s[..|s| - 1]), s[|s| - 1])
  }

  /** What merge_intervals returns. */
  function Merge(xs: seq<Interval>): seq<Interval> {
    if xs == [] then [] else MergeSorted(SortBy(xs, StartLe))
  }

  lemma SortByStartSorted(xs: seq<Interval>)
    ensures SortedByStart(SortBy(xs, StartLe))
    ensures multiset(SortBy(xs, StartLe)) == multiset(xs)
  {
    StartLePreorder();
    SortBySorted(xs, StartLe);
  }

  /** The shape facts the merge keeps at every step. */
  ghost predicate MergedShape(r: seq<Interval>) {
    r != [] && SortedByStart(r) && Separated(r)
  }

  lemma FuseShape(m: seq<Interval>, cur: Interval)
    requires MergedShape(m) && m[|m| - 1].start <= cur.start
    ensures var r := Fuse(m, cur);
      && MergedShape(r) && |r| <= |m| + 1
      && r[0].start == m[0].start
      && r[|r| - 1].start <= cur.start
      && (WellFormed(m) && cur.start <= cur.end ==> WellFormed(r))
  {
    var last := m[|m| - 1];
    var r := Fuse(m, cur);
    if cur.start <= last.end {
      var f := Interval(last.start, Max(last.end, cur.end));
      assert r == m[|m| - 1 := f];
      if |m| > 1 {
        assert r[0] == m[0];
      }
    } else {
      assert r == m + [cur];
      assert forall i :: 0 <= i < |m| ==> r[i] == m[i];
    }
  }

  /** Shape of the merge over a sorted list: sorted, separated, no longer than its input. */
  lemma {:induction false} MergeSortedShape(s: seq<Interval>)
    requires s != [] && SortedByStart(s)
    ensures var r := MergeSorted(s);
      && MergedShape(r) && |r| <= |s|
      && r[0].start == s[0].start
      && r[|r| - 1].start <= s[|s| - 1].start
      && (WellFormed(s) ==> WellFormed(r))
  {
    if |s| > 1 {
      var p := s[..|s| - 1];
      var cur := s[|s| - 1];
      MergeSortedShape(p);
      assert p[|p| - 1] == s[|s| - 2];
      assert p[0] == s[0];
      FuseShape(MergeSorted(p), cur);
    }
  }

  lemma FuseCovers(m: seq<Interval>, cur: Interval, t: int)
    requires m != [] && m[|m| - 1].start <= cur.start
    ensures Covered(Fuse(m, cur), t) <==> Covered(m, t) || Contains(cur, t)
  {
    var last := m[|m| - 1];
    if cur.start <= last.end {
      var p := m[..|m| - 1];
      var f := Interval(last.start, Max(last.end, cur.end));
      assert m == p + [last];
      assert Fuse(m, cur) == p + [f];
      assert Contains(f, t) <==> Contains(last, t) || Contains(cur, t);
      assert Covered(Fuse(m, cur), t) <==> Covered(p, t) || Contains(f, t);
      assert Covered(m, t) <==> Covered(p, t) || Contains(last, t);
    } else {
      assert Covered(m + [cur], t) <==> Covered(m, t) || Contains(cur, t);
    }
  }

  /** Merging a sorted list covers exactly the instants its windows cover. */
  lemma {:induction false} MergeSortedCovers(s: seq<Interval>, t: int)
    requires s != [] && SortedByStart(s)
    ensures Covered(MergeSorted(s), t) <==> Covered(s, t)
  {
    if |s| == 1 {
      assert MergeSorted(s) == s;
    } else {
      var p := s[..|s| - 1];
      var cur := s[|s| - 1];
      MergeSortedCovers(p, t);
      MergeSortedShape(p);
      assert p[|p| - 1] == s[|s| - 2];
      FuseCovers(MergeSorted(p), cur, t);
      assert s == p + [cur];
      assert Covered(s, t) <==> Covered(p, t) || Contains(cur, t);
    }
  }

  /** A merged list is its own merge. */
  lemma {:induction false} MergeSortedOfMerged(r: seq<Interval>)
    requires MergedShape(r)
    ensures MergeSorted(r) == r
  {
    if |r| > 1 {
      var p := r[..|r| - 1];
      assert MergedShape(p);
      MergeSortedOfMerged(p);
      assert p[|p| - 1] == r[|r| - 2];
      assert r == p + [r[|r| - 1]];
    }
  }

  /** merge_intervals' promises, for any input list. */
  lemma MergeProperties(xs: seq<Interval>)
    ensures var r := Merge(xs);
      && (xs == [] <==> r == [])
      && |r| <= |xs|
      && SortedByStart(r) && Separated(r)
      && (WellFormed(xs) ==> WellFormed(r))
      && (forall t :: Covered(r, t) <==> Covered(xs, t))
  {
    if xs != [] {
      var s := SortBy(xs, StartLe);
      SortByStartSorted(xs);
      MergeSortedShape(s);
      forall t ensures Covered(Merge(xs), t) <==> Covered(xs, t) {
        MergeSortedCovers(s, t);
        assert forall x :: x in s <==> x in xs by {
          forall x ensures x in s <==> x in xs {
            assert x in s <==> x in multiset(s);
          }
        }
      }
      if WellFormed(xs) {
        forall i | 0 <= i < |s| ensures s[i].start <= s[i].end {
          assert s[i] in multiset(xs);
        }
      }
    }
  }

  /** Merging twice is merging once. */
  lemma MergeIdempotent(xs: seq<Interval>)
    ensures Merge(Merge(xs)) == Merge(xs)
  {
    var r := Merge(xs);
    MergeProperties(xs);
    if r != [] {
      assert SortedBy(r, StartLe);
      SortByOfSorted(r, StartLe);
      MergeSortedOfMerged(r);
    }
  }

  /** merge_intervals (neet/note.py): the loop over the sorted list. */
  method MergeIntervals(intervals: seq<Interval>) returns (merged: seq<Interval>)
    ensures merged == Merge(intervals)
    ensures intervals == [] <==> merged == []
    ensures |merged| <= |intervals|
    ensures SortedByStart(merged) && Separated(merged)
    ensures WellFormed(intervals) ==> WellFormed(merged)
    ensures forall t :: Covered(merged, t) <==> Covered(intervals, t)
  {
    MergeProperties(intervals);
    if intervals == [] {
      return [];
    }
    merged := MergeLoop(SortBy(intervals, StartLe));
  }

  /** The `for current in intervals[1:]` loop of `merge_intervals`, over the sorted windows. */
  method MergeLoop(sorted: seq<Interval>) returns (merged: seq<Interval>)
    requires sorted != []
    ensures merged == MergeSorted(sorted)
  {
    merged := [sorted[0]];
    var k := 1;
    while k < |sorted|
      invariant 1 <= k <= |sorted|
      invariant merged != [] && merged == MergeSorted(sorted[..k])
    {
      assert sorted[..k + 1][..k] == sorted[..k];
      var last := merged[|merged| - 1];
      var cur := sorted[k];
      if cur.start <= last.end {
        merged := merged[|merged| - 1 := Interval(last.start, Max(last.end, cur.end))];
      } else {
        merged := merged + [cur];
      }
      k := k + 1;
    }
    assert sorted[..k] == sorted;
  }

  // ---------------------------------------------------------------------------
  // find_coverage_gaps, has_continuous_coverage
  // ---------------------------------------------------------------------------

  /** `current_position` after walking the merged windows `m`, starting at `from`. */
  function Position(m: seq<Interval>, from: int): int {
    if m == [] then from else Max(Position(m[..|m| - 1], from), m[|m| - 1].end)
  }

  /** The gaps the walk appends before each merged window. */
  function InnerGaps(m: seq<Interval>, from: int): seq<Interval> {
    if m == [] then []
    else
      var p := Position(m[..|m| - 1], from);
      var x := m[|m| - 1];
      InnerGaps(m[..|m| - 1], from) + (if x.start > p then [Interval(p, x.start)] else [])
  }

  /** What find_coverage_gaps returns. */
  function Gaps(xs: seq<Interval>, requiredStart: int, requiredEnd: int): seq<Interval> {
    if xs == [] then [Interval(requiredStart, requiredEnd)]
    else
      var m := Merge(xs);
      var p := Position(m, requiredStart);
      InnerGaps(m, requiredStart) + (if p < requiredEnd then [Interval(p, requiredEnd)] else [])
  }

  /** Gaps in increasing order: each ends no later than the next begins. */
  predicate Ascending(gs: seq<Interval>) {
    forall i, j :: 0 <= i < j < |gs| ==> gs[i].end <= gs[j].start
  }

  lemma {:induction false} PositionBounds(m: seq<Interval>, from: int)
    ensures from <= Position(m, from)
    ensures forall y :: y in m ==> y.end <= Position(m, from)
  {
    if m != [] {
      var p := m[..|m| - 1];
      PositionBounds(p, from);
      assert m == p + [m[|m| - 1]];
    }
  }

  /** The position is the starting point or the end of some window. */
  lemma {:induction false} PositionAttained(m: seq<Interval>, from: int)
    ensures Position(m, from) == from || exists y :: y in m && y.end == Position(m, from)
  {
    if m != [] {
      var p := m[..|m| - 1];
      PositionAttained(p, from);
      assert m == p + [m[|m| - 1]];
    }
  }

  /** Every inner gap is non-empty and starts at or after `from`, whatever the windows. */
  lemma {:induction false} InnerGapsBasic(m: seq<Interval>, from: int)
    ensures forall g :: g in InnerGaps(m, from) ==> from <= g.start < g.end
  {
    if m != [] {
      InnerGapsBasic(m[..|m| - 1], from);
      PositionBounds(m[..|m| - 1], from);
    }
  }

  /** A gap beginning after every listed gap has ended extends an ascending list. */
  lemma AppendAscending(gs: seq<Interval>, g: Interval)
    requires Ascending(gs) && forall h :: h in gs ==> h.end <= g.start
    ensures Ascending(gs + [g])
  {
    assert forall i :: 0 <= i < |gs| ==> gs[i] in gs;
  }

  /** For well-formed windows the inner gaps are ascending and end by the position. */
  lemma {:induction false} InnerGapsShape(m: seq<Interval>, from: int)
    requires WellFormed(m)
    ensures var gs := InnerGaps(m, from);
      && Ascending(gs)
      && (forall g :: g in gs ==> g.end <= Position(m, from))
  {
    if m != [] {
      var p := m[..|m| - 1];
      var x := m[|m| - 1];
      assert WellFormed(p);
      InnerGapsShape(p, from);
      PositionBounds(p, from);
      var q := Position(p, from);
      var gs := InnerGaps(p, from);
      if x.start > q {
        AppendAscending(gs, Interval(q, x.start));
      }
    }
  }

  /** Inside a gap nothing is covered: no earlier window reaches it, no later one has begun. */
  lemma {:induction false} InnerGapsUncovered(m: seq<Interval>, from: int, g: Interval, t: int)
    requires WellFormed(m) && SortedByStart(m)
    requires g in InnerGaps(m, from) && g.start < t < g.end
    ensures !Covered(m, t)
    ensures m != [] && g.end <= m[|m| - 1].start
  {
    var p := m[..|m| - 1];
    var x := m[|m| - 1];
    assert m == p + [x];
    var q := Position(p, from);
    PositionBounds(p, from);
    if g in InnerGaps(p, from) {
      InnerGapsUncovered(p, from, g, t);
      assert p[|p| - 1].start <= x.start;
    } else {
      assert g == Interval(q, x.start);
      forall y | y in p ensures !Contains(y, t) {
        var k :| 0 <= k < |p| && p[k] == y;
        assert y.start <= x.start;
      }
    }
  }

  /** An uncovered instant at or after `from` is past the position or inside an inner gap. */
  lemma {:induction false} UncoveredInInnerGap(m: seq<Interval>, from: int, t: int)
    requires from <= t && !Covered(m, t)
    ensures Position(m, from) <= t || exists g :: g in InnerGaps(m, from) && g.start <= t <= g.end
  {
    if m != [] {
      var p := m[..|m| - 1];
      var x := m[|m| - 1];
      assert m == p + [x];
      assert !Covered(p, t);
      UncoveredInInnerGap(p, from, t);
      var q := Position(p, from);
      if q <= t {
        assert !Contains(x, t);
        if t < x.start {
          assert Interval(q, x.start) in InnerGaps(m, from);
        }
      } else {
        var g :| g in InnerGaps(p, from) && g.start <= t <= g.end;
        assert g in InnerGaps(m, from);
      }
    }
  }

  lemma MergeIsMergedShape(xs: seq<Interval>)
    requires xs != []
    ensures MergedShape(Merge(xs))
  {
    MergeProperties(xs);
  }

  /** Shape of find_coverage_gaps for any input: the empty-input answer, and gaps start at or after the required start and are non-empty (unless the input is empty and the window is not). */
  lemma GapsBasic(xs: seq<Interval>, rs: int, re: int)
    ensures xs == [] ==> Gaps(xs, rs, re) == [Interval(rs, re)]
    ensures forall g :: g in Gaps(xs, rs, re) ==> rs <= g.start
    ensures xs != [] || rs < re ==> forall g :: g in Gaps(xs, rs, re) ==> g.start < g.end
  {
    if xs != [] {
      var m := Merge(xs);
      PositionBounds(m, rs);
      InnerGapsBasic(m, rs);
    }
  }

  /** For well-formed windows the gaps are ascending, hence pairwise disjoint. */
  lemma GapsAscending(xs: seq<Interval>, rs: int, re: int)
    requires WellFormed(xs)
    ensures Ascending(Gaps(xs, rs, re))
  {
    if xs != [] {
      var m := Merge(xs);
      MergeProperties(xs);
      var inner := InnerGaps(m, rs);
      InnerGapsShape(m, rs);
      var p := Position(m, rs);
      if p < re {
        AppendAscending(inner, Interval(p, re));
      } else {
        assert Gaps(xs, rs, re) == inner + [] == inner;
      }
    }
  }

  /** For well-formed windows nothing strictly inside a gap is covered by any window. */
  lemma GapsUncovered(xs: seq<Interval>, rs: int, re: int, g: Interval, t: int)
    requires WellFormed(xs)
    requires g in Gaps(xs, rs, re) && g.start < t < g.end
    ensures !Covered(xs, t)
  {
    if xs != [] {
      var m := Merge(xs);
      MergeProperties(xs);
      PositionBounds(m, rs);
      if g in InnerGaps(m, rs) {
        InnerGapsUncovered(m, rs, g, t);
      } else {
        assert forall y :: y in m ==> !Contains(y, t);
      }
    }
  }

  /** For well-formed windows and rs < re, every uncovered instant in [rs, re] lies in a gap. */
  lemma GapsComplete(xs: seq<Interval>, rs: int, re: int, t: int)
    requires WellFormed(xs) && rs < re
    requires rs <= t <= re && !Covered(xs, t)
    ensures exists g :: g in Gaps(xs, rs, re) && g.start <= t <= g.end
  {
    if xs == [] {
      assert Interval(rs, re) in Gaps(xs, rs, re);
    } else {
      var m := Merge(xs);
      MergeProperties(xs);
      var p := Position(m, rs);
      UncoveredInInnerGap(m, rs, t);
      if p <= t {
        PositionAttained(m, rs);
        if p == re {
          assert false;
        }
        assert Interval(p, re) in Gaps(xs, rs, re);
      } else {
        var g :| g in InnerGaps(m, rs) && g.start <= t <= g.end;
        assert g in Gaps(xs, rs, re);
      }
    }
  }

  lemma AllGapProperties(xs: seq<Interval>, rs: int, re: int)
    ensures var gs := Gaps(xs, rs, re);
      && (WellFormed(xs) ==> forall g, t :: g in gs && g.start < t < g.end ==> !Covered(xs, t))
      && (WellFormed(xs) && rs < re ==>
            forall t :: rs <= t <= re && !Covered(xs, t) ==> exists g :: g in gs && g.start <= t <= g.end)
  {
    if WellFormed(xs) {
      forall g, t | g in Gaps(xs, rs, re) && g.start < t < g.end ensures !Covered(xs, t) {
        GapsUncovered(xs, rs, re, g, t);
      }
      if rs < re {
        forall t | rs <= t <= re && !Covered(xs, t) ensures exists g :: g in Gaps(xs, rs, re) && g.start <= t <= g.end {
          GapsComplete(xs, rs, re, t);
        }
      }
    }
  }

  /** find_coverage_gaps (neet/note.py): merge, then walk `current_position` over the merged windows. */
  method FindCoverageGaps(intervals: seq<Interval>, requiredStart: int, requiredEnd: int)
    returns (gaps: seq<Interval>)
    ensures gaps == Gaps(intervals, requiredStart, requiredEnd)
    ensures intervals == [] ==> gaps == [Interval(requiredStart, requiredEnd)]
    ensures forall g :: g in gaps ==> requiredStart <= g.start
    ensures intervals != [] || requiredStart < requiredEnd ==> forall g :: g in gaps ==> g.start < g.end
    ensures WellFormed(intervals) ==> Ascending(gaps)
    ensures WellFormed(intervals) ==>
      forall g, t :: g in gaps && g.start < t < g.end ==> !Covered(intervals, t)
    ensures WellFormed(intervals) && requiredStart < requiredEnd ==>
      forall t :: requiredStart <= t <= requiredEnd && !Covered(intervals, t) ==>
        exists g :: g in gaps && g.start <= t <= g.end
  {
    if intervals == [] {
      gaps := [Interval(requiredStart, requiredEnd)];
    } else {
      gaps := WalkMerged(intervals, requiredStart, requiredEnd);
    }
    GapsBasic(intervals, requiredStart, requiredEnd);
    AllGapProperties(intervals, requiredStart, requiredEnd);
    if WellFormed(intervals) {
      GapsAscending(intervals, requiredStart, requiredEnd);
    }
  }

  /** One more window moves the position to its end, if later, and adds the gap before it, if any. */
  lemma WalkStep(m: seq<Interval>, k: int, from: int)
    requires 0 <= k < |m|
    ensures var p := Position(m[..k], from);
      && Position(m[..k + 1], from) == Max(p, m[k].end)
      && InnerGaps(m[..k + 1], from) == InnerGaps(m[..k], from) + (if m[k].start > p then [Interval(p, m[k].start)] else [])
  {
    var done := m[..k + 1];
    assert done[..k] == m[..k] && done[k] == m[k];
  }

  /** The walk of find_coverage_gaps over the merged windows of a non-empty input. */
  method WalkMerged(intervals: seq<Interval>, requiredStart: int, requiredEnd: int)
    returns (gaps: seq<Interval>)
    requires intervals != []
    ensures gaps == Gaps(intervals, requiredStart, requiredEnd)
  {
    var merged := MergeIntervals(intervals);
    gaps := [];
    var position := requiredStart;
    var k := 0;
    while k < |merged|
      invariant 0 <= k <= |merged|
      invariant position == Position(merged[..k], requiredStart)
      invariant gaps == InnerGaps(merged[..k], requiredStart)
    {
      var x := merged[k];
      WalkStep(merged, k, requiredStart);
      if x.start > position {
        gaps := gaps + [Interval(position, x.start)];
      }
      position := Max(position, x.end);
      k := k + 1;
    }
    assert merged[..k] == merged;
    if position < requiredEnd {
      gaps := gaps + [Interval(position, requiredEnd)];
    }
  }

  lemma NoGapsMeansCovered(xs: seq<Interval>, a: int, b: int)
    ensures Gaps(xs, a, b) == [] && WellFormed(xs) && a < b ==>
      forall t :: a <= t <= b ==> Covered(xs, t)
  {
    AllGapProperties(xs, a, b);
  }

  /**
   * has_continuous_coverage (neet/note.py): no gap reported. With a
   * non-degenerate window and well-formed windows, a true answer means every
   * instant of the window is covered.
   */
  function HasContinuousCoverage(intervals: seq<Interval>, startTime: int, endTime: int): (r: bool)
    ensures r <==> Gaps(intervals, startTime, endTime) == []
    ensures r && WellFormed(intervals) && startTime < endTime ==>
      forall t :: startTime <= t <= endTime ==> Covered(intervals, t)
  {
    NoGapsMeansCovered(intervals, startTime, endTime);
    |Gaps(intervals, startTime, endTime)| == 0
  }

  /** The visibility windows of the demo (neet/note.py:520-525). */
  function DemoWindows(): seq<Interval> {
    [Interval(0, 300), Interval(240, 420), Interval(400, 600), Interval(700, 900)]
  }

  /** On the demo windows the merge gives 0..600 and 700..900. */
  lemma DemoSorted()
    ensures SortBy(DemoWindows(), StartLe) == DemoWindows()
  {
    var xs := DemoWindows();
    assert SortedBy(xs, StartLe);
    SortByOfSorted(xs, StartLe);
  }

  lemma DemoMergeSorted()
    ensures MergeSorted(DemoWindows()) == [Interval(0, 600), Interval(700, 900)]
  {
    var a := [Interval(0, 300)];
    var b := a + [Interval(240, 420)];
    assert b[..1] == a;
    assert MergeSorted(b) == [Interval(0, 420)];
    var c := b + [Interval(400, 600)];
    assert c[..2] == b;
    assert MergeSorted(c) == [Interval(0, 600)];
    var d := c + [Interval(700, 900)];
    assert d[..3] == c;
    assert MergeSorted(d) == [Interval(0, 600), Interval(700, 900)];
    assert d == DemoWindows();
  }

  lemma DemoMerge()
    ensures Merge(DemoWindows()) == [Interval(0, 600), Interval(700, 900)]
  {
    DemoSorted();
    DemoMergeSorted();
  }

  /** The walk over the demo's merged windows from 0 reports 600..700 and ends at 900. */
  lemma DemoWalk()
    ensures var m := [Interval(0, 600), Interval(700, 900)];
      Position(m, 0) == 900 && InnerGaps(m, 0) == [Interval(600, 700)]
  {
    var m := [Interval(0, 600), Interval(700, 900)];
    assert m[..1] == [Interval(0, 600)] && m[..1][..0] == [];
    assert Position(m[..1], 0) == 600;
    assert InnerGaps(m[..1], 0) == [];
  }

  /**
   * The demo's gap over 0..900 is 600..700. Because the windows are not
   * clipped to the required window, the same gap is reported for 0..600 even
   * though every instant of 0..600 is covered (`DemoCovered`), so has_continuous_coverage is
   * false for 0..600 as well as for 0..900.
   */
  lemma DemoGaps()
    ensures Gaps(DemoWindows(), 0, 900) == [Interval(600, 700)]
    ensures Gaps(DemoWindows(), 0, 600) == [Interval(600, 700)]
    ensures !HasContinuousCoverage(DemoWindows(), 0, 900)
    ensures !HasContinuousCoverage(DemoWindows(), 0, 600)
    ensures forall t :: 0 <= t <= 600 ==> Covered(DemoWindows(), t)
  {
    DemoMerge();
    DemoWalk();
    DemoCovered();
  }

  /** The first three demonstration windows cover every instant from 0 to 600. */
  lemma DemoCovered()
    ensures forall t :: 0 <= t <= 600 ==> Covered(DemoWindows(), t)
  {
    var xs := DemoWindows();
    forall t | 0 <= t <= 600 ensures Covered(xs, t) {
      if t <= 300 {
        assert xs[0] in xs;
      } else if t <= 420 {
        assert xs[1] in xs;
      } else {
        assert xs[2] in xs;
      }
    }
  }

  // ---------------------------------------------------------------------------
  // Gaps within the required window, as find_coverage_gaps describes them
  // ---------------------------------------------------------------------------

  function Min(a: int, b: int): int { if a <= b then a else b }

  /** Each gap of `gs` cut off at `re`; a gap the cut leaves empty is dropped. */
  function ClipTo(gs: seq<Interval>, re: int): (r: seq<Interval>)
    ensures forall g :: g in r ==> g.start < g.end <= re
  {
    if gs == [] then []
    else
      var h := gs[0];
      (if h.start < Min(h.end, re) then [Interval(h.start, Min(h.end, re))] else []) + ClipTo(gs[1..], re)
  }

  /** Every kept gap is the cut of a gap of `gs`. */
  lemma {:induction false} ClipSource(gs: seq<Interval>, re: int, g: Interval)
    requires g in ClipTo(gs, re)
    ensures exists h :: h in gs && g == Interval(h.start, Min(h.end, re))
  {
    var h := gs[0];
    if g != Interval(h.start, Min(h.end, re)) {
      ClipSource(gs[1..], re, g);
      var k :| k in gs[1..] && g == Interval(k.start, Min(k.end, re));
    }
  }

  /** A gap the cut leaves non-empty is kept. */
  lemma {:induction false} ClipKeeps(gs: seq<Interval>, re: int, h: Interval)
    requires h in gs && h.start < Min(h.end, re)
    ensures Interval(h.start, Min(h.end, re)) in ClipTo(gs, re)
  {
    if h != gs[0] {
      assert h in gs[1..];
      ClipKeeps(gs[1..], re, h);
    }
  }

  /** A gap ending before every listed gap begins can be put in front of an ascending list. */
  lemma PrependAscending(c: Interval, gs: seq<Interval>)
    requires Ascending(gs) && forall g :: g in gs ==> c.end <= g.start
    ensures Ascending([c] + gs)
  {
    var r := [c] + gs;
    forall i, j | 0 <= i < j < |r| ensures r[i].end <= r[j].start {
      assert r[j] == gs[j - 1] && gs[j - 1] in gs;
      if i > 0 {
        assert r[i] == gs[i - 1];
      }
    }
  }

  /** Cutting gaps off keeps their starts, so a bound below every start survives it. */
  lemma ClipBelow(gs: seq<Interval>, re: int, b: int)
    requires forall k :: k in gs ==> b <= k.start
    ensures forall g :: g in ClipTo(gs, re) ==> b <= g.start
  {
    forall g | g in ClipTo(gs, re) ensures b <= g.start {
      ClipSource(gs, re, g);
    }
  }

  /** Cutting gaps off keeps them in increasing order. */
  lemma {:induction false} ClipAscending(gs: seq<Interval>, re: int)
    requires Ascending(gs)
    ensures Ascending(ClipTo(gs, re))
  {
    if gs != [] {
      var h := gs[0];
      var rest := gs[1..];
      assert Ascending(rest) && forall k :: k in rest ==> h.end <= k.start by {
        forall i, j | 0 <= i < j < |rest| ensures rest[i].end <= rest[j].start {
          assert rest[i] == gs[i + 1] && rest[j] == gs[j + 1];
        }
        forall k | k in rest ensures h.end <= k.start {
          var j :| 0 <= j < |rest| && rest[j] == k;
          assert gs[j + 1] == k;
        }
      }
      ClipAscending(rest, re);
      ClipBelow(rest, re, Min(h.end, re));
      if h.start < Min(h.end, re) {
        PrependAscending(Interval(h.start, Min(h.end, re)), ClipTo(rest, re));
      }
    }
  }

  /** An inner gap starts at the starting point or at the end of some window. */
  lemma {:induction false} InnerGapStarts(m: seq<Interval>, from: int, g: Interval)
    requires g in InnerGaps(m, from)
    ensures g.start == from || exists y :: y in m && y.end == g.start
  {
    var p := m[..|m| - 1];
    assert m == p + [m[|m| - 1]];
    if g in InnerGaps(p, from) {
      InnerGapStarts(p, from, g);
    } else {
      PositionAttained(p, from);
    }
  }

  /** For well-formed windows, a gap that does not open at the required start opens at a covered instant. */
  lemma GapStartCovered(xs: seq<Interval>, rs: int, re: int, g: Interval)
    requires WellFormed(xs) && g in Gaps(xs, rs, re) && g.start != rs
    ensures Covered(xs, g.start)
  {
    var m := Merge(xs);
    MergeProperties(xs);
    if g in InnerGaps(m, rs) {
      InnerGapStarts(m, rs, g);
    } else {
      PositionAttained(m, rs);
    }
    var y :| y in m && y.end == g.start;
    var k :| 0 <= k < |m| && m[k] == y;
    assert Contains(y, g.start);
  }

  /**
   * find_coverage_gaps as its documentation describes it: the gaps within the
   * required window, each gap of the walk cut off at the required end.
   */
  function GapsAsIntended(xs: seq<Interval>, requiredStart: int, requiredEnd: int): (r: seq<Interval>)
    ensures forall g :: g in r ==> requiredStart <= g.start < g.end <= requiredEnd
  {
    var gs := Gaps(xs, requiredStart, requiredEnd);
    var r := ClipTo(gs, requiredEnd);
    assert forall g :: g in r ==> requiredStart <= g.start by {
      GapsBasic(xs, requiredStart, requiredEnd);
      forall g | g in r ensures requiredStart <= g.start {
        ClipSource(gs, requiredEnd, g);
      }
    }
    r
  }

  /**
   * The corrected gaps lose no gap that lies within the window, and keep
   * the walk's promises: ascending, uncovered inside, and every uncovered
   * instant of the window in some gap.
   */
  lemma GapsAsIntendedProperties(xs: seq<Interval>, rs: int, re: int)
    ensures var r := GapsAsIntended(xs, rs, re);
      && (forall g :: g in Gaps(xs, rs, re) && g.start < g.end <= re ==> g in r)
      && (WellFormed(xs) ==> Ascending(r))
      && (WellFormed(xs) ==> forall g, t :: g in r && g.start < t < g.end ==> !Covered(xs, t))
      && (WellFormed(xs) && rs < re ==>
            forall t :: rs <= t <= re && !Covered(xs, t) ==> exists g :: g in r && g.start <= t <= g.end)
  {
    var gs := Gaps(xs, rs, re);
    ClipsGaps(xs, rs, re, gs);
    forall g | g in gs && g.start < g.end <= re ensures g in GapsAsIntended(xs, rs, re) {
      ClipKeeps(gs, re, g);
      assert g == Interval(g.start, Min(g.end, re));
    }
    if WellFormed(xs) {
      GapsAscending(xs, rs, re);
      ClipAscending(gs, re);
      forall g, t | g in GapsAsIntended(xs, rs, re) && g.start < t < g.end ensures !Covered(xs, t) {
        ClippedUncovered(xs, rs, re, g, t);
      }
      if rs < re {
        forall t | rs <= t <= re && !Covered(xs, t)
          ensures exists g :: g in GapsAsIntended(xs, rs, re) && g.start <= t <= g.end
        {
          ClippedComplete(xs, rs, re, t);
        }
      }
    }
  }

  /** A corrected gap lies inside a gap of the walk, so nothing strictly inside it is covered. */
  lemma ClippedUncovered(xs: seq<Interval>, rs: int, re: int, g: Interval, t: int)
    requires WellFormed(xs) && g in GapsAsIntended(xs, rs, re) && g.start < t < g.end
    ensures !Covered(xs, t)
  {
    var gs := Gaps(xs, rs, re);
    ClipsGaps(xs, rs, re, gs);
    ClipSource(gs, re, g);
    var h :| h in gs && g == Interval(h.start, Min(h.end, re));
    GapsUncovered(xs, rs, re, h, t);
  }

  /** An uncovered instant of the window lies in the cut of the gap holding it, which is never empty. */
  lemma ClippedComplete(xs: seq<Interval>, rs: int, re: int, t: int)
    requires WellFormed(xs) && rs < re && rs <= t <= re && !Covered(xs, t)
    ensures exists g :: g in GapsAsIntended(xs, rs, re) && g.start <= t <= g.end
  {
    var gs := Gaps(xs, rs, re);
    ClipsGaps(xs, rs, re, gs);
    GapsComplete(xs, rs, re, t);
    var h :| h in gs && h.start <= t <= h.end;
    GapsBasic(xs, rs, re);
    if h.start == re {
      GapStartCovered(xs, rs, re, h);
    }
    ClipKeeps(gs, re, h);
  }

  /**
   * has_continuous_coverage over the corrected gaps. With a non-degenerate
   * window and well-formed windows, a true answer means every instant of the
   * window is covered.
   */
  function HasContinuousCoverageAsIntended(intervals: seq<Interval>, startTime: int, endTime: int): (r: bool)
    ensures r <==> GapsAsIntended(intervals, startTime, endTime) == []
    ensures r && WellFormed(intervals) && startTime < endTime ==>
      forall t :: startTime <= t <= endTime ==> Covered(intervals, t)
  {
    GapsAsIntendedProperties(intervals, startTime, endTime);
    |GapsAsIntended(intervals, startTime, endTime)| == 0
  }

  /** The corrected gaps on the demonstration windows: none over 0..600, and 600..700 over 0..900. */
  lemma DemoAsIntended()
    ensures GapsAsIntended(DemoWindows(), 0, 600) == []
    ensures GapsAsIntended(DemoWindows(), 0, 900) == [Interval(600, 700)]
    ensures HasContinuousCoverageAsIntended(DemoWindows(), 0, 600)
    ensures !HasContinuousCoverageAsIntended(DemoWindows(), 0, 900)
  {
    DemoGaps();
    DemoClip();
    var xs, g := DemoWindows(), [Interval(600, 700)];
    ClipsGaps(xs, 0, 600, g);
    ClipsGaps(xs, 0, 900, g);
  }

  /** The corrected gaps, given the gaps of the walk. */
  lemma ClipsGaps(xs: seq<Interval>, rs: int, re: int, gs: seq<Interval>)
    requires Gaps(xs, rs, re) == gs
    ensures GapsAsIntended(xs, rs, re) == ClipTo(gs, re)
  {
  }

  /** The demonstration's one gap, cut off at 600 and at 900. */
  lemma DemoClip()
    ensures ClipTo([Interval(600, 700)], 600) == []
    ensures ClipTo([Interval(600, 700)], 900) == [Interval(600, 700)]
  {
    var g := [Interval(600, 700)];
    assert g[1..] == [];
  }
}
