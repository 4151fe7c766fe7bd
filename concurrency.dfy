/**
 * max_concurrent_satellites (neet/note.py): a sweep line over +1/-1 events,
 * sorted by time with starts before ends at equal times.
 */
module Concurrency {
  import opened Sorting
  import opened Coverage

  /** A sweep event: `delta` is +1 when a window opens, -1 when it closes. */
  datatype Event = Event(time: int, delta: int)

  /** The sort key (time, -delta): earlier first; at equal times starts (+1) before ends (-1). */
  function EventLe(a: Event, b: Event): bool {
    a.time < b.time || (a.time == b.time && -a.delta <= -b.delta)
  }

  lemma EventLePreorder()
    ensures TotalPreorder(EventLe)
  {
  }

  /** The event list the source builds: a start and an end event per window, in input order. */
  function Events(xs: seq<Interval>): (es: seq<Event>)
    ensures |es| == 2 * |xs|
  {
    if xs == [] then []
    else
      var x := xs[|xs| - 1];
      Events(xs[..|xs| - 1]) + [Event(x.start, 1), Event(x.end, -1)]
  }

  /** The sum of `f` over a list of events. */
  function Tally(es: seq<Event>, f: Event -> int): int {
    if es == [] then 0 else f(es[0]) + Tally(es[1..], f)
  }

  function Delta(e: Event): int { e.delta }

  function Opens(e: Event): int { if e.delta == 1 then 1 else 0 }

  /** The events already swept when the sweep reaches instant `t`: earlier ones, and starts at `t`. */
  predicate SweptBy(e: Event, t: int) {
    e.time < t || (e.time == t && e.delta == 1)
  }

  function DeltaAt(t: int): Event -> int {
    e => if SweptBy(e, t) then e.delta else 0
  }

  /** The largest running count over the prefixes of `es`, and 0. */
  function Peak(es: seq<Event>): int {
    if es == [] then 0 else Max(Peak(es[..|es| - 1]), Tally(es, Delta))
  }

  /** What max_concurrent_satellites returns. */
  function MaxConcurrent(xs: seq<Interval>): int {
    if xs == [] then 0 else Peak(SortBy(Events(xs), EventLe))
  }

  /** The number of windows of `xs` that contain `t`: the reference meaning of "concurrent". */
  function Active(xs: seq<Interval>, t: int): nat {
    if xs == [] then 0
    else Active(xs[..|xs| - 1], t) + (if Contains(xs[|xs| - 1], t) then 1 else 0)
  }

  predicate UnitDeltas(es: seq<Event>) {
    forall i :: 0 <= i < |es| ==> es[i].delta == 1 || es[i].delta == -1
  }

  // ---------------------------------------------------------------------------
  // Tally algebra
  // ---------------------------------------------------------------------------

  lemma {:induction false} TallyConcat(a: seq<Event>, b: seq<Event>, f: Event -> int)
    ensures Tally(a + b, f) == Tally(a, f) + Tally(b, f)
  {
    if a != [] {
      assert (a + b)[0] == a[0];
      assert (a + b)[1..] == a[1..] + b;
      TallyConcat(a[1..], b, f);
    } else {
      assert a + b == b;
    }
  }

  lemma {:induction false} TallyInsert(x: Event, s: seq<Event>, f: Event -> int)
    ensures Tally(Insert(x, s, EventLe), f) == f(x) + Tally(s, f)
  {
    if s != [] && !EventLe(x, s[0]) {
      TallyInsert(x, s[1..], f);
    }
  }

  /** Sorting does not change a tally. */
  lemma {:induction false} TallySort(s: seq<Event>, f: Event -> int)
    ensures Tally(SortBy(s, EventLe), f) == Tally(s, f)
  {
    if s != [] {
      TallySort(s[1..], f);
      TallyInsert(s[0], SortBy(s[1..], EventLe), f);
    }
  }

  lemma TallyPair(e1: Event, e2: Event, f: Event -> int)
    ensures Tally([e1, e2], f) == f(e1) + f(e2)
  {
    assert [e1, e2][1..] == [e2];
    assert [e2][1..] == [];
    assert Tally([e2], f) == f(e2) + Tally([], f);
  }

  lemma TallyAppend(es: seq<Event>, e: Event, f: Event -> int)
    ensures Tally(es + [e], f) == Tally(es, f) + f(e)
  {
    TallyConcat(es, [e], f);
  }

  // ---------------------------------------------------------------------------
  // The events of the input
  // ---------------------------------------------------------------------------

  lemma {:induction false} EventsUnit(xs: seq<Interval>)
    ensures UnitDeltas(Events(xs))
  {
    if xs != [] {
      EventsUnit(xs[..|xs| - 1]);
    }
  }

  lemma SortedUnit(es: seq<Event>)
    requires UnitDeltas(es)
    ensures UnitDeltas(SortBy(es, EventLe))
  {
    var s := SortBy(es, EventLe);
    forall i | 0 <= i < |s| ensures s[i].delta == 1 || s[i].delta == -1 {
      assert s[i] in multiset(es);
      var j :| 0 <= j < |es| && es[j] == s[i];
    }
  }

  /** There is one opening event per window. */
  lemma {:induction false} EventsOpens(xs: seq<Interval>)
    ensures Tally(Events(xs), Opens) == |xs|
  {
    if xs != [] {
      var x := xs[|xs| - 1];
      EventsOpens(xs[..|xs| - 1]);
      TallyConcat(Events(xs[..|xs| - 1]), [Event(x.start, 1), Event(x.end, -1)], Opens);
      TallyPair(Event(x.start, 1), Event(x.end, -1), Opens);
    }
  }

  /** The events swept by instant `t` add up to the number of windows containing `t`. */
  lemma {:induction false} EventsSweptAt(xs: seq<Interval>, t: int)
    requires WellFormed(xs)
    ensures Tally(Events(xs), DeltaAt(t)) == Active(xs, t)
  {
    if xs != [] {
      var p := xs[..|xs| - 1];
      var x := xs[|xs| - 1];
      assert WellFormed(p);
      EventsSweptAt(p, t);
      TallyConcat(Events(p), [Event(x.start, 1), Event(x.end, -1)], DeltaAt(t));
      TallyPair(Event(x.start, 1), Event(x.end, -1), DeltaAt(t));
    }
  }

  lemma {:induction false} ActiveContains(xs: seq<Interval>, i: int, t: int)
    requires 0 <= i < |xs| && Contains(xs[i], t)
    ensures Active(xs, t) >= 1
  {
    if i < |xs| - 1 {
      ActiveContains(xs[..|xs| - 1], i, t);
    }
  }

  // ---------------------------------------------------------------------------
  // Prefix sums of a sorted event list
  // ---------------------------------------------------------------------------

  lemma {:induction false} TallyAllSwept(es: seq<Event>, t: int)
    requires forall i :: 0 <= i < |es| ==> SweptBy(es[i], t)
    ensures Tally(es, DeltaAt(t)) == Tally(es, Delta)
  {
    if es != [] {
      TallyAllSwept(es[1..], t);
    }
  }

  lemma {:induction false} TallyNoneSwept(es: seq<Event>, t: int)
    requires forall i :: 0 <= i < |es| ==> !SweptBy(es[i], t)
    ensures Tally(es, DeltaAt(t)) == 0
  {
    if es != [] {
      TallyNoneSwept(es[1..], t);
    }
  }

  /** In a sorted event list the events swept by `t` form a prefix. */
  lemma SweptPrefix(es: seq<Event>, t: int, i: int, j: int)
    requires SortedBy(es, EventLe) && UnitDeltas(es) && 0 <= i < j < |es|
    requires SweptBy(es[j], t)
    ensures SweptBy(es[i], t)
  {
    assert EventLe(es[i], es[j]);
  }

  /** The count the sweep has reached at instant `t` is one of its running counts. */
  lemma {:induction false} SweptIsPrefixSum(es: seq<Event>, t: int) returns (k: nat)
    requires SortedBy(es, EventLe) && UnitDeltas(es)
    ensures k <= |es| && Tally(es, DeltaAt(t)) == Tally(es[..k], Delta)
  {
    if es == [] {
      k := 0;
    } else if SweptBy(es[0], t) {
      var rest := es[1..];
      assert SortedBy(rest, EventLe) by {
        forall i, j | 0 <= i < j < |rest| ensures EventLe(rest[i], rest[j]) {
          assert rest[i] == es[i + 1] && rest[j] == es[j + 1];
        }
      }
      assert UnitDeltas(rest) by {
        forall i | 0 <= i < |rest| ensures rest[i].delta == 1 || rest[i].delta == -1 {
          assert rest[i] == es[i + 1];
        }
      }
      var k' := SweptIsPrefixSum(rest, t);
      k := k' + 1;
      assert es[..k][1..] == rest[..k'];
    } else {
      forall j | 0 <= j < |es| ensures !SweptBy(es[j], t) {
        if j > 0 && SweptBy(es[j], t) {
          SweptPrefix(es, t, 0, j);
        }
      }
      TallyNoneSwept(es, t);
      k := 0;
    }
  }

  /** Every running count is at most the peak, and the peak is at least 0. */
  lemma {:induction false} PeakAbove(es: seq<Event>, k: nat)
    requires k <= |es|
    ensures 0 <= Peak(es) && Tally(es[..k], Delta) <= Peak(es)
  {
    if es != [] {
      var p := es[..|es| - 1];
      if k < |es| {
        assert es[..k] == p[..k];
        PeakAbove(p, k);
      } else {
        assert es[..k] == es;
        PeakAbove(p, 0);
      }
    }
  }

  /** The first prefix whose running count is the peak. */
  lemma {:induction false} FirstPeak(es: seq<Event>) returns (k: nat)
    ensures k <= |es| && Tally(es[..k], Delta) == Peak(es)
    ensures forall j :: 0 <= j < k ==> Tally(es[..j], Delta) < Peak(es)
  {
    if es == [] {
      k := 0;
    } else {
      var p := es[..|es| - 1];
      var k' := FirstPeak(p);
      if Tally(es, Delta) > Peak(p) {
        k := |es|;
        assert es[..k] == es;
        forall j | 0 <= j < k ensures Tally(es[..j], Delta) < Peak(es) {
          assert es[..j] == p[..j];
          PeakAbove(p, j);
        }
      } else {
        k := k';
        assert es[..k] == p[..k];
        forall j | 0 <= j < k ensures Tally(es[..j], Delta) < Peak(es) {
          assert es[..j] == p[..j];
        }
      }
    }
  }

  /** A positive peak is the count at the instant of the start event that reaches it. */
  lemma PeakIsSweptCount(es: seq<Event>) returns (t: int)
    requires SortedBy(es, EventLe) && UnitDeltas(es) && Peak(es) > 0
    ensures Tally(es, DeltaAt(t)) == Peak(es)
  {
    var k := FirstPeak(es);
    assert k > 0;
    var last := es[k - 1];
    assert es[..k] == es[..k - 1] + [last];
    TallyAppend(es[..k - 1], last, Delta);
    assert last.delta == 1;
    t := last.time;
    if k < |es| {
      assert es[..k + 1] == es[..k] + [es[k]];
      TallyAppend(es[..k], es[k], Delta);
      PeakAbove(es, k + 1);
      assert es[k].delta == -1;
    }
    forall i | 0 <= i < k ensures SweptBy(es[..k][i], t) {
      if i < k - 1 {
        assert EventLe(es[i], es[k - 1]);
      }
    }
    forall i | 0 <= i < |es[k..]| ensures !SweptBy(es[k..][i], t) {
      assert es[k..][i] == es[k + i];
      assert EventLe(es[k - 1], es[k + i]);
      if i > 0 {
        assert EventLe(es[k], es[k + i]);
      }
    }
    assert es == es[..k] + es[k..];
    TallyConcat(es[..k], es[k..], DeltaAt(t));
    TallyAllSwept(es[..k], t);
    TallyNoneSwept(es[k..], t);
  }

  /** A running count never exceeds the number of opening events swept so far. */
  lemma {:induction false} RunningAtMostOpens(es: seq<Event>)
    requires UnitDeltas(es)
    ensures Tally(es, Delta) <= Tally(es, Opens)
  {
    if es != [] {
      RunningAtMostOpens(es[1..]);
    }
  }

  lemma {:induction false} OpensNonNegative(es: seq<Event>)
    ensures 0 <= Tally(es, Opens)
  {
    if es != [] {
      OpensNonNegative(es[1..]);
    }
  }

  lemma {:induction false} PeakAtMostOpens(es: seq<Event>)
    requires UnitDeltas(es)
    ensures Peak(es) <= Tally(es, Opens)
  {
    OpensNonNegative(es);
    if es != [] {
      var p := es[..|es| - 1];
      PeakAtMostOpens(p);
      assert es == p + [es[|es| - 1]];
      TallyAppend(p, es[|es| - 1], Opens);
      RunningAtMostOpens(es);
    }
  }

  // ---------------------------------------------------------------------------
  // The sweep's result against the reference count
  // ---------------------------------------------------------------------------

  /** No instant has more active windows than the sweep reports. */
  lemma MaxConcurrentIsUpperBound(xs: seq<Interval>, t: int)
    requires WellFormed(xs)
    ensures Active(xs, t) <= MaxConcurrent(xs)
  {
    if xs != [] {
      var es := Events(xs);
      var s := SortBy(es, EventLe);
      EventLePreorder();
      SortBySorted(es, EventLe);
      EventsUnit(xs);
      SortedUnit(es);
      EventsSweptAt(xs, t);
      TallySort(es, DeltaAt(t));
      var k := SweptIsPrefixSum(s, t);
      PeakAbove(s, k);
    }
  }

  /** For non-empty well-formed input, some instant has exactly the reported number of active windows. */
  lemma MaxConcurrentAttained(xs: seq<Interval>) returns (t: int)
    requires WellFormed(xs) && xs != []
    ensures Active(xs, t) == MaxConcurrent(xs) >= 1
  {
    var es := Events(xs);
    var s := SortBy(es, EventLe);
    EventLePreorder();
    SortBySorted(es, EventLe);
    EventsUnit(xs);
    SortedUnit(es);
    ActiveContains(xs, 0, xs[0].start);
    MaxConcurrentIsUpperBound(xs, xs[0].start);
    t := PeakIsSweptCount(s);
    TallySort(es, DeltaAt(t));
    EventsSweptAt(xs, t);
  }

  /** The reported count is between 0 and the number of windows, 0 exactly for no windows. */
  lemma MaxConcurrentBounds(xs: seq<Interval>)
    ensures xs == [] ==> MaxConcurrent(xs) == 0
    ensures 0 <= MaxConcurrent(xs) <= |xs|
  {
    if xs != [] {
      var es := Events(xs);
      var s := SortBy(es, EventLe);
      EventsUnit(xs);
      SortedUnit(es);
      PeakAbove(s, 0);
      PeakAtMostOpens(s);
      TallySort(es, Opens);
      EventsOpens(xs);
    }
  }

  /**
   * For well-formed windows the result of max_concurrent_satellites is the
   * peak of `Active`: no instant has more windows open, and some instant has
   * exactly that many.
   */
  lemma MaxConcurrentIsPeak(xs: seq<Interval>)
    requires WellFormed(xs)
    ensures forall t :: Active(xs, t) <= MaxConcurrent(xs)
    ensures xs != [] ==> exists t :: Active(xs, t) == MaxConcurrent(xs)
  {
    forall t ensures Active(xs, t) <= MaxConcurrent(xs) {
      MaxConcurrentIsUpperBound(xs, t);
    }
    if xs != [] {
      var t := MaxConcurrentAttained(xs);
    }
  }

  /**
   * max_concurrent_satellites (neet/note.py): the sweep over the sorted
   * events, whose meaning `MaxConcurrentIsPeak` states.
   */
  method MaxConcurrentSatellites(intervals: seq<Interval>) returns (maxConcurrent: int)
    ensures maxConcurrent == MaxConcurrent(intervals)
    ensures intervals == [] ==> maxConcurrent == 0
    ensures 0 <= maxConcurrent <= |intervals|
  {
    if intervals == [] {
      maxConcurrent := 0;
    } else {
      var events := CollectEvents(intervals);
      maxConcurrent := Sweep(SortBy(events, EventLe));
    }
    MaxConcurrentBounds(intervals);
  }

  /** The `for start, end in intervals` loop: a `+1` event at each start and a `-1` event at each end. */
  method CollectEvents(intervals: seq<Interval>) returns (events: seq<Event>)
    ensures events == Events(intervals)
  {
    events := [];
    for k := 0 to |intervals|
      invariant events == Events(intervals[..k])
    {
      assert intervals[..k + 1][..k] == intervals[..k];
      events := events + [Event(intervals[k].start, 1)];
      events := events + [Event(intervals[k].end, -1)];
    }
    assert intervals[..|intervals|] == intervals;
  }

  /** The sweep over the sorted events: the running count and the largest value it reaches. */
  method Sweep(sorted: seq<Event>) returns (maxConcurrent: int)
    ensures maxConcurrent == Peak(sorted)
  {
    maxConcurrent := 0;
    var count := 0;
    for k := 0 to |sorted|
      invariant count == Tally(sorted[..k], Delta)
      invariant maxConcurrent == Peak(sorted[..k])
    {
      assert sorted[..k + 1][..k] == sorted[..k];
      TallyAppend(sorted[..k], sorted[k], Delta);
      assert sorted[..k + 1] == sorted[..k] + [sorted[k]];
      count := count + sorted[k].delta;
      maxConcurrent := Max(maxConcurrent, count);
    }
    assert sorted[..|sorted|] == sorted;
  }

  /** Two windows that touch at one instant count as concurrent: [(0,5),(5,10)] gives 2. */
  lemma TouchingWindowsOverlap()
    ensures MaxConcurrent([Interval(0, 5), Interval(5, 10)]) == 2
  {
    var xs := [Interval(0, 5), Interval(5, 10)];
    assert xs[..1] == [Interval(0, 5)] && xs[..1][..0] == [];
    assert Active(xs, 5) == 2;
    MaxConcurrentIsUpperBound(xs, 5);
    MaxConcurrentBounds(xs);
  }

  /** Windows that neither overlap nor touch. */
  predicate PairwiseApart(xs: seq<Interval>) {
    forall i, j :: 0 <= i < j < |xs| ==> xs[i].end < xs[j].start || xs[j].end < xs[i].start
  }

  lemma {:induction false} ActiveNone(xs: seq<Interval>, t: int)
    requires forall i :: 0 <= i < |xs| ==> !Contains(xs[i], t)
    ensures Active(xs, t) == 0
  {
    if xs != [] {
      ActiveNone(xs[..|xs| - 1], t);
    }
  }

  lemma {:induction false} ActiveAtMostOne(xs: seq<Interval>, t: int)
    requires PairwiseApart(xs)
    ensures Active(xs, t) <= 1
  {
    if xs != [] {
      var p := xs[..|xs| - 1];
      assert PairwiseApart(p);
      ActiveAtMostOne(p, t);
      if Contains(xs[|xs| - 1], t) {
        ActiveNone(p, t);
      }
    }
  }

  /** Non-empty, pairwise apart, well-formed windows: never more than one at a time. */
  lemma ApartWindowsPeakOne(xs: seq<Interval>)
    requires WellFormed(xs) && PairwiseApart(xs) && xs != []
    ensures MaxConcurrent(xs) == 1
  {
    var t := MaxConcurrentAttained(xs);
    ActiveAtMostOne(xs, t);
  }
}
