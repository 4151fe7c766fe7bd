/**
 * `optimal_handoff_schedule` (neet/note.py): a timed plan of satellite links
 * and coverage gaps, built greedily from time 0 over windows sorted as
 * `(start, end, id)` tuples.
 */
module TimedHandoff {
  import opened Options
  import opened Sorting
  import opened Handoff

  // ---------------------------------------------------------------------------
  // Events and outcomes
  // ---------------------------------------------------------------------------

  /**
   * A link `{'satellite', 'connect_time', 'disconnect_time', 'duration'}` or a
   * gap `{'type': 'GAP', 'start', 'end', 'duration'}`.
   */
  datatype Event =
    | Link(satellite: string, connect: int, disconnect: int, duration: int)
    | Gap(start: int, end: int, duration: int)

  /** The returned list, or `Diverges` where the source loops forever. */
  datatype Outcome = Schedule(events: seq<Event>) | Diverges

  function Begin(e: Event): int {
    match e
    case Link(_, c, _, _) => c
    case Gap(s, _, _) => s
  }

  function Finish(e: Event): int {
    match e
    case Link(_, _, d, _) => d
    case Gap(_, t, _) => t
  }

  /** Where the `k`-th of the events `es` placed from `from` should begin: `from`, or where the one before ends. */
  function Previous(es: seq<Event>, from: int, k: nat): int
    requires k <= |es|
  {
    if k == 0 then from else Finish(es[k - 1])
  }

  /** Events placed back to back from `from`, each recording its own duration. */
  ghost predicate Chained(es: seq<Event>, from: int) {
    forall k :: 0 <= k < |es| ==>
      es[k].duration == Finish(es[k]) - Begin(es[k]) && Begin(es[k]) == Previous(es, from, k)
  }

  /** A link is to a satellite whose window has started by the connect time and ends at the disconnect time. */
  ghost predicate Backed(ws: seq<Window>, e: Event) {
    e.Link? ==>
      && e.disconnect > e.connect
      && exists w :: w in ws && w.id == e.satellite && w.start <= e.connect && w.end == e.disconnect
  }

  /** Prefixes `es` to an outcome; `Diverges` stays `Diverges`. */
  function Emit(es: seq<Event>, o: Outcome): Outcome {
    match o
    case Diverges => Diverges
    case Schedule(rest) => Schedule(es + rest)
  }

  lemma EmitEmpty(o: Outcome)
    ensures Emit([], o) == o
  {
    if o.Schedule? {
      assert [] + o.events == o.events;
    }
  }

  lemma EmitEmit(a: seq<Event>, b: seq<Event>, o: Outcome)
    ensures Emit(a, Emit(b, o)) == Emit(a + b, o)
  {
    if o.Schedule? {
      assert a + (b + o.events) == (a + b) + o.events;
    }
  }

  /** An event beginning at `from`, followed by events chained from its end, is chained from `from`. */
  lemma ChainedCons(e: Event, rest: seq<Event>, from: int)
    requires e.duration == Finish(e) - Begin(e) && Begin(e) == from && Chained(rest, Finish(e))
    ensures Chained([e] + rest, from)
  {
    var es := [e] + rest;
    forall k | 0 < k < |es|
      ensures es[k].duration == Finish(es[k]) - Begin(es[k]) && Begin(es[k]) == Previous(es, from, k)
    {
      var j := k - 1;
      assert es[k] == rest[j];
      assert Previous(es, from, k) == Previous(rest, Finish(e), j);
    }
  }

  // ---------------------------------------------------------------------------
  // Python's tuple order on (start, end, id)
  // ---------------------------------------------------------------------------

  predicate WindowLe(a: Window, b: Window) {
    a.start < b.start || (a.start == b.start && (a.end < b.end || (a.end == b.end && StrLe(a.id, b.id))))
  }

  lemma WindowLePreorder()
    ensures TotalPreorder(WindowLe)
  {
    forall a: Window, b: Window ensures WindowLe(a, b) || WindowLe(b, a) {
      StrLeTotal(a.id, b.id);
    }
    forall a: Window, b: Window, c: Window | WindowLe(a, b) && WindowLe(b, c) ensures WindowLe(a, c) {
      if a.start == b.start == c.start && a.end == b.end == c.end {
        StrLeTrans(a.id, b.id, c.id);
      }
    }
  }

  /** `intervals.sort()` on the `(start, end, id)` tuples. */
  function ByTuple(satellites: seq<Window>): (r: seq<Window>)
    ensures multiset(r) == multiset(satellites)
    ensures SortedBy(r, WindowLe)
    ensures SortedBy(r, StartLe)
  {
    WindowLePreorder();
    SortBySorted(satellites, WindowLe);
    var r := SortBy(satellites, WindowLe);
    assert SortedBy(r, StartLe) by {
      forall i, j | 0 <= i < j < |r| ensures StartLe(r[i], r[j]) {
        assert WindowLe(r[i], r[j]);
      }
    }
    r
  }

  // ---------------------------------------------------------------------------
  // The inner loop: the best satellite available at the current time
  // ---------------------------------------------------------------------------

  /**
   * From index `j`, scans the windows that have started by `ct`, keeping the
   * first one seen with the largest end beyond `bestEnd`. Returns the index
   * where the scan stopped, the best end and the best satellite.
   */
  function Scan(xs: seq<Window>, j: nat, ct: int, bestEnd: int, bestSat: Option<string>): (r: (nat, int, Option<string>))
    requires j <= |xs|
    ensures j <= r.0 <= |xs|
    ensures r.0 == |xs| || xs[r.0].start > ct
    ensures r.0 == j ==> r.1 == bestEnd && r.2 == bestSat
    decreases |xs| - j
  {
    if j < |xs| && xs[j].start <= ct then
      if xs[j].end > bestEnd then Scan(xs, j + 1, ct, xs[j].end, Some(xs[j].id))
      else Scan(xs, j + 1, ct, bestEnd, bestSat)
    else
      (j, bestEnd, bestSat)
  }

  /**
   * The scan keeps the largest end among the windows it passes over, and
   * changes its choice only to the first window reaching that end.
   */
  lemma {:induction false} ScanSpec(xs: seq<Window>, j: nat, ct: int, be: int, bs: Option<string>)
    requires j <= |xs|
    ensures var r := Scan(xs, j, ct, be, bs);
      && r.1 >= be
      && (forall k :: j <= k < r.0 ==> xs[k].start <= ct && xs[k].end <= r.1)
      && ((r.1 == be && r.2 == bs)
          || exists k :: j <= k < r.0 && xs[k].end == r.1 > be && r.2 == Some(xs[k].id)
               && forall m :: j <= m < k ==> xs[m].end < r.1)
    decreases |xs| - j
  {
    if j < |xs| && xs[j].start <= ct {
      if xs[j].end > be {
        ScanSpec(xs, j + 1, ct, xs[j].end, Some(xs[j].id));
      } else {
        ScanSpec(xs, j + 1, ct, be, bs);
      }
    }
  }

  /** Scanning from time `ct` with no satellite yet: nothing is found exactly when every scanned window ends by `ct`. */
  lemma ScanFrom(xs: seq<Window>, i: nat, ct: int)
    requires i <= |xs|
    ensures var r := Scan(xs, i, ct, ct, None);
      && (forall k :: i <= k < r.0 ==> xs[k].start <= ct)
      && (r.2.None? <==> forall k :: i <= k < r.0 ==> xs[k].end <= ct)
      && (r.2.None? ==> r.1 == ct)
      && (r.2.Some? ==>
            && r.0 > i && r.1 > ct
            && (forall k :: i <= k < r.0 ==> xs[k].end <= r.1)
            && exists k :: i <= k < r.0 && xs[k].end == r.1 && r.2 == Some(xs[k].id)
                 && forall m :: i <= m < k ==> xs[m].end < r.1)
  {
    ScanSpec(xs, i, ct, ct, None);
  }

  /** The inner `while j < len(intervals) and intervals[j][0] <= current_time` loop. */
  method ScanAvailable(xs: seq<Window>, i: nat, ct: int) returns (j: nat, bestEnd: int, bestSat: Option<string>)
    requires i <= |xs|
    ensures j == Scan(xs, i, ct, ct, None).0
    ensures bestEnd == Scan(xs, i, ct, ct, None).1
    ensures bestSat == Scan(xs, i, ct, ct, None).2
  {
    j, bestEnd, bestSat := i, ct, None;
    while j < |xs| && xs[j].start <= ct
      invariant i <= j <= |xs|
      invariant Scan(xs, j, ct, bestEnd, bestSat) == Scan(xs, i, ct, ct, None)
      decreases |xs| - j
    {
      if xs[j].end > bestEnd {
        bestEnd := xs[j].end;
        bestSat := Some(xs[j].id);
      }
      j := j + 1;
    }
  }

  // ---------------------------------------------------------------------------
  // The outer loop, as written
  // ---------------------------------------------------------------------------

  /**
   * The rest of the schedule from window `i` at time `ct`. When nothing
   * available extends past `ct`, a gap is emitted up to the start of window `i`
   * and the same windows are scanned again from there; if that start already
   * is `ct`, the state repeats and the source never returns.
   */
  function Plan(xs: seq<Window>, i: nat, ct: int): Outcome
    requires i <= |xs|
    decreases |xs| - i, if i < |xs| && ct != xs[i].start then 1 else 0
  {
    if i == |xs| then Schedule([])
    else
      var r := Scan(xs, i, ct, ct, None);
      match r.2
      case None =>
        if xs[i].start == ct then Diverges
        else Emit([Gap(ct, xs[i].start, xs[i].start - ct)], Plan(xs, i, xs[i].start))
      case Some(sat) =>
        Emit([Link(sat, ct, r.1, r.1 - ct)], Plan(xs, r.0, r.1))
  }

  /** What `optimal_handoff_schedule` returns, given the satellites as windows. */
  function OptimalHandoff(satellites: seq<Window>): Outcome {
    if satellites == [] then Schedule([]) else Plan(ByTuple(satellites), 0, 0)
  }

  /** When nothing available extends past `ct`, the plan is a gap up to the start of window `i`, then the rest. */
  lemma AfterGap(xs: seq<Window>, i: nat, ct: int, done: seq<Event>)
    requires i < |xs| && Scan(xs, i, ct, ct, None).2.None? && xs[i].start != ct
    ensures Emit(done, Plan(xs, i, ct))
         == Emit(done + [Gap(ct, xs[i].start, xs[i].start - ct)], Plan(xs, i, xs[i].start))
  {
    EmitEmit(done, [Gap(ct, xs[i].start, xs[i].start - ct)], Plan(xs, i, xs[i].start));
  }

  /** Otherwise the plan is a link to the chosen satellite up to its end, then the rest from where the scan stopped. */
  lemma AfterLink(xs: seq<Window>, i: nat, ct: int, done: seq<Event>)
    requires i < |xs| && Scan(xs, i, ct, ct, None).2.Some?
    ensures var r := Scan(xs, i, ct, ct, None);
      Emit(done, Plan(xs, i, ct)) == Emit(done + [Link(r.2.value, ct, r.1, r.1 - ct)], Plan(xs, r.0, r.1))
  {
    var r := Scan(xs, i, ct, ct, None);
    EmitEmit(done, [Link(r.2.value, ct, r.1, r.1 - ct)], Plan(xs, r.0, r.1));
  }

  /** `optimal_handoff_schedule`. */
  method OptimalHandoffSchedule(satellites: seq<Window>) returns (outcome: Outcome)
    ensures outcome == OptimalHandoff(satellites)
  {
    if satellites == [] {
      return Schedule([]);
    }
    outcome := HandoffLoop(ByTuple(satellites));
  }

  /** The outer `while i < len(intervals)` loop over the sorted windows. */
  method HandoffLoop(xs: seq<Window>) returns (outcome: Outcome)
    ensures outcome == Plan(xs, 0, 0)
  {
    var schedule: seq<Event> := [];
    var currentTime := 0;
    var i := 0;
    ghost var target := Plan(xs, 0, 0);
    EmitEmpty(target);
    while i < |xs|
      invariant i <= |xs|
      invariant target == Emit(schedule, Plan(xs, i, currentTime))
      decreases |xs| - i, if i < |xs| && currentTime != xs[i].start then 1 else 0
    {
      var stuck;
      stuck, i, currentTime, schedule := HandoffStep(xs, i, currentTime, schedule);
      if stuck {
        return Diverges;
      }
    }
    assert schedule + [] == schedule;
    outcome := Schedule(schedule);
  }

  /**
   * One pass of the outer loop: a link to the best satellite available, or a
   * gap up to the start of window `i`. `stuck` is set where that gap would
   * leave the time unchanged, so that the source loops forever.
   */
  method HandoffStep(xs: seq<Window>, i: nat, ct: int, done: seq<Event>)
    returns (stuck: bool, i': nat, ct': int, done': seq<Event>)
    requires i < |xs|
    ensures i' <= |xs|
    ensures !stuck ==> i < i' || (i' == i && ct != xs[i].start && ct' == xs[i].start)
    ensures stuck ==> Emit(done, Plan(xs, i, ct)) == Diverges
    ensures !stuck ==> Emit(done, Plan(xs, i, ct)) == Emit(done', Plan(xs, i', ct'))
  {
    var j, bestEnd, bestSat := ScanAvailable(xs, i, ct);
    if bestSat.None? {
      if xs[i].start == ct {
        // The source appends a zero-length gap and comes back to this very state.
        return true, i, ct, done;
      }
      AfterGap(xs, i, ct, done);
      return false, i, xs[i].start, done + [Gap(ct, xs[i].start, xs[i].start - ct)];
    }
    AfterLink(xs, i, ct, done);
    return false, j, bestEnd, done + [Link(bestSat.value, ct, bestEnd, bestEnd - ct)];
  }

  // ---------------------------------------------------------------------------
  // What the loop as written guarantees
  // ---------------------------------------------------------------------------

  /** A returned schedule runs back to back from `ct`, and every link is to a window that covers it. */
  lemma {:induction false} PlanShape(xs: seq<Window>, i: nat, ct: int)
    requires i <= |xs| && Plan(xs, i, ct).Schedule?
    ensures Chained(Plan(xs, i, ct).events, ct)
    ensures forall e :: e in Plan(xs, i, ct).events ==> Backed(xs, e)
    decreases |xs| - i, if i < |xs| && ct != xs[i].start then 1 else 0
  {
    if i < |xs| {
      var r := Scan(xs, i, ct, ct, None);
      ScanFrom(xs, i, ct);
      var e, next, j;
      if r.2.None? {
        e, next, j := Gap(ct, xs[i].start, xs[i].start - ct), xs[i].start, i;
      } else {
        e, next, j := Link(r.2.value, ct, r.1, r.1 - ct), r.1, r.0;
        var k :| i <= k < r.0 && xs[k].end == r.1 && r.2 == Some(xs[k].id);
        assert xs[k] in xs;
      }
      assert Plan(xs, i, ct) == Emit([e], Plan(xs, j, next));
      PlanShape(xs, j, next);
      ChainedCons(e, Plan(xs, j, next).events, ct);
    }
  }

  /** The source loops forever only at a window that does not end after it starts. */
  lemma {:induction false} PlanDiverges(xs: seq<Window>, i: nat, ct: int)
    requires i <= |xs| && Plan(xs, i, ct).Diverges?
    ensures exists k :: i <= k < |xs| && xs[k].end <= xs[k].start
    decreases |xs| - i, if i < |xs| && ct != xs[i].start then 1 else 0
  {
    var r := Scan(xs, i, ct, ct, None);
    ScanFrom(xs, i, ct);
    if r.2.None? {
      if xs[i].start == ct {
        assert i < r.0;
        assert xs[i].end <= xs[i].start;
      } else {
        PlanDiverges(xs, i, xs[i].start);
      }
    } else {
      PlanDiverges(xs, r.0, r.1);
    }
  }

  /**
   * `optimal_handoff_schedule` returns a back-to-back schedule from time 0 in
   * which every link is covered by a window, unless some window is empty, and
   * only then may it loop forever.
   */
  lemma OptimalHandoffProperties(satellites: seq<Window>)
    ensures OptimalHandoff(satellites).Schedule? ==>
      && Chained(OptimalHandoff(satellites).events, 0)
      && forall e :: e in OptimalHandoff(satellites).events ==> Backed(satellites, e)
    ensures OptimalHandoff(satellites).Diverges? ==>
      exists w :: w in satellites && w.end <= w.start
  {
    if satellites != [] {
      var xs := ByTuple(satellites);
      assert forall w :: w in xs <==> w in satellites by {
        forall w ensures w in xs <==> w in satellites {
          assert w in xs <==> w in multiset(xs);
          assert w in satellites <==> w in multiset(satellites);
        }
      }
      if Plan(xs, 0, 0).Schedule? {
        PlanShape(xs, 0, 0);
        forall e | e in Plan(xs, 0, 0).events ensures Backed(satellites, e) {
          assert Backed(xs, e);
        }
      } else {
        PlanDiverges(xs, 0, 0);
        var k :| 0 <= k < |xs| && xs[k].end <= xs[k].start;
        assert xs[k] in satellites;
      }
    }
  }

  // ---------------------------------------------------------------------------
  // Inputs that show the defects of the loop as written
  // ---------------------------------------------------------------------------

  /** `[(0, 10, A), (2, 5, B), (20, 30, C)]`: B starts inside A and ends before it. */
  predicate IsNested(xs: seq<Window>) {
    |xs| == 3 && xs[0] == Window(0, 10, "A") && xs[1] == Window(2, 5, "B") && xs[2] == Window(20, 30, "C")
  }

  /**
   * After the link to A ends at 10, B is scanned but ends earlier; the source
   * then emits a gap from 10 back to 2 of duration -8 and links B for 2..5,
   * time that A already covered.
   */
  lemma BackwardGap(xs: seq<Window>)
    requires IsNested(xs)
    ensures Plan(xs, 0, 0) == Schedule([
      Link("A", 0, 10, 10), Gap(10, 2, -8), Link("B", 2, 5, 3), Gap(5, 20, 15), Link("C", 20, 30, 10)])
  {
    var es := [Link("A", 0, 10, 10), Gap(10, 2, -8), Link("B", 2, 5, 3), Gap(5, 20, 15), Link("C", 20, 30, 10)];
    assert Scan(xs, 3, 20, 30, Some("C")).0 == 3;
    assert Plan(xs, 3, 30) == Schedule([]);
    assert Scan(xs, 2, 20, 20, None).2 == Some("C") && Scan(xs, 2, 20, 20, None).1 == 30;
    assert Plan(xs, 2, 20) == Schedule(es[4..]);
    assert Scan(xs, 2, 5, 5, None).2 == None;
    assert es[3..] == [es[3]] + es[4..];
    assert Plan(xs, 2, 5) == Schedule(es[3..]);
    assert Scan(xs, 1, 2, 2, None).0 == 2 && Scan(xs, 1, 2, 2, None).2 == Some("B") && Scan(xs, 1, 2, 2, None).1 == 5;
    assert es[2..] == [es[2]] + es[3..];
    assert Plan(xs, 1, 2) == Schedule(es[2..]);
    assert Scan(xs, 1, 10, 10, None).2 == None;
    assert es[1..] == [es[1]] + es[2..];
    assert Plan(xs, 1, 10) == Schedule(es[1..]);
    assert Scan(xs, 0, 0, 0, None).0 == 1 && Scan(xs, 0, 0, 0, None).2 == Some("A") && Scan(xs, 0, 0, 0, None).1 == 10;
    assert es == [es[0]] + es[1..];
  }

  /**
   * A single window `(5, 5, A)`: a gap from 0 to 5, then nothing available at
   * 5 and a zero-length gap from 5 to 5, again and again.
   */
  lemma EmptyWindowDiverges(xs: seq<Window>)
    requires xs == [Window(5, 5, "A")]
    ensures Plan(xs, 0, 0) == Diverges
  {
    assert Scan(xs, 0, 5, 5, None).2 == None;
    assert Plan(xs, 0, 5) == Diverges;
    assert Scan(xs, 0, 0, 0, None).2 == None;
  }

  // ---------------------------------------------------------------------------
  // The loop as evidently intended
  // ---------------------------------------------------------------------------

  /**
   * As `Plan`, but when nothing available extends past `ct` the windows just
   * scanned (all over by `ct`) are dropped, and the gap runs forward to the
   * next window that starts after `ct`, or the schedule ends.
   */
  function Fixed(xs: seq<Window>, i: nat, ct: int): seq<Event>
    requires i <= |xs|
    decreases |xs| - i, if i < |xs| && xs[i].start > ct then 1 else 0
  {
    if i == |xs| then []
    else
      var r := Scan(xs, i, ct, ct, None);
      match r.2
      case None =>
        if r.0 == |xs| then []
        else [Gap(ct, xs[r.0].start, xs[r.0].start - ct)] + Fixed(xs, r.0, xs[r.0].start)
      case Some(sat) =>
        [Link(sat, ct, r.1, r.1 - ct)] + Fixed(xs, r.0, r.1)
  }

  /** The corrected schedule for the satellites. */
  function FixedHandoff(satellites: seq<Window>): seq<Event> {
    if satellites == [] then [] else Fixed(ByTuple(satellites), 0, 0)
  }

  /** Every event of the corrected loop moves time forward. */
  ghost predicate Forward(es: seq<Event>) {
    forall e :: e in es ==> Begin(e) < Finish(e)
  }

  /** A gap is a real coverage gap: no window is visible at any instant in it. */
  ghost predicate Uncovered(ws: seq<Window>, e: Event) {
    e.Gap? ==> forall c :: e.start <= c < e.end ==> !Crossed(ws, c)
  }

  /** A link is to the window, among those started by the connect time, that ends last. */
  ghost predicate Greedy(ws: seq<Window>, e: Event) {
    e.Link? ==> Backed(ws, e) && forall w :: w in ws && w.start <= e.connect ==> w.end <= e.disconnect
  }

  /** One step of the corrected loop from a state in which every earlier window is over. */
  lemma FixedStep(xs: seq<Window>, i: nat, ct: int)
    requires i < |xs| && SortedBy(xs, StartLe) && Consumed(xs, i, ct)
    ensures var r := Scan(xs, i, ct, ct, None);
      && (forall k :: 0 <= k < r.0 ==> xs[k].end <= r.1)
      && (forall w :: w in xs && w.start <= ct ==> w.end <= r.1)
      && (if r.2.Some? then r.1 > ct else r.1 == ct)
      && (r.2.Some? ==> Greedy(xs, Link(r.2.value, ct, r.1, r.1 - ct)))
      && (r.2.None? && r.0 < |xs| ==>
            xs[r.0].start > ct && Uncovered(xs, Gap(ct, xs[r.0].start, xs[r.0].start - ct)))
  {
    var r := Scan(xs, i, ct, ct, None);
    ScanFrom(xs, i, ct);
    SortedTail(xs, r.0, ct);
    forall w | w in xs && w.start <= ct ensures w.end <= r.1 {
      var k :| 0 <= k < |xs| && xs[k] == w;
    }
    if r.2.Some? {
      var k :| i <= k < r.0 && xs[k].end == r.1 && r.2 == Some(xs[k].id);
      assert xs[k] in xs;
    }
    if r.2.None? && r.0 < |xs| {
      var s := xs[r.0].start;
      forall c | ct <= c < s ensures !Crossed(xs, c) {
        forall w | w in xs ensures !(w.start <= c < w.end) {
          var k :| 0 <= k < |xs| && xs[k] == w;
          if k >= r.0 {
            assert StartLe(xs[r.0], xs[k]) || k == r.0;
          }
        }
      }
    }
  }

  /**
   * The corrected loop from a state in which every earlier window is over:
   * events back to back from `ct`, each moving time forward, gaps that no
   * window covers and links to the window that lasts longest.
   */
  lemma {:induction false} FixedProperties(xs: seq<Window>, i: nat, ct: int)
    requires i <= |xs| && SortedBy(xs, StartLe) && Consumed(xs, i, ct)
    ensures Chained(Fixed(xs, i, ct), ct)
    ensures Forward(Fixed(xs, i, ct))
    ensures forall e :: e in Fixed(xs, i, ct) ==> Uncovered(xs, e) && Greedy(xs, e)
    decreases |xs| - i, if i < |xs| && xs[i].start > ct then 1 else 0
  {
    if i < |xs| {
      var r := Scan(xs, i, ct, ct, None);
      if r.2.Some? || r.0 < |xs| {
        var e, next := FixedAdvance(xs, i, ct);
        FixedProperties(xs, r.0, next);
        ChainedCons(e, Fixed(xs, r.0, next), ct);
        EventsCons(xs, e, Fixed(xs, r.0, next));
      }
    }
  }

  /**
   * One event of the corrected loop: it begins at `ct`, moves time forward
   * to `next`, is a true gap or a greedy link, and leaves every window
   * before the scan's stop over by `next`.
   */
  lemma FixedAdvance(xs: seq<Window>, i: nat, ct: int) returns (e: Event, next: int)
    requires i < |xs| && SortedBy(xs, StartLe) && Consumed(xs, i, ct)
    requires Scan(xs, i, ct, ct, None).2.Some? || Scan(xs, i, ct, ct, None).0 < |xs|
    ensures Fixed(xs, i, ct) == [e] + Fixed(xs, Scan(xs, i, ct, ct, None).0, next)
    ensures Begin(e) == ct && Finish(e) == next && e.duration == Finish(e) - Begin(e) && ct < next
    ensures Uncovered(xs, e) && Greedy(xs, e)
    ensures Consumed(xs, Scan(xs, i, ct, ct, None).0, next)
    ensures i < Scan(xs, i, ct, ct, None).0 || (xs[i].start > ct && next == xs[i].start)
  {
    var r := Scan(xs, i, ct, ct, None);
    FixedStep(xs, i, ct);
    if r.2.Some? {
      e, next := Link(r.2.value, ct, r.1, r.1 - ct), r.1;
      FixedLink(xs, i, ct);
    } else {
      e, next := Gap(ct, xs[r.0].start, xs[r.0].start - ct), xs[r.0].start;
      FixedGap(xs, i, ct);
    }
  }

  /** The corrected loop links the satellite the scan chose, then goes on from its end. */
  lemma FixedLink(xs: seq<Window>, i: nat, ct: int)
    requires i < |xs| && Scan(xs, i, ct, ct, None).2.Some?
    ensures var r := Scan(xs, i, ct, ct, None);
      Fixed(xs, i, ct) == [Link(r.2.value, ct, r.1, r.1 - ct)] + Fixed(xs, r.0, r.1)
  {
  }

  /** With nothing available, the corrected loop runs a gap forward to the next window's start. */
  lemma FixedGap(xs: seq<Window>, i: nat, ct: int)
    requires i < |xs| && Scan(xs, i, ct, ct, None).2.None? && Scan(xs, i, ct, ct, None).0 < |xs|
    ensures var r := Scan(xs, i, ct, ct, None);
      Fixed(xs, i, ct) == [Gap(ct, xs[r.0].start, xs[r.0].start - ct)] + Fixed(xs, r.0, xs[r.0].start)
  {
  }

  /** The per-event properties carry over to a schedule with one more event in front. */
  lemma EventsCons(xs: seq<Window>, e: Event, rest: seq<Event>)
    requires Begin(e) < Finish(e) && Uncovered(xs, e) && Greedy(xs, e)
    requires Forward(rest) && forall f :: f in rest ==> Uncovered(xs, f) && Greedy(xs, f)
    ensures Forward([e] + rest)
    ensures forall f :: f in [e] + rest ==> Uncovered(xs, f) && Greedy(xs, f)
  {
  }

  /**
   * The corrected `optimal_handoff_schedule` always returns, and its schedule
   * runs back to back from time 0, forward only, with true gaps and greedy links.
   */
  lemma FixedHandoffProperties(satellites: seq<Window>)
    ensures Chained(FixedHandoff(satellites), 0)
    ensures Forward(FixedHandoff(satellites))
    ensures forall e :: e in FixedHandoff(satellites) ==> Uncovered(satellites, e) && Greedy(satellites, e)
  {
    if satellites != [] {
      var xs := ByTuple(satellites);
      FixedProperties(xs, 0, 0);
      assert forall w :: w in xs <==> w in satellites by {
        forall w ensures w in xs <==> w in satellites {
          assert w in xs <==> w in multiset(xs);
          assert w in satellites <==> w in multiset(satellites);
        }
      }
      forall c | Crossed(satellites, c) ensures Crossed(xs, c) {
        var w :| w in satellites && w.start <= c < w.end;
        assert w in xs;
      }
      forall e | e in FixedHandoff(satellites) ensures Uncovered(satellites, e) && Greedy(satellites, e) {
        assert Uncovered(xs, e) && Greedy(xs, e);
      }
    }
  }

  /** On the nested windows the corrected loop emits no backward gap and no second link over covered time. */
  lemma NestedFixed(xs: seq<Window>)
    requires IsNested(xs)
    ensures Fixed(xs, 0, 0) == [Link("A", 0, 10, 10), Gap(10, 20, 10), Link("C", 20, 30, 10)]
  {
    var es := [Link("A", 0, 10, 10), Gap(10, 20, 10), Link("C", 20, 30, 10)];
    assert Scan(xs, 3, 20, 30, Some("C")).0 == 3;
    assert Fixed(xs, 3, 30) == [];
    assert Scan(xs, 2, 20, 20, None).0 == 3 && Scan(xs, 2, 20, 20, None).2 == Some("C") && Scan(xs, 2, 20, 20, None).1 == 30;
    assert Fixed(xs, 2, 20) == es[2..];
    assert Scan(xs, 1, 10, 10, None).0 == 2 && Scan(xs, 1, 10, 10, None).2 == None;
    assert Fixed(xs, 1, 10) == es[1..];
    assert Scan(xs, 0, 0, 0, None).0 == 1 && Scan(xs, 0, 0, 0, None).2 == Some("A") && Scan(xs, 0, 0, 0, None).1 == 10;
  }

  /** The scans of `optimal_handoff_schedule` on the demonstration windows. */
  lemma DemoScans(xs: seq<Window>)
    requires IsDemo(xs)
    ensures Scan(xs, 4, 750, 750, None) == (5, 900, Some("SAT_E"))
    ensures Scan(xs, 3, 600, 600, None) == (4, 750, Some("SAT_D"))
    ensures Scan(xs, 2, 420, 420, None) == (3, 600, Some("SAT_C"))
    ensures Scan(xs, 1, 300, 300, None) == (2, 420, Some("SAT_B"))
    ensures Scan(xs, 0, 0, 0, None) == (1, 300, Some("SAT_A"))
  {
    assert Scan(xs, 5, 750, 900, Some("SAT_E")) == (5, 900, Some("SAT_E"));
    assert Scan(xs, 4, 600, 750, Some("SAT_D")) == (4, 750, Some("SAT_D"));
    assert Scan(xs, 3, 420, 600, Some("SAT_C")) == (3, 600, Some("SAT_C"));
    assert Scan(xs, 2, 300, 420, Some("SAT_B")) == (2, 420, Some("SAT_B"));
    assert Scan(xs, 1, 0, 300, Some("SAT_A")) == (1, 300, Some("SAT_A"));
  }

  /** The demonstration windows are already in tuple order. */
  lemma DemoInTupleOrder(xs: seq<Window>)
    requires IsDemo(xs)
    ensures ByTuple(xs) == xs
  {
    assert SortedBy(xs, WindowLe);
    SortByOfSorted(xs, WindowLe);
  }

  /** On the demonstration windows each satellite is linked from the end of the previous link. */
  lemma OptimalHandoffDemo(xs: seq<Window>)
    requires IsDemo(xs)
    ensures OptimalHandoff(xs) == Schedule([
      Link("SAT_A", 0, 300, 300), Link("SAT_B", 300, 420, 120), Link("SAT_C", 420, 600, 180),
      Link("SAT_D", 600, 750, 150), Link("SAT_E", 750, 900, 150)])
  {
    var es := [Link("SAT_A", 0, 300, 300), Link("SAT_B", 300, 420, 120), Link("SAT_C", 420, 600, 180),
      Link("SAT_D", 600, 750, 150), Link("SAT_E", 750, 900, 150)];
    DemoInTupleOrder(xs);
    DemoScans(xs);
    assert Plan(xs, 5, 900) == Schedule([]);
    assert Plan(xs, 4, 750) == Schedule(es[4..]);
    assert es[3..] == [es[3]] + es[4..];
    assert Plan(xs, 3, 600) == Schedule(es[3..]);
    assert es[2..] == [es[2]] + es[3..];
    assert Plan(xs, 2, 420) == Schedule(es[2..]);
    assert es[1..] == [es[1]] + es[2..];
    assert Plan(xs, 1, 300) == Schedule(es[1..]);
    assert es == [es[0]] + es[1..];
  }
}
