/**
 * Greedy handoff planning over satellite visibility windows (neet/note.py):
 * `min_handoffs_schedule`, which lists the satellites to use in order, and
 * `optimal_handoff_schedule`, which emits timed link and gap events.
 */
module Handoff {
  import opened Options
  import opened Sorting

  /** A visibility window `(start, end, satellite_id)`. */
  datatype Window = Window(start: int, end: int, id: string)

  // ---------------------------------------------------------------------------
  // Python's string and tuple order
  // ---------------------------------------------------------------------------

  /** Lexicographic order on code points; a proper prefix comes first. */
  predicate StrLe(a: string, b: string) {
    a == [] || (b != [] && (a[0] < b[0] || (a[0] == b[0] && StrLe(a[1..], b[1..]))))
  }

  lemma {:induction false} StrLeTotal(a: string, b: string)
    ensures StrLe(a, b) || StrLe(b, a)
  {
    if a != [] && b != [] && a[0] == b[0] {
      StrLeTotal(a[1..], b[1..]);
    }
  }

  lemma {:induction false} StrLeRefl(a: string)
    ensures StrLe(a, a)
  {
    if a != [] {
      StrLeRefl(a[1..]);
    }
  }

  lemma {:induction false} StrLeTrans(a: string, b: string, c: string)
    requires StrLe(a, b) && StrLe(b, c)
    ensures StrLe(a, c)
  {
    if a != [] && b != [] && c != [] && a[0] == b[0] && b[0] == c[0] {
      StrLeTrans(a[1..], b[1..], c[1..]);
    }
  }

  lemma {:induction false} StrLeAntisym(a: string, b: string)
    requires StrLe(a, b) && StrLe(b, a)
    ensures a == b
  {
    if a != [] {
      StrLeAntisym(a[1..], b[1..]);
      assert a == [a[0]] + a[1..] && b == [b[0]] + b[1..];
    }
  }

  /** The order of `(end, satellite_id)` tuples. */
  predicate EndIdLe(a: (int, string), b: (int, string)) {
    a.0 < b.0 || (a.0 == b.0 && StrLe(a.1, b.1))
  }

  /** The first element of `available.sort(reverse=True)`: the greatest `(end, id)`. */
  function Best(av: seq<(int, string)>): (r: (int, string))
    requires av != []
    ensures r in av
    ensures forall x :: x in av ==> EndIdLe(x, r)
  {
    if |av| == 1 then StrLeRefl(av[0].1); av[0]
    else
      var b := Best(av[..|av| - 1]);
      var x := av[|av| - 1];
      assert av == av[..|av| - 1] + [x];
      StrLeTotal(b.1, x.1);
      StrLeRefl(x.1);
      if EndIdLe(b, x) then
        assert forall y :: y in av[..|av| - 1] ==> EndIdLe(y, x) by {
          forall y | y in av[..|av| - 1] ensures EndIdLe(y, x) {
            if y.0 == b.0 && b.0 == x.0 {
              StrLeTrans(y.1, b.1, x.1);
            }
          }
        }
        x
      else
        b
  }

  // ---------------------------------------------------------------------------
  // min_handoffs_schedule
  // ---------------------------------------------------------------------------

  predicate StartLe(a: Window, b: Window) { a.start <= b.start }

  lemma StartLePreorder()
    ensures TotalPreorder(StartLe)
  {
  }

  /** `max(interval[1] for interval in intervals)`. */
  function MaxEnd(xs: seq<Window>): (r: int)
    requires xs != []
    ensures forall k :: 0 <= k < |xs| ==> xs[k].end <= r
    ensures exists k :: 0 <= k < |xs| && xs[k].end == r
  {
    if |xs| == 1 then xs[0].end
    else
      var m := MaxEnd(xs[..|xs| - 1]);
      assert forall k :: 0 <= k < |xs| - 1 ==> xs[..|xs| - 1][k] == xs[k];
      if xs[|xs| - 1].end > m then xs[|xs| - 1].end else m
  }

  /**
   * The inner loop: from index `i`, the windows that have started by `cur`.
   * Returns the index of the first window that has not, and the `(end, id)`
   * of those scanned that end after `cur`.
   */
  function Collect(xs: seq<Window>, i: nat, cur: int): (r: (nat, seq<(int, string)>))
    requires i <= |xs|
    ensures i <= r.0 <= |xs|
    ensures r.0 == |xs| || xs[r.0].start > cur
    ensures forall k :: i <= k < r.0 ==> xs[k].start <= cur
    decreases |xs| - i
  {
    if i < |xs| && xs[i].start <= cur then
      var (j, av) := Collect(xs, i + 1, cur);
      (j, if xs[i].end > cur then [(xs[i].end, xs[i].id)] + av else av)
    else
      (i, [])
  }

  /** The picks on offer are exactly the scanned windows that end after `cur`. */
  lemma {:induction false} CollectOffers(xs: seq<Window>, i: nat, cur: int)
    requires i <= |xs|
    ensures forall p :: p in Collect(xs, i, cur).1 <==>
      exists k :: i <= k < Collect(xs, i, cur).0 && xs[k].end > cur && p == (xs[k].end, xs[k].id)
    decreases |xs| - i
  {
    if i < |xs| && xs[i].start <= cur {
      CollectOffers(xs, i + 1, cur);
      var j, av := Collect(xs, i + 1, cur).0, Collect(xs, i + 1, cur).1;
      var j', av' := Collect(xs, i, cur).0, Collect(xs, i, cur).1;
      assert j' == j;
      assert av' == if xs[i].end > cur then [(xs[i].end, xs[i].id)] + av else av;
      forall p ensures p in av' <==> exists k :: i <= k < j' && xs[k].end > cur && p == (xs[k].end, xs[k].id) {
        if p in av' && p !in av {
          assert p == (xs[i].end, xs[i].id) && xs[i].end > cur;
        }
        if exists k :: i <= k < j' && xs[k].end > cur && p == (xs[k].end, xs[k].id) {
          var k :| i <= k < j' && xs[k].end > cur && p == (xs[k].end, xs[k].id);
          if k > i {
            assert p in av;
          }
        }
      }
    }
  }

  /**
   * The outer loop from index `i` with coverage reaching `cur`: the `(end, id)`
   * picks in order, or `None` where no started window extends the coverage.
   * `top` is the largest end of all windows.
   */
  function Picks(xs: seq<Window>, i: nat, cur: int, top: int): Option<seq<(int, string)>>
    requires i <= |xs|
    decreases |xs| - i
  {
    if i == |xs| then Some([])
    else
      var (j, av) := Collect(xs, i, cur);
      if av == [] then None
      else
        var pick := Best(av);
        if pick.0 >= top then Some([pick])
        else match Picks(xs, j, pick.0, top)
          case None => None
          case Some(rest) => Some([pick] + rest)
  }

  function Ids(ps: seq<(int, string)>): (r: seq<string>)
    ensures |r| == |ps| && forall k :: 0 <= k < |ps| ==> r[k] == ps[k].1
  {
    if ps == [] then [] else Ids(ps[..|ps| - 1]) + [ps[|ps| - 1].1]
  }

  /** The windows sorted by start, stably, as `intervals.sort(key=lambda x: x[0])` leaves them. */
  function ByStart(intervals: seq<Window>): seq<Window> {
    SortBy(intervals, StartLe)
  }

  /** The `(end, id)` picks of `min_handoffs_schedule`, or `None` where it returns `[]` at a gap. */
  function HandoffPicks(intervals: seq<Window>): Option<seq<(int, string)>>
    requires intervals != []
  {
    var xs := ByStart(intervals);
    Picks(xs, 0, 0, MaxEnd(xs))
  }

  /** What `min_handoffs_schedule` returns. */
  function MinHandoffs(intervals: seq<Window>): seq<string> {
    if intervals == [] then []
    else match HandoffPicks(intervals)
      case None => []
      case Some(ps) => Ids(ps)
  }

  /** `min_handoffs_schedule`: the satellites to use in order, `[]` when coverage breaks. */
  method MinHandoffsSchedule(intervals: seq<Window>) returns (schedule: seq<string>)
    ensures schedule == MinHandoffs(intervals)
  {
    if intervals == [] {
      return [];
    }
    var xs := ByStart(intervals);
    var top := MaxEnd(xs);
    var picks: seq<(int, string)> := [];
    var currentEnd := 0;
    var i := 0;
    GlueEmpty(Picks(xs, 0, 0, top));
    while i < |xs|
      invariant 0 <= i <= |xs|
      invariant HandoffPicks(intervals) == Glue(picks, Picks(xs, i, currentEnd, top))
      decreases |xs| - i
    {
      ghost var i0 := i;
      var available;
      available, i := CollectAvailable(xs, i, currentEnd);
      if available == [] {
        return [];
      }
      var pick := Best(available);
      GlueGlue(picks, [pick], Picks(xs, i, pick.0, top));
      picks := picks + [pick];
      currentEnd := pick.0;
      if currentEnd >= top {
        break;
      }
    }
    if i == |xs| {
      assert picks + [] == picks;
    }
    schedule := Ids(picks);
  }

  /** The inner loop of `min_handoffs_schedule`. */
  method CollectAvailable(xs: seq<Window>, i0: nat, cur: int) returns (available: seq<(int, string)>, i: nat)
    requires i0 <= |xs|
    ensures (i, available) == Collect(xs, i0, cur)
  {
    available, i := [], i0;
    assert Collect(xs, i0, cur).1 == available + Collect(xs, i, cur).1;
    while i < |xs| && xs[i].start <= cur
      invariant i0 <= i <= |xs|
      invariant Collect(xs, i0, cur).0 == Collect(xs, i, cur).0
      invariant Collect(xs, i0, cur).1 == available + Collect(xs, i, cur).1
      decreases |xs| - i
    {
      ghost var rest := Collect(xs, i + 1, cur).1;
      if xs[i].end > cur {
        assert Collect(xs, i, cur).1 == [(xs[i].end, xs[i].id)] + rest;
        available := available + [(xs[i].end, xs[i].id)];
      }
      i := i + 1;
    }
    assert available + [] == available;
  }

  lemma GlueGlue(a: seq<(int, string)>, b: seq<(int, string)>, o: Option<seq<(int, string)>>)
    ensures Glue(a, Glue(b, o)) == Glue(a + b, o)
  {
    if o.Some? {
      assert a + (b + o.value) == (a + b) + o.value;
    }
  }

  /** Prefix `[p]` under an outcome: `None` stays `None`. */
  function Glue(ps: seq<(int, string)>, o: Option<seq<(int, string)>>): Option<seq<(int, string)>> {
    match o
    case None => None
    case Some(rest) => Some(ps + rest)
  }

  lemma GlueEmpty(o: Option<seq<(int, string)>>)
    ensures Glue([], o) == o
  {
    if o.Some? {
      assert [] + o.value == o.value;
    }
  }

  // ---------------------------------------------------------------------------
  // What min_handoffs_schedule promises
  // ---------------------------------------------------------------------------

  /** Some window is visible just after instant `c`: it has started by `c` and ends after it. */
  ghost predicate Crossed(ws: seq<Window>, c: int) {
    exists w :: w in ws && w.start <= c < w.end
  }

  /** Coverage from time 0 can be kept up until the last window ends. */
  ghost predicate Feasible(ws: seq<Window>) {
    ws != [] && MaxEnd(ws) > 0 && forall c :: 0 <= c < MaxEnd(ws) ==> Crossed(ws, c)
  }

  /** The coverage reached before the `k`-th pick. */
  function Reach(cur: int, ps: seq<(int, string)>, k: int): int
    requires 0 <= k <= |ps|
  {
    if k == 0 then cur else ps[k - 1].0
  }

  /**
   * Each pick is a window that has started by the coverage reached so far and
   * strictly extends it.
   */
  ghost predicate Chain(ws: seq<Window>, cur: int, ps: seq<(int, string)>) {
    forall k :: 0 <= k < |ps| ==> Extends(ws, Reach(cur, ps, k), ps[k])
  }

  /** The pick `p` is a window that has started by `from` and ends after it. */
  ghost predicate Extends(ws: seq<Window>, from: int, p: (int, string)) {
    p.0 > from && exists w :: w in ws && w.start <= from && (w.end, w.id) == p
  }

  lemma CollectProgress(xs: seq<Window>, i: nat, cur: int)
    requires i <= |xs| && Collect(xs, i, cur).1 != []
    ensures Collect(xs, i, cur).0 > i
    ensures var pick := Best(Collect(xs, i, cur).1);
      pick.0 > cur && exists w :: w in xs && w.start <= cur && (w.end, w.id) == pick
  {
    CollectOffers(xs, i, cur);
    var pick := Best(Collect(xs, i, cur).1);
    var k :| i <= k < Collect(xs, i, cur).0 && xs[k].end > cur && pick == (xs[k].end, xs[k].id);
    assert xs[k] in xs;
  }

  lemma {:induction false} PicksChain(xs: seq<Window>, i: nat, cur: int, top: int)
    requires i <= |xs| && Picks(xs, i, cur, top).Some?
    ensures Chain(xs, cur, Picks(xs, i, cur, top).value)
    ensures |Picks(xs, i, cur, top).value| <= |xs| - i
    decreases |xs| - i
  {
    if i < |xs| {
      var (j, av) := Collect(xs, i, cur);
      CollectProgress(xs, i, cur);
      var pick := Best(av);
      if pick.0 < top {
        PicksChain(xs, j, pick.0, top);
        var rest := Picks(xs, j, pick.0, top).value;
        var ps := [pick] + rest;
        forall k | 0 <= k < |ps| ensures Extends(xs, Reach(cur, ps, k), ps[k]) {
          if k > 0 {
            assert ps[k] == rest[k - 1] && Reach(cur, ps, k) == Reach(pick.0, rest, k - 1);
          }
        }
      }
    }
  }

  /** A chain from `cur` keeps some window visible just after every instant up to its last end. */
  lemma ChainPrefix(ws: seq<Window>, cur: int, ps: seq<(int, string)>)
    requires Chain(ws, cur, ps) && ps != []
    ensures Chain(ws, cur, ps[..|ps| - 1])
  {
    var q := ps[..|ps| - 1];
    forall k | 0 <= k < |q| ensures q[k] == ps[k] && Reach(cur, q, k) == Reach(cur, ps, k) {
    }
  }

  lemma {:induction false} ChainCovers(ws: seq<Window>, cur: int, ps: seq<(int, string)>, c: int)
    requires Chain(ws, cur, ps) && ps != [] && cur <= c < ps[|ps| - 1].0
    ensures Crossed(ws, c)
    decreases |ps|
  {
    var last := |ps| - 1;
    if c < Reach(cur, ps, last) {
      assert last > 0;
      var q := ps[..last];
      assert q[|q| - 1] == ps[last - 1];
      ChainPrefix(ws, cur, ps);
      ChainCovers(ws, cur, q, c);
    } else {
      assert Extends(ws, Reach(cur, ps, last), ps[last]);
      var w :| w in ws && w.start <= Reach(cur, ps, last) && (w.end, w.id) == ps[last];
      assert w.start <= c < w.end;
    }
  }

  /** Windows before `i` were all consumed by coverage that has reached `cur`. */
  ghost predicate Consumed(xs: seq<Window>, i: nat, cur: int)
    requires i <= |xs|
  {
    forall k :: 0 <= k < i ==> xs[k].end <= cur
  }

  lemma ConsumedAfterPick(xs: seq<Window>, i: nat, cur: int)
    requires i <= |xs| && Consumed(xs, i, cur) && Collect(xs, i, cur).1 != []
    ensures Consumed(xs, Collect(xs, i, cur).0, Best(Collect(xs, i, cur).1).0)
  {
    var (j, av) := Collect(xs, i, cur);
    var pick := Best(av);
    CollectOffers(xs, i, cur);
    CollectProgress(xs, i, cur);
    forall k | 0 <= k < j ensures xs[k].end <= pick.0 {
      if i <= k && xs[k].end > cur {
        assert (xs[k].end, xs[k].id) in av;
      }
    }
  }

  /** The picks stop exactly when coverage reaches the largest end. */
  lemma {:induction false} PicksReachTop(xs: seq<Window>, i: nat, cur: int, top: int)
    requires i <= |xs| && Picks(xs, i, cur, top).Some?
    requires Consumed(xs, i, cur) && cur < top
    requires exists k :: 0 <= k < |xs| && xs[k].end == top
    ensures var ps := Picks(xs, i, cur, top).value;
      ps != [] && ps[|ps| - 1].0 >= top && forall k :: 0 <= k < |ps| - 1 ==> ps[k].0 < top
    decreases |xs| - i
  {
    var t :| 0 <= t < |xs| && xs[t].end == top;
    assert t >= i;
    var (j, av) := Collect(xs, i, cur);
    var pick := Best(av);
    if pick.0 < top {
      ConsumedAfterPick(xs, i, cur);
      PicksReachTop(xs, j, pick.0, top);
      var rest := Picks(xs, j, pick.0, top).value;
      assert Picks(xs, i, cur, top).value == [pick] + rest;
    }
  }

  /** In windows sorted by start, everything from the first window starting after `cur` on starts after it. */
  lemma SortedTail(xs: seq<Window>, j: nat, cur: int)
    requires SortedBy(xs, StartLe) && j <= |xs| && (j == |xs| || xs[j].start > cur)
    ensures forall m :: j <= m < |xs| ==> xs[m].start > cur
  {
    forall m | j <= m < |xs| ensures xs[m].start > cur {
      assert StartLe(xs[j], xs[m]) || m == j;
    }
  }

  /** When the picks break off, some instant reached by then is crossed by no window at all. */
  lemma {:induction false} PicksGap(xs: seq<Window>, i: nat, cur: int, top: int)
    requires i <= |xs| && Picks(xs, i, cur, top).None?
    requires SortedBy(xs, StartLe) && Consumed(xs, i, cur)
    ensures exists c :: cur <= c && (c == cur || c < top) && !Crossed(xs, c)
    decreases |xs| - i
  {
    var (j, av) := Collect(xs, i, cur);
    if av == [] {
      CollectOffers(xs, i, cur);
      SortedTail(xs, j, cur);
      forall w | w in xs && w.start <= cur ensures w.end <= cur {
        var k :| 0 <= k < |xs| && xs[k] == w;
        if k >= i {
          assert !((xs[k].end, xs[k].id) in av);
        }
      }
      assert !Crossed(xs, cur);
    } else {
      var pick := Best(av);
      ConsumedAfterPick(xs, i, cur);
      CollectProgress(xs, i, cur);
      PicksGap(xs, j, pick.0, top);
    }
  }

  lemma ByStartSameWindows(intervals: seq<Window>)
    ensures forall w :: w in ByStart(intervals) <==> w in intervals
    ensures SortedBy(ByStart(intervals), StartLe)
  {
    var xs := ByStart(intervals);
    assert multiset(xs) == multiset(intervals);
    forall w ensures w in xs <==> w in intervals {
      assert w in xs <==> w in multiset(xs);
      assert w in intervals <==> w in multiset(intervals);
    }
    StartLePreorder();
    SortBySorted(intervals, StartLe);
  }

  lemma MaxEndSameWindows(xs: seq<Window>, ys: seq<Window>)
    requires xs != [] && ys != [] && forall w :: w in xs <==> w in ys
    ensures MaxEnd(xs) == MaxEnd(ys)
  {
    var k :| 0 <= k < |xs| && xs[k].end == MaxEnd(xs);
    var m :| 0 <= m < |ys| && ys[m].end == MaxEnd(ys);
    assert xs[k] in ys && ys[m] in xs;
    var k' :| 0 <= k' < |ys| && ys[k'] == xs[k];
    var m' :| 0 <= m' < |xs| && xs[m'] == ys[m];
  }

  /** Where `min_handoffs_schedule` breaks off, coverage from 0 could not be kept up. */
  lemma MinHandoffsFailure(intervals: seq<Window>)
    requires intervals != [] && HandoffPicks(intervals).None?
    ensures !Feasible(intervals)
  {
    var xs := ByStart(intervals);
    var top := MaxEnd(xs);
    assert top == MaxEnd(intervals) && forall w :: w in xs <==> w in intervals by {
      ByStartSameWindows(intervals);
      MaxEndSameWindows(xs, intervals);
    }
    assert exists c :: 0 <= c && (c == 0 || c < top) && !Crossed(xs, c) by {
      ByStartSameWindows(intervals);
      assert Consumed(xs, 0, 0);
      PicksGap(xs, 0, 0, top);
    }
    var c :| 0 <= c && (c == 0 || c < top) && !Crossed(xs, c);
    assert !Crossed(intervals, c);
  }

  /** A schedule it returns is a chain of windows from 0 whose last pick, and only that one, reaches the largest end. */
  lemma MinHandoffsSuccess(intervals: seq<Window>, ps: seq<(int, string)>)
    requires intervals != [] && HandoffPicks(intervals) == Some(ps)
    ensures Chain(intervals, 0, ps) && ps != [] && |ps| <= |intervals|
    ensures ps[|ps| - 1].0 == MaxEnd(intervals) && MaxEnd(intervals) > 0
    ensures forall k :: 0 <= k < |ps| - 1 ==> ps[k].0 < MaxEnd(intervals)
  {
    var xs := ByStart(intervals);
    assert |xs| == |intervals| && forall w :: w in xs <==> w in intervals by {
      ByStartSameWindows(intervals);
    }
    assert MaxEnd(xs) == MaxEnd(intervals) by {
      MaxEndSameWindows(xs, intervals);
    }
    PicksFromZero(xs, MaxEnd(xs), ps);
    ChainSameWindows(xs, intervals, ps);
  }

  lemma ChainSameWindows(xs: seq<Window>, ys: seq<Window>, ps: seq<(int, string)>)
    requires Chain(xs, 0, ps) && forall w :: w in xs <==> w in ys
    ensures Chain(ys, 0, ps)
  {
    forall k | 0 <= k < |ps| ensures Extends(ys, Reach(0, ps, k), ps[k]) {
      assert Extends(xs, Reach(0, ps, k), ps[k]);
    }
  }

  /** The picks from time 0, on windows sorted by start, when they succeed. */
  lemma PicksFromZero(xs: seq<Window>, top: int, ps: seq<(int, string)>)
    requires xs != [] && top == MaxEnd(xs) && Picks(xs, 0, 0, top) == Some(ps)
    ensures Chain(xs, 0, ps) && ps != [] && |ps| <= |xs|
    ensures ps[|ps| - 1].0 == top && top > 0
    ensures forall k :: 0 <= k < |ps| - 1 ==> ps[k].0 < top
  {
    PicksChain(xs, 0, 0, top);
    assert top > 0 by {
      CollectProgress(xs, 0, 0);
      var w0 :| w0 in xs && w0.start <= 0 && (w0.end, w0.id) == Best(Collect(xs, 0, 0).1);
      var k0 :| 0 <= k0 < |xs| && xs[k0] == w0;
    }
    assert Consumed(xs, 0, 0);
    PicksReachTop(xs, 0, 0, top);
    assert Extends(xs, Reach(0, ps, |ps| - 1), ps[|ps| - 1]);
    PickAtMostTop(xs, Reach(0, ps, |ps| - 1), ps[|ps| - 1]);
  }

  lemma PickAtMostTop(xs: seq<Window>, from: int, p: (int, string))
    requires xs != [] && Extends(xs, from, p)
    ensures p.0 <= MaxEnd(xs)
  {
    var w :| w in xs && w.start <= from && (w.end, w.id) == p;
    var k :| 0 <= k < |xs| && xs[k] == w;
  }

  /** So a returned schedule keeps coverage from 0 up to the last end. */
  lemma MinHandoffsCovers(intervals: seq<Window>)
    requires intervals != [] && HandoffPicks(intervals).Some?
    ensures Feasible(intervals)
  {
    var ps := HandoffPicks(intervals).value;
    var top := MaxEnd(intervals);
    assert ps != [] && ps[|ps| - 1].0 == top && Chain(intervals, 0, ps) && top > 0 by {
      MinHandoffsSuccess(intervals, ps);
    }
    assert forall c :: 0 <= c < top ==> Crossed(intervals, c) by {
      ChainFeasible(intervals, ps, top);
    }
  }

  lemma ChainFeasible(ws: seq<Window>, ps: seq<(int, string)>, top: int)
    requires ps != [] && ps[|ps| - 1].0 == top && Chain(ws, 0, ps)
    ensures forall c :: 0 <= c < top ==> Crossed(ws, c)
  {
    forall c | 0 <= c < top ensures Crossed(ws, c) {
      ChainCovers(ws, 0, ps, c);
    }
  }

  /**
   * `min_handoffs_schedule` returns `[]` for no windows; otherwise a nonempty
   * schedule exactly when coverage from 0 can be kept up to the last end, with
   * at most one satellite per window.
   */
  lemma MinHandoffsProperties(intervals: seq<Window>)
    ensures intervals == [] ==> MinHandoffs(intervals) == []
    ensures |MinHandoffs(intervals)| <= |intervals|
    ensures intervals != [] ==> (MinHandoffs(intervals) != [] <==> Feasible(intervals))
  {
    if intervals != [] {
      if HandoffPicks(intervals).None? {
        MinHandoffsFailure(intervals);
      } else {
        MinHandoffsSuccess(intervals, HandoffPicks(intervals).value);
        MinHandoffsCovers(intervals);
      }
    }
  }

  /** Dropping a chain's first pick leaves a chain from that pick's end. */
  lemma ChainTail(ws: seq<Window>, from: int, qs: seq<(int, string)>)
    requires Chain(ws, from, qs) && qs != []
    ensures Extends(ws, from, qs[0]) && Chain(ws, qs[0].0, qs[1..])
  {
    assert Reach(from, qs, 0) == from;
    forall k | 0 <= k < |qs| - 1 ensures Extends(ws, Reach(qs[0].0, qs[1..], k), qs[1..][k]) {
      assert qs[1..][k] == qs[k + 1] && Reach(qs[0].0, qs[1..], k) == Reach(from, qs, k + 1);
    }
  }

  /**
   * Every window that has started by `cur` and ends after it is on offer to
   * the scan from `i`, so the greedy pick ends no earlier than it.
   */
  lemma BestDominates(xs: seq<Window>, i: nat, cur: int, w: Window)
    requires SortedBy(xs, StartLe) && i <= |xs| && Consumed(xs, i, cur)
    requires w in xs && w.start <= cur < w.end
    ensures i < |xs| && Collect(xs, i, cur).1 != []
    ensures Best(Collect(xs, i, cur).1).0 >= w.end
  {
    var (j, av) := Collect(xs, i, cur);
    var k :| 0 <= k < |xs| && xs[k] == w;
    SortedTail(xs, j, cur);
    assert i <= k < j;
    CollectOffers(xs, i, cur);
    assert (w.end, w.id) in av;
  }

  /**
   * The greedy stays ahead: from coverage `cur`, it reaches `top` in no more
   * picks than any chain starting no later than `cur` that reaches `top`.
   */
  lemma {:induction false} GreedyAhead(xs: seq<Window>, i: nat, cur: int, top: int, from: int, qs: seq<(int, string)>)
    requires SortedBy(xs, StartLe) && i <= |xs| && Consumed(xs, i, cur)
    requires from <= cur < top
    requires Chain(xs, from, qs) && qs != [] && qs[|qs| - 1].0 >= top
    ensures Picks(xs, i, cur, top).Some?
    ensures 0 < |Picks(xs, i, cur, top).value| <= |qs|
    decreases |qs|
  {
    ChainTail(xs, from, qs);
    var rest := qs[1..];
    if qs[0].0 <= cur {
      assert |qs| > 1 && rest[|rest| - 1] == qs[|qs| - 1];
      GreedyAhead(xs, i, cur, top, qs[0].0, rest);
    } else {
      var w :| w in xs && w.start <= from && (w.end, w.id) == qs[0];
      BestDominates(xs, i, cur, w);
      var (j, av) := Collect(xs, i, cur);
      var pick := Best(av);
      if pick.0 < top {
        assert |qs| > 1 && rest[|rest| - 1] == qs[|qs| - 1];
        ConsumedAfterPick(xs, i, cur);
        CollectProgress(xs, i, cur);
        GreedyAhead(xs, j, pick.0, top, qs[0].0, rest);
        assert Picks(xs, i, cur, top) == Some([pick] + Picks(xs, j, pick.0, top).value);
      }
    }
  }

  /**
   * The schedule is minimal: given any chain of windows from time 0 that
   * reaches the last end, `min_handoffs_schedule` succeeds and uses no more
   * satellites than that chain.
   */
  lemma MinHandoffsMinimal(intervals: seq<Window>, qs: seq<(int, string)>)
    requires intervals != [] && qs != [] && Chain(intervals, 0, qs)
    requires qs[|qs| - 1].0 >= MaxEnd(intervals)
    ensures 0 < |MinHandoffs(intervals)| <= |qs|
  {
    var xs := ByStart(intervals);
    ByStartSameWindows(intervals);
    assert xs != [] by {
      var w :| w in intervals;
    }
    MaxEndSameWindows(xs, intervals);
    var top := MaxEnd(xs);
    ChainSameWindows(intervals, xs, qs);
    assert 0 < top by {
      ChainTail(xs, 0, qs);
      PickAtMostTop(xs, 0, qs[0]);
    }
    assert Consumed(xs, 0, 0);
    GreedyAhead(xs, 0, 0, top, 0, qs);
  }

  /** The five demonstration windows; each overlaps the next. */
  predicate IsDemo(xs: seq<Window>) {
    && |xs| == 5
    && xs[0] == Window(0, 300, "SAT_A") && xs[1] == Window(240, 420, "SAT_B")
    && xs[2] == Window(400, 600, "SAT_C") && xs[3] == Window(550, 750, "SAT_D")
    && xs[4] == Window(700, 900, "SAT_E")
  }

  /** The scans of `min_handoffs_schedule` on the demonstration windows. */
  lemma DemoCollects(xs: seq<Window>)
    requires IsDemo(xs)
    ensures Collect(xs, 4, 750).0 == 5 && Collect(xs, 4, 750).1 == [(900, "SAT_E")]
    ensures Collect(xs, 3, 600).0 == 4 && Collect(xs, 3, 600).1 == [(750, "SAT_D")]
    ensures Collect(xs, 2, 420).0 == 3 && Collect(xs, 2, 420).1 == [(600, "SAT_C")]
    ensures Collect(xs, 1, 300).0 == 2 && Collect(xs, 1, 300).1 == [(420, "SAT_B")]
    ensures Collect(xs, 0, 0).0 == 1 && Collect(xs, 0, 0).1 == [(300, "SAT_A")]
  {
    assert Collect(xs, 5, 750).0 == 5 && Collect(xs, 5, 750).1 == [];
    assert Collect(xs, 4, 600).0 == 4 && Collect(xs, 4, 600).1 == [];
    assert Collect(xs, 3, 420).0 == 3 && Collect(xs, 3, 420).1 == [];
    assert Collect(xs, 2, 300).0 == 2 && Collect(xs, 2, 300).1 == [];
    assert Collect(xs, 1, 0).0 == 1 && Collect(xs, 1, 0).1 == [];
  }

  /** The demonstration windows are already in order of start. */
  lemma DemoSorted(xs: seq<Window>)
    requires IsDemo(xs)
    ensures ByStart(xs) == xs
  {
    assert SortedBy(xs, StartLe);
    SortByOfSorted(xs, StartLe);
  }

  /** The picks of `min_handoffs_schedule` on the demonstration windows. */
  lemma DemoPicks(xs: seq<Window>)
    requires IsDemo(xs)
    ensures Picks(xs, 0, 0, 900)
      == Some([(300, "SAT_A"), (420, "SAT_B"), (600, "SAT_C"), (750, "SAT_D"), (900, "SAT_E")])
  {
    var ps := [(300, "SAT_A"), (420, "SAT_B"), (600, "SAT_C"), (750, "SAT_D"), (900, "SAT_E")];
    DemoCollects(xs);
    assert Picks(xs, 4, 750, 900) == Some(ps[4..]);
    assert ps[3..] == [ps[3]] + ps[4..];
    assert Picks(xs, 3, 600, 900) == Some([ps[3]] + ps[4..]);
    assert ps[2..] == [ps[2]] + ps[3..];
    assert Picks(xs, 2, 420, 900) == Some([ps[2]] + ps[3..]);
    assert ps[1..] == [ps[1]] + ps[2..];
    assert Picks(xs, 1, 300, 900) == Some([ps[1]] + ps[2..]);
    assert ps[0..] == [ps[0]] + ps[1..];
    assert Picks(xs, 0, 0, 900) == Some([ps[0]] + ps[1..]);
  }

  lemma DemoMaxEnd(xs: seq<Window>)
    requires IsDemo(xs)
    ensures MaxEnd(xs) == 900
  {
    assert MaxEnd(xs[..1]) == 300;
    assert xs[..2][..1] == xs[..1];
    assert MaxEnd(xs[..2]) == 420;
    assert xs[..3][..2] == xs[..2];
    assert MaxEnd(xs[..3]) == 600;
    assert xs[..4][..3] == xs[..3];
    assert MaxEnd(xs[..4]) == 750;
    assert xs[..4] == xs[..|xs| - 1];
  }

  lemma DemoIds(ps: seq<(int, string)>)
    requires ps == [(300, "SAT_A"), (420, "SAT_B"), (600, "SAT_C"), (750, "SAT_D"), (900, "SAT_E")]
    ensures Ids(ps) == ["SAT_A", "SAT_B", "SAT_C", "SAT_D", "SAT_E"]
  {
    var r := Ids(ps);
    assert |r| == 5 && r[0] == "SAT_A" && r[1] == "SAT_B" && r[2] == "SAT_C" && r[3] == "SAT_D" && r[4] == "SAT_E";
  }

  /** On the demonstration windows every satellite is used, in order of start. */
  lemma MinHandoffsDemo(xs: seq<Window>)
    requires IsDemo(xs)
    ensures MinHandoffs(xs) == ["SAT_A", "SAT_B", "SAT_C", "SAT_D", "SAT_E"]
  {
    DemoSorted(xs);
    DemoMaxEnd(xs);
    DemoPicks(xs);
    DemoIds(HandoffPicks(xs).value);
  }
}
