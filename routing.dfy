/**
 * Lowest-latency routing through the inter-satellite link mesh (neet/note.py):
 * Dijkstra's algorithm with a visited set and a min-heap of (distance, node),
 * the variant that also reconstructs the route, and breadth-first reachability.
 */
module Routing {
  import opened Options
  import opened SetFacts

  type Node = int

  /** Adjacency lists {node: [(neighbor, weight), ...]}; link latencies are non-negative. */
  type Graph = map<Node, seq<(Node, nat)>>

  /** A distance that may be infinite: the source's `float('inf')`. */
  datatype Dist = Finite(n: nat) | Infinity

  /** `graph.get(u, [])`: a node that is not a key has no outgoing links. */
  function Edges(g: Graph, u: Node): seq<(Node, nat)> {
    if u in g then g[u] else []
  }

  // ---------------------------------------------------------------------------
  // Walks: a start node and the (neighbor, weight) hops taken from it
  // ---------------------------------------------------------------------------

  function End(s: Node, w: seq<(Node, nat)>): Node {
    if w == [] then s else w[|w| - 1].0
  }

  /** Each hop is an entry of the adjacency list of the node it leaves. */
  ghost predicate IsWalk(g: Graph, s: Node, w: seq<(Node, nat)>) {
    w == [] || (IsWalk(g, s, w[..|w| - 1]) && w[|w| - 1] in Edges(g, End(s, w[..|w| - 1])))
  }

  function Weight(w: seq<(Node, nat)>): nat {
    if w == [] then 0 else Weight(w[..|w| - 1]) + w[|w| - 1].1
  }

  /** The nodes a walk visits, the start included. */
  function Route(s: Node, w: seq<(Node, nat)>): seq<Node> {
    if w == [] then [s] else Route(s, w[..|w| - 1]) + [w[|w| - 1].0]
  }

  /** Some walk from `s` to `v` weighs exactly `d`. */
  ghost predicate HasWalk(g: Graph, s: Node, v: Node, d: nat) {
    exists w :: IsWalk(g, s, w) && End(s, w) == v && Weight(w) == d
  }

  /** `d` is the least weight of a walk from `s` to `v`. */
  ghost predicate Shortest(g: Graph, s: Node, v: Node, d: nat) {
    && HasWalk(g, s, v, d)
    && forall w :: IsWalk(g, s, w) && End(s, w) == v ==> d <= Weight(w)
  }

  ghost predicate Unreachable(g: Graph, s: Node, v: Node) {
    forall w :: IsWalk(g, s, w) ==> End(s, w) != v
  }

  /**
   * What `dijkstra` returns: `s` at 0, every key at its least walk weight,
   * and every node some walk reaches among the keys.
   */
  ghost predicate IsDistanceTable(g: Graph, s: Node, t: map<Node, nat>) {
    && s in t && t[s] == 0
    && (forall v :: v in t ==> Shortest(g, s, v, t[v]))
    && (forall w :: IsWalk(g, s, w) ==> End(s, w) in t)
  }

  /** The least walk weight is unique, so two routers that both find it agree. */
  lemma ShortestUnique(g: Graph, s: Node, v: Node, d1: nat, d2: nat)
    requires Shortest(g, s, v, d1) && Shortest(g, s, v, d2)
    ensures d1 == d2
  {
    var w1 :| IsWalk(g, s, w1) && End(s, w1) == v && Weight(w1) == d1;
    var w2 :| IsWalk(g, s, w2) && End(s, w2) == v && Weight(w2) == d2;
  }

  lemma ExtendWalk(g: Graph, s: Node, w: seq<(Node, nat)>, hop: (Node, nat))
    requires IsWalk(g, s, w) && hop in Edges(g, End(s, w))
    ensures var w' := w + [hop];
      IsWalk(g, s, w') && End(s, w') == hop.0 && Weight(w') == Weight(w) + hop.1
      && Route(s, w') == Route(s, w) + [hop.0]
  {
    assert (w + [hop])[..|w|] == w;
  }

  /** A walk can also be extended at its front, by a hop into its start. */
  lemma {:induction false} PrependWalk(g: Graph, p: Node, hop: (Node, nat), w: seq<(Node, nat)>)
    requires hop in Edges(g, p) && IsWalk(g, hop.0, w)
    ensures var w' := [hop] + w;
      && IsWalk(g, p, w') && End(p, w') == End(hop.0, w)
      && Weight(w') == hop.1 + Weight(w)
      && Route(p, w') == [p] + Route(hop.0, w)
  {
    var w' := [hop] + w;
    if w == [] {
      assert w' == [hop] && w'[..0] == [];
      assert IsWalk(g, p, w');
      assert Route(p, w') == Route(p, []) + [hop.0] == [p] + Route(hop.0, w);
    } else {
      var q := w[..|w| - 1];
      PrependWalk(g, p, hop, q);
      assert w'[..|w'| - 1] == [hop] + q;
      assert End(p, [hop] + q) == End(hop.0, q);
      assert w'[|w'| - 1] == w[|w| - 1];
    }
  }

  /** Every node of the graph's adjacency lists, and the start. */
  function Universe(g: Graph, s: Node): set<Node> {
    {s} + set u, k | u in g && 0 <= k < |g[u]| :: g[u][k].0
  }

  lemma LinksInUniverse(g: Graph, s: Node, u: Node)
    ensures forall k :: 0 <= k < |Edges(g, u)| ==> Edges(g, u)[k].0 in Universe(g, s)
  {
    forall k | 0 <= k < |Edges(g, u)| ensures Edges(g, u)[k].0 in Universe(g, s) {
      assert u in g;
    }
  }

  // ---------------------------------------------------------------------------
  // The heap: extract-min over (distance, node) pairs
  // ---------------------------------------------------------------------------

  /** heapq's order on (distance, node) tuples. */
  predicate PairLe(a: (nat, Node), b: (nat, Node)) {
    a.0 < b.0 || (a.0 == b.0 && a.1 <= b.1)
  }

  predicate IsMin(e: (nat, Node), pq: set<(nat, Node)>) {
    e in pq && forall f :: f in pq ==> PairLe(e, f)
  }

  lemma {:induction false} MinExists(pq: set<(nat, Node)>)
    requires pq != {}
    ensures exists e :: IsMin(e, pq)
    decreases |pq|
  {
    var x :| x in pq;
    if pq == {x} {
      assert IsMin(x, pq);
    } else {
      MinExists(pq - {x});
      var e :| IsMin(e, pq - {x});
      if !PairLe(e, x) {
        forall f | f in pq ensures PairLe(x, f) {
          if f != x {
            assert PairLe(e, f);
          }
        }
        assert IsMin(x, pq);
      } else {
        assert IsMin(e, pq);
      }
    }
  }

  // ---------------------------------------------------------------------------
  // The invariant of the relaxation loop
  // ---------------------------------------------------------------------------

  /**
   * The state of Dijkstra's loop: `dist` holds tentative distances (a missing
   * key reads as infinity), `pq` the heap, `visited` the processed nodes.
   */
  ghost predicate DijkstraInv(g: Graph, s: Node, dist: map<Node, nat>, pq: set<(nat, Node)>, visited: set<Node>) {
    && s in dist && dist[s] == 0
    && visited <= dist.Keys
    && Witnessed(g, s, dist)
    // a node not yet processed is waiting in the heap at its recorded distance
    && (forall v :: v in dist && v !in visited ==> (dist[v], v) in pq)
    // heap entries are never better than the recorded distance
    && (forall e :: e in pq ==> e.1 in dist && dist[e.1] <= e.0)
    // processed nodes are no farther than anything still in the heap
    && (forall v, e :: v in visited && e in pq ==> dist[v] <= e.0)
    // the links of processed nodes are relaxed
    && (forall v, k :: v in visited && 0 <= k < |Edges(g, v)| ==>
          Edges(g, v)[k].0 in dist && dist[Edges(g, v)[k].0] <= dist[v] + Edges(g, v)[k].1)
  }

  /** The nodes waiting in the heap. */
  function Pending(pq: set<(nat, Node)>): set<Node> {
    set e | e in pq :: e.1
  }

  /** A recorded node is processed or waiting, so an empty heap means everything recorded is processed. */
  lemma HeapHoldsUnprocessed(g: Graph, s: Node, dist: map<Node, nat>, pq: set<(nat, Node)>, visited: set<Node>)
    requires DijkstraInv(g, s, dist, pq, visited)
    ensures dist.Keys <= visited + Pending(pq)
    ensures pq == {} ==> dist.Keys == visited
  {
    forall v | v in dist ensures v in visited + Pending(pq) {
      if v !in visited {
        assert (dist[v], v) in pq;
      }
    }
    assert pq == {} ==> Pending(pq) == {};
  }

  lemma DijkstraInit(g: Graph, s: Node)
    ensures DijkstraInv(g, s, map[s := 0], {(0, s)}, {})
  {
    assert IsWalk(g, s, []) && End(s, []) == s && Weight([]) == 0;
  }

  /** Every link leaving a recorded node reaches a recorded node, no farther than through that link. */
  ghost predicate Relaxed(g: Graph, dist: map<Node, nat>) {
    forall u, k :: u in dist && 0 <= k < |Edges(g, u)| ==>
      Edges(g, u)[k].0 in dist && dist[Edges(g, u)[k].0] <= dist[u] + Edges(g, u)[k].1
  }

  /** A relaxed map that puts the start at 0 bounds every walk from below. */
  lemma {:induction false} RelaxedBound(g: Graph, s: Node, dist: map<Node, nat>, w: seq<(Node, nat)>)
    requires s in dist && dist[s] == 0 && Relaxed(g, dist)
    requires IsWalk(g, s, w)
    ensures End(s, w) in dist && dist[End(s, w)] <= Weight(w)
  {
    if w != [] {
      var q := w[..|w| - 1];
      RelaxedBound(g, s, dist, q);
      var u := End(s, q);
      var hop := w[|w| - 1];
      var k :| 0 <= k < |Edges(g, u)| && Edges(g, u)[k] == hop;
    }
  }

  /** So such a map whose entries are all weights of real walks holds exactly the least distances. */
  lemma RelaxedIsShortest(g: Graph, s: Node, dist: map<Node, nat>)
    requires s in dist && dist[s] == 0 && Relaxed(g, dist)
    requires Witnessed(g, s, dist)
    ensures forall v :: v in dist ==> Shortest(g, s, v, dist[v])
    ensures forall w :: IsWalk(g, s, w) ==> End(s, w) in dist
  {
    forall w | IsWalk(g, s, w) ensures End(s, w) in dist && dist[End(s, w)] <= Weight(w) {
      RelaxedBound(g, s, dist, w);
    }
  }

  /**
   * While the loop runs, a walk either ends at a processed node no closer than
   * recorded, or weighs at least as much as the smallest heap entry.
   */
  lemma {:induction false} WalkBound(g: Graph, s: Node, dist: map<Node, nat>, pq: set<(nat, Node)>,
                                      visited: set<Node>, m: (nat, Node), w: seq<(Node, nat)>)
    requires DijkstraInv(g, s, dist, pq, visited) && IsMin(m, pq)
    requires IsWalk(g, s, w)
    ensures (End(s, w) in visited && dist[End(s, w)] <= Weight(w)) || m.0 <= Weight(w)
  {
    if w == [] {
      if s !in visited {
        assert (dist[s], s) in pq;
      }
    } else {
      var q := w[..|w| - 1];
      WalkBound(g, s, dist, pq, visited, m, q);
      var u := End(s, q);
      var hop := w[|w| - 1];
      if u in visited && dist[u] <= Weight(q) {
        var k :| 0 <= k < |Edges(g, u)| && Edges(g, u)[k] == hop;
        if hop.0 !in visited {
          assert (dist[hop.0], hop.0) in pq;
        }
      }
    }
  }

  /** A recorded node not yet processed waits in the heap at its recorded distance. */
  lemma Waiting(g: Graph, s: Node, dist: map<Node, nat>, pq: set<(nat, Node)>, visited: set<Node>, v: Node)
    requires DijkstraInv(g, s, dist, pq, visited) && v in dist && v !in visited
    ensures (dist[v], v) in pq
  {
  }

  /** The node popped first among the unprocessed ones is at its least distance. */
  lemma PoppedIsShortest(g: Graph, s: Node, dist: map<Node, nat>, pq: set<(nat, Node)>,
                         visited: set<Node>, m: (nat, Node))
    requires DijkstraInv(g, s, dist, pq, visited) && IsMin(m, pq) && m.1 !in visited
    ensures m.0 == dist[m.1] && Shortest(g, s, m.1, m.0)
  {
    assert m in pq && m.1 in dist;
    Waiting(g, s, dist, pq, visited, m.1);
    forall w | IsWalk(g, s, w) && End(s, w) == m.1 ensures m.0 <= Weight(w) {
      WalkBound(g, s, dist, pq, visited, m, w);
    }
  }

  // ---------------------------------------------------------------------------
  // dijkstra
  // ---------------------------------------------------------------------------

  /**
   * The distances from `start`: the keys are exactly the nodes some walk
   * reaches, each mapped to its least walk weight.
   */
  method Dijkstra(g: Graph, start: Node) returns (distances: map<Node, nat>)
    ensures IsDistanceTable(g, start, distances)
  {
    var dist := map[start := 0];
    var pq: set<(nat, Node)> := {(0, start)};
    var visited: set<Node> := {};
    ghost var universe := Universe(g, start);
    DijkstraInit(g, start);
    while pq != {}
      invariant DijkstraInv(g, start, dist, pq, visited)
      invariant dist.Keys <= universe
      decreases |universe - visited|, |pq|
    {
      MinExists(pq);
      var m :| IsMin(m, pq);
      var d, u := m.0, m.1;
      if u in visited {
        SkipProcessed(g, start, dist, pq, visited, m);
        pq := pq - {m};
        continue;
      }
      StartRelaxing(g, start, dist, pq, visited, m);
      ghost var old_unvisited := universe - visited;
      pq := pq - {m};
      visited := visited + {u};
      LinksInUniverse(g, start, u);
      ghost var dist0, pq0 := dist, pq;
      RelaxFirstInv(g, start, dist0, pq0, visited, u, d, |Edges(g, u)|);
      RelaxFirstKeys(g, u, d, dist0, pq0, |Edges(g, u)|, universe);
      dist, pq := RelaxLinks(g, dist, pq, u, d);
      FinishRelaxing(g, start, dist, pq, visited, u, d);
      StrictSubsetSmaller(universe - visited, old_unvisited);
    }
    HeapHoldsUnprocessed(g, start, dist, pq, visited);
    assert Relaxed(g, dist);
    RelaxedIsShortest(g, start, dist);
    distances := dist;
  }

  /** One pass of the inner loop over the link `e`: record and push it when it beats the recorded distance. */
  function RelaxStep(dist: map<Node, nat>, pq: set<(nat, Node)>, d: nat, e: (Node, nat)): (map<Node, nat>, set<(nat, Node)>) {
    if e.0 !in dist || d + e.1 < dist[e.0] then (dist[e.0 := d + e.1], pq + {(d + e.1, e.0)}) else (dist, pq)
  }

  /** The distances and the heap once the first `k` links of `u`, popped at distance `d`, are relaxed. */
  function RelaxFirst(g: Graph, u: Node, d: nat, dist0: map<Node, nat>, pq0: set<(nat, Node)>, k: nat)
    : (map<Node, nat>, set<(nat, Node)>)
    requires k <= |Edges(g, u)|
  {
    if k == 0 then (dist0, pq0)
    else
      var st := RelaxFirst(g, u, d, dist0, pq0, k - 1);
      RelaxStep(st.0, st.1, d, Edges(g, u)[k - 1])
  }

  /** The inner loop of `dijkstra`: relax every link leaving `u`, popped at distance `d`. */
  method RelaxLinks(g: Graph, dist0: map<Node, nat>, pq0: set<(nat, Node)>, u: Node, d: nat)
    returns (dist: map<Node, nat>, pq: set<(nat, Node)>)
    ensures (dist, pq) == RelaxFirst(g, u, d, dist0, pq0, |Edges(g, u)|)
  {
    dist, pq := dist0, pq0;
    var edges := Edges(g, u);
    for k := 0 to |edges|
      invariant (dist, pq) == RelaxFirst(g, u, d, dist0, pq0, k)
    {
      var v, weight := edges[k].0, edges[k].1;
      if v !in dist || d + weight < dist[v] {
        dist, pq := dist[v := d + weight], pq + {(d + weight, v)};
      }
    }
  }

  /** One relaxation step keeps the loop invariant, one link further on. */
  lemma RelaxStepInv(g: Graph, s: Node, dist: map<Node, nat>, pq: set<(nat, Node)>,
                     visited: set<Node>, u: Node, d: nat, k: nat)
    requires RelaxingInv(g, s, dist, pq, visited, u, d, k) && k < |Edges(g, u)|
    ensures RelaxingInv(g, s, RelaxStep(dist, pq, d, Edges(g, u)[k]).0, RelaxStep(dist, pq, d, Edges(g, u)[k]).1,
                        visited, u, d, k + 1)
  {
    if Edges(g, u)[k].0 !in dist || d + Edges(g, u)[k].1 < dist[Edges(g, u)[k].0] {
      RelaxImproves(g, s, dist, pq, visited, u, d, k);
    } else {
      RelaxKeeps(g, s, dist, pq, visited, u, d, k);
    }
  }

  /** Relaxing link after link keeps the loop invariant. */
  lemma {:induction false} RelaxFirstInv(g: Graph, s: Node, dist0: map<Node, nat>, pq0: set<(nat, Node)>,
                                         visited: set<Node>, u: Node, d: nat, k: nat)
    requires RelaxingInv(g, s, dist0, pq0, visited, u, d, 0) && k <= |Edges(g, u)|
    ensures RelaxingInv(g, s, RelaxFirst(g, u, d, dist0, pq0, k).0, RelaxFirst(g, u, d, dist0, pq0, k).1,
                        visited, u, d, k)
  {
    if k > 0 {
      var j := k - 1;
      RelaxFirstInv(g, s, dist0, pq0, visited, u, d, j);
      var st := RelaxFirst(g, u, d, dist0, pq0, j);
      RelaxStepInv(g, s, st.0, st.1, visited, u, d, j);
      assert RelaxFirst(g, u, d, dist0, pq0, k) == RelaxStep(st.0, st.1, d, Edges(g, u)[j]);
    }
  }

  /** The inner loop records only links into `universe`, so the distances stay within it. */
  lemma {:induction false} RelaxFirstKeys(g: Graph, u: Node, d: nat, dist0: map<Node, nat>, pq0: set<(nat, Node)>,
                                          k: nat, universe: set<Node>)
    requires k <= |Edges(g, u)|
    requires dist0.Keys <= universe && forall j :: 0 <= j < |Edges(g, u)| ==> Edges(g, u)[j].0 in universe
    ensures RelaxFirst(g, u, d, dist0, pq0, k).0.Keys <= universe
  {
    if k > 0 {
      RelaxFirstKeys(g, u, d, dist0, pq0, k - 1, universe);
    }
  }

  /** Every recorded distance is the weight of a real walk. */
  ghost predicate Witnessed(g: Graph, s: Node, dist: map<Node, nat>) {
    forall v {:trigger HasWalk(g, s, v, dist[v])} :: v in dist ==> HasWalk(g, s, v, dist[v])
  }

  /** The heap: unprocessed nodes wait at their distance, entries never beat the record, processed nodes come first. */
  ghost predicate HeapInv(dist: map<Node, nat>, pq: set<(nat, Node)>, visited: set<Node>) {
    && visited <= dist.Keys
    && (forall v :: v in dist && v !in visited ==> (dist[v], v) in pq)
    && (forall e :: e in pq ==> e.1 in dist && dist[e.1] <= e.0)
    && (forall v, e :: v in visited && e in pq ==> dist[v] <= e.0)
  }

  /** The links of processed nodes are relaxed, except those of `u` from the `k`-th on. */
  ghost predicate RelaxedExcept(g: Graph, dist: map<Node, nat>, visited: set<Node>, u: Node, k: int) {
    visited <= dist.Keys &&
    forall v, j :: v in visited && 0 <= j < |Edges(g, v)| && (v != u || j < k) ==>
      Edges(g, v)[j].0 in dist && dist[Edges(g, v)[j].0] <= dist[v] + Edges(g, v)[j].1
  }

  /** `u` was popped at distance `d`, which no processed node exceeds; the start sits at 0. */
  ghost predicate Frontier(s: Node, dist: map<Node, nat>, visited: set<Node>, u: Node, d: nat) {
    && s in dist && dist[s] == 0
    && u in visited && u in dist && dist[u] == d
    && (forall v :: v in visited ==> v in dist && dist[v] <= d)
  }

  /** The loop invariant while the links of `u`, popped at distance `d`, are being relaxed. */
  ghost predicate RelaxingInv(g: Graph, s: Node, dist: map<Node, nat>, pq: set<(nat, Node)>,
                              visited: set<Node>, u: Node, d: nat, k: int)
  {
    && Frontier(s, dist, visited, u, d) && 0 <= k <= |Edges(g, u)|
    && Witnessed(g, s, dist)
    && HeapInv(dist, pq, visited)
    && RelaxedExcept(g, dist, visited, u, k)
  }

  /** A heap entry for a processed node is stale: dropping it keeps the invariant and shrinks the heap. */
  lemma SkipProcessed(g: Graph, s: Node, dist: map<Node, nat>, pq: set<(nat, Node)>,
                      visited: set<Node>, m: (nat, Node))
    requires DijkstraInv(g, s, dist, pq, visited) && IsMin(m, pq) && m.1 in visited
    ensures DijkstraInv(g, s, dist, pq - {m}, visited) && |pq - {m}| < |pq|
  {
    StrictSubsetSmaller(pq - {m}, pq);
  }

  lemma StartRelaxing(g: Graph, s: Node, dist: map<Node, nat>, pq: set<(nat, Node)>,
                      visited: set<Node>, m: (nat, Node))
    requires DijkstraInv(g, s, dist, pq, visited) && IsMin(m, pq) && m.1 !in visited
    ensures RelaxingInv(g, s, dist, pq - {m}, visited + {m.1}, m.1, m.0, 0)
  {
    assert (dist[m.1], m.1) in pq;
  }

  /** Relaxing the `k`-th link of `u` through a shorter distance records it and pushes it. */
  lemma RelaxImproves(g: Graph, s: Node, dist: map<Node, nat>, pq: set<(nat, Node)>,
                      visited: set<Node>, u: Node, d: nat, k: int)
    requires RelaxingInv(g, s, dist, pq, visited, u, d, k) && k < |Edges(g, u)|
    requires Edges(g, u)[k].0 !in dist || d + Edges(g, u)[k].1 < dist[Edges(g, u)[k].0]
    ensures RelaxingInv(g, s, dist[Edges(g, u)[k].0 := d + Edges(g, u)[k].1],
                        pq + {(d + Edges(g, u)[k].1, Edges(g, u)[k].0)}, visited, u, d, k + 1)
  {
    ImprovedUnprocessed(s, dist, visited, u, d, Edges(g, u)[k].0, d + Edges(g, u)[k].1);
    WitnessedExtend(g, s, dist, u, k);
    HeapImprove(dist, pq, visited, Edges(g, u)[k].0, d, d + Edges(g, u)[k].1);
    RelaxedImprove(g, dist, visited, u, k, d + Edges(g, u)[k].1);
    FrontierImprove(s, dist, visited, u, d, Edges(g, u)[k].0, d + Edges(g, u)[k].1);
  }

  /** A link from `u` can only improve a node that is neither processed nor the start. */
  lemma ImprovedUnprocessed(s: Node, dist: map<Node, nat>, visited: set<Node>, u: Node, d: nat, v: Node, c: nat)
    requires Frontier(s, dist, visited, u, d) && d <= c && (v !in dist || c < dist[v])
    ensures v !in visited && v != s
  {
  }

  /** Recording a shorter distance for an unprocessed node keeps the frontier facts. */
  lemma FrontierImprove(s: Node, dist: map<Node, nat>, visited: set<Node>, u: Node, d: nat, v: Node, c: nat)
    requires Frontier(s, dist, visited, u, d) && v !in visited && (v !in dist || c < dist[v])
    ensures Frontier(s, dist[v := c], visited, u, d)
  {
  }

  /** A link that offers nothing shorter is already relaxed. */
  lemma RelaxKeeps(g: Graph, s: Node, dist: map<Node, nat>, pq: set<(nat, Node)>,
                   visited: set<Node>, u: Node, d: nat, k: int)
    requires RelaxingInv(g, s, dist, pq, visited, u, d, k) && k < |Edges(g, u)|
    requires !(Edges(g, u)[k].0 !in dist || d + Edges(g, u)[k].1 < dist[Edges(g, u)[k].0])
    ensures RelaxingInv(g, s, dist, pq, visited, u, d, k + 1)
  {
    assert RelaxedExcept(g, dist, visited, u, k + 1);
  }

  lemma HeapImprove(dist: map<Node, nat>, pq: set<(nat, Node)>, visited: set<Node>, v: Node, d: nat, c: nat)
    requires HeapInv(dist, pq, visited) && v !in visited && d <= c
    requires v !in dist || c < dist[v]
    requires forall x :: x in visited ==> dist[x] <= d
    ensures HeapInv(dist[v := c], pq + {(c, v)}, visited)
  {
    var dist' := dist[v := c];
    forall x | x in dist' && x !in visited ensures (dist'[x], x) in pq + {(c, v)} {
      if x != v {
        assert dist'[x] == dist[x];
      }
    }
  }

  lemma WitnessedExtend(g: Graph, s: Node, dist: map<Node, nat>, u: Node, k: int)
    requires Witnessed(g, s, dist) && u in dist && 0 <= k < |Edges(g, u)|
    ensures Witnessed(g, s, dist[Edges(g, u)[k].0 := dist[u] + Edges(g, u)[k].1])
  {
    var hop := Edges(g, u)[k];
    var dist' := dist[hop.0 := dist[u] + hop.1];
    assert HasWalk(g, s, hop.0, dist[u] + hop.1) by {
      assert HasWalk(g, s, u, dist[u]);
      var w :| IsWalk(g, s, w) && End(s, w) == u && Weight(w) == dist[u];
      ExtendWalk(g, s, w, hop);
    }
    forall x | x in dist' ensures HasWalk(g, s, x, dist'[x]) {
      if x != hop.0 {
        assert dist'[x] == dist[x];
      }
    }
  }

  lemma RelaxedImprove(g: Graph, dist: map<Node, nat>, visited: set<Node>, u: Node, k: int, c: nat)
    requires RelaxedExcept(g, dist, visited, u, k) && u in visited && u in dist && 0 <= k < |Edges(g, u)|
    requires Edges(g, u)[k].0 !in visited && c == dist[u] + Edges(g, u)[k].1
    requires Edges(g, u)[k].0 !in dist || c < dist[Edges(g, u)[k].0]
    ensures RelaxedExcept(g, dist[Edges(g, u)[k].0 := c], visited, u, k + 1)
  {
    var v := Edges(g, u)[k].0;
    var dist' := dist[v := c];
    forall x, j | x in visited && 0 <= j < |Edges(g, x)| && (x != u || j < k + 1)
      ensures Edges(g, x)[j].0 in dist' && dist'[Edges(g, x)[j].0] <= dist'[x] + Edges(g, x)[j].1
    {
      assert dist'[x] == dist[x];
    }
  }

  lemma FinishRelaxing(g: Graph, s: Node, dist: map<Node, nat>, pq: set<(nat, Node)>,
                       visited: set<Node>, u: Node, d: nat)
    requires RelaxingInv(g, s, dist, pq, visited, u, d, |Edges(g, u)|)
    ensures DijkstraInv(g, s, dist, pq, visited)
  {
    assert RelaxedExcept(g, dist, visited, u, |Edges(g, u)|);
  }

  /** There is only one distance table, so any two correct routers agree on all of it. */
  lemma DistanceTableUnique(g: Graph, s: Node, t1: map<Node, nat>, t2: map<Node, nat>)
    requires IsDistanceTable(g, s, t1) && IsDistanceTable(g, s, t2)
    ensures t1 == t2
  {
    forall v | v in t1 ensures v in t2 && t1[v] == t2[v] {
      var w :| IsWalk(g, s, w) && End(s, w) == v && Weight(w) == t1[v];
      ShortestUnique(g, s, v, t1[v], t2[v]);
    }
    forall v | v in t2 ensures v in t1 {
      var w :| IsWalk(g, s, w) && End(s, w) == v && Weight(w) == t2[v];
    }
  }

  // ---------------------------------------------------------------------------
  // dijkstra_with_path
  // ---------------------------------------------------------------------------

  /**
   * What `dijkstra_with_path` returns: `(inf, [])` exactly when no walk reaches
   * `e`; otherwise the least weight and the route of a walk of that weight.
   */
  ghost predicate IsRoute(g: Graph, s: Node, e: Node, distance: Dist, path: seq<Node>) {
    && (distance == Infinity <==> path == [])
    && (distance == Infinity ==> Unreachable(g, s, e))
    && (distance.Finite? ==>
          && Shortest(g, s, e, distance.n)
          && exists w :: IsWalk(g, s, w) && End(s, w) == e && Weight(w) == distance.n && Route(s, w) == path)
  }

  /** The route's distance is the table's entry, and the route is infinite exactly off the table. */
  lemma RouteAgreesWithTable(g: Graph, s: Node, e: Node, t: map<Node, nat>, distance: Dist, path: seq<Node>)
    requires IsDistanceTable(g, s, t) && IsRoute(g, s, e, distance, path)
    ensures distance == (if e in t then Finite(t[e]) else Infinity)
  {
    if distance.Finite? {
      var w :| IsWalk(g, s, w) && End(s, w) == e && Weight(w) == distance.n && Route(s, w) == path;
      assert e in t;
      ShortestUnique(g, s, e, t[e], distance.n);
    } else {
      assert e in t ==> HasWalk(g, s, e, t[e]);
    }
  }

  /** A route starts at `s`, ends at `e`, and each hop of it is a link. */
  lemma {:induction false} RouteShape(g: Graph, s: Node, w: seq<(Node, nat)>)
    requires IsWalk(g, s, w)
    ensures var r := Route(s, w);
      && |r| == |w| + 1 && r[0] == s && r[|r| - 1] == End(s, w)
      && forall i :: 0 <= i < |w| ==> w[i].0 == r[i + 1] && w[i] in Edges(g, r[i])
  {
    if w != [] {
      var q := w[..|w| - 1];
      RouteShape(g, s, q);
      var r := Route(s, w);
      assert r == Route(s, q) + [w[|w| - 1].0];
      forall i | 0 <= i < |w| ensures w[i].0 == r[i + 1] && w[i] in Edges(g, r[i]) {
        if i < |q| {
          assert w[i] == q[i];
        }
      }
    }
  }

  /** Every recorded node but the start has a recorded predecessor. */
  ghost predicate ChainCovers(s: Node, dist: map<Node, nat>, previous: map<Node, Node>) {
    && previous.Keys <= dist.Keys && s !in previous
    && (forall v :: v in dist && v != s ==> v in previous)
  }

  /** `rank` numbers the processed nodes in the order they were processed; a predecessor comes first. */
  ghost predicate Ranked(previous: map<Node, Node>, visited: set<Node>, rank: map<Node, nat>, n: nat) {
    && rank.Keys == visited
    && (forall v :: v in rank ==> rank[v] < n)
    && (forall v :: v in previous && v in visited && previous[v] in visited ==> rank[previous[v]] < rank[v])
  }

  /** A predecessor is processed, and its `via`-th link reaches the node at exactly its recorded distance. */
  ghost predicate ChainLinks(g: Graph, dist: map<Node, nat>, previous: map<Node, Node>,
                             via: map<Node, nat>, visited: set<Node>) {
    forall v :: v in previous ==>
      && v in dist && previous[v] in visited && previous[v] in dist
      && v in via && via[v] < |Edges(g, previous[v])|
      && Edges(g, previous[v])[via[v]].0 == v
      && dist[v] == dist[previous[v]] + Edges(g, previous[v])[via[v]].1
  }

  /** The bookkeeping behind the route reconstruction. */
  ghost predicate PreviousInv(g: Graph, s: Node, dist: map<Node, nat>, previous: map<Node, Node>,
                              via: map<Node, nat>, visited: set<Node>, rank: map<Node, nat>, n: nat)
  {
    && ChainCovers(s, dist, previous)
    && Ranked(previous, visited, rank, n)
    && ChainLinks(g, dist, previous, via, visited)
  }

  lemma PreviousInit(g: Graph, s: Node)
    ensures PreviousInv(g, s, map[s := 0], map[], map[], {}, map[], 0)
  {
  }

  lemma PreviousVisit(g: Graph, s: Node, dist: map<Node, nat>, previous: map<Node, Node>,
                      via: map<Node, nat>, visited: set<Node>, rank: map<Node, nat>, n: nat, u: Node)
    requires PreviousInv(g, s, dist, previous, via, visited, rank, n) && u !in visited
    ensures PreviousInv(g, s, dist, previous, via, visited + {u}, rank[u := n], n + 1)
  {
    var visited', rank' := visited + {u}, rank[u := n];
    forall v | v in previous && v in visited' && previous[v] in visited'
      ensures rank'[previous[v]] < rank'[v]
    {
      assert previous[v] in visited;
    }
  }

  lemma ChainLinksImprove(g: Graph, dist: map<Node, nat>, previous: map<Node, Node>,
                          via: map<Node, nat>, visited: set<Node>, u: Node, k: int, c: nat)
    requires ChainLinks(g, dist, previous, via, visited)
    requires u in visited && u in dist && 0 <= k < |Edges(g, u)| && Edges(g, u)[k].0 !in visited
    requires c == dist[u] + Edges(g, u)[k].1
    ensures ChainLinks(g, dist[Edges(g, u)[k].0 := c], previous[Edges(g, u)[k].0 := u],
                       via[Edges(g, u)[k].0 := k], visited)
  {
    var v := Edges(g, u)[k].0;
    var dist', previous', via' := dist[v := c], previous[v := u], via[v := k];
    forall x | x in previous'
      ensures && x in dist' && previous'[x] in visited && previous'[x] in dist'
              && x in via' && via'[x] < |Edges(g, previous'[x])|
              && Edges(g, previous'[x])[via'[x]].0 == x
              && dist'[x] == dist'[previous'[x]] + Edges(g, previous'[x])[via'[x]].1
    {
      assert previous'[x] != v;
      if x != v {
        assert previous'[x] == previous[x] && via'[x] == via[x] && dist'[x] == dist[x];
      }
    }
  }

  /** The predecessor and link index the inner loop records for link `e`, the `k`-th of `u`. */
  ghost function TrackStep(dist: map<Node, nat>, previous: map<Node, Node>, via: map<Node, nat>,
                           u: Node, d: nat, e: (Node, nat), k: nat): (map<Node, Node>, map<Node, nat>)
  {
    if e.0 !in dist || d + e.1 < dist[e.0] then (previous[e.0 := u], via[e.0 := k]) else (previous, via)
  }

  /** The predecessors and link indices once the first `k` links of `u` are relaxed. */
  ghost function TrackFirst(g: Graph, u: Node, d: nat, dist0: map<Node, nat>, pq0: set<(nat, Node)>,
                            previous0: map<Node, Node>, via0: map<Node, nat>, k: nat)
    : (map<Node, Node>, map<Node, nat>)
    requires k <= |Edges(g, u)|
  {
    if k == 0 then (previous0, via0)
    else
      var t := TrackFirst(g, u, d, dist0, pq0, previous0, via0, k - 1);
      TrackStep(RelaxFirst(g, u, d, dist0, pq0, k - 1).0, t.0, t.1, u, d, Edges(g, u)[k - 1], k - 1)
  }

  /** The inner loop of `dijkstra_with_path`: relax the links of `u`, recording predecessors. */
  method RelaxLinksTracking(g: Graph, dist0: map<Node, nat>, pq0: set<(nat, Node)>,
                            previous0: map<Node, Node>, u: Node, d: nat, ghost via0: map<Node, nat>)
    returns (dist: map<Node, nat>, pq: set<(nat, Node)>, previous: map<Node, Node>, ghost via: map<Node, nat>)
    ensures (dist, pq) == RelaxFirst(g, u, d, dist0, pq0, |Edges(g, u)|)
    ensures (previous, via) == TrackFirst(g, u, d, dist0, pq0, previous0, via0, |Edges(g, u)|)
  {
    dist, pq, previous, via := dist0, pq0, previous0, via0;
    var edges := Edges(g, u);
    for k := 0 to |edges|
      invariant (dist, pq) == RelaxFirst(g, u, d, dist0, pq0, k)
      invariant (previous, via) == TrackFirst(g, u, d, dist0, pq0, previous0, via0, k)
    {
      var v, weight := edges[k].0, edges[k].1;
      if v !in dist || d + weight < dist[v] {
        dist, pq := dist[v := d + weight], pq + {(d + weight, v)};
        previous, via := previous[v := u], via[v := k];
      }
    }
  }

  /** One tracked relaxation step keeps the route bookkeeping. */
  lemma TrackStepInv(g: Graph, s: Node, dist: map<Node, nat>, pq: set<(nat, Node)>,
                     previous: map<Node, Node>, via: map<Node, nat>,
                     visited: set<Node>, rank: map<Node, nat>, n: nat, u: Node, d: nat, k: nat)
    requires Frontier(s, dist, visited, u, d) && k < |Edges(g, u)|
    requires PreviousInv(g, s, dist, previous, via, visited, rank, n)
    ensures PreviousInv(g, s, RelaxStep(dist, pq, d, Edges(g, u)[k]).0,
                        TrackStep(dist, previous, via, u, d, Edges(g, u)[k], k).0,
                        TrackStep(dist, previous, via, u, d, Edges(g, u)[k], k).1, visited, rank, n)
  {
    if Edges(g, u)[k].0 !in dist || d + Edges(g, u)[k].1 < dist[Edges(g, u)[k].0] {
      ImprovedUnprocessed(s, dist, visited, u, d, Edges(g, u)[k].0, d + Edges(g, u)[k].1);
      ChainLinksImprove(g, dist, previous, via, visited, u, k, d + Edges(g, u)[k].1);
      assert Ranked(previous[Edges(g, u)[k].0 := u], visited, rank, n);
    }
  }

  /** The tracked state one link further on is one more tracked step. */
  lemma TrackFirstNext(g: Graph, u: Node, d: nat, dist0: map<Node, nat>, pq0: set<(nat, Node)>,
                       previous0: map<Node, Node>, via0: map<Node, nat>, j: nat)
    requires j < |Edges(g, u)|
    ensures RelaxFirst(g, u, d, dist0, pq0, j + 1)
      == RelaxStep(RelaxFirst(g, u, d, dist0, pq0, j).0, RelaxFirst(g, u, d, dist0, pq0, j).1, d, Edges(g, u)[j])
    ensures TrackFirst(g, u, d, dist0, pq0, previous0, via0, j + 1)
      == TrackStep(RelaxFirst(g, u, d, dist0, pq0, j).0, TrackFirst(g, u, d, dist0, pq0, previous0, via0, j).0,
                   TrackFirst(g, u, d, dist0, pq0, previous0, via0, j).1, u, d, Edges(g, u)[j], j)
  {
  }

  /** Recording the predecessor of every improved link keeps the route bookkeeping. */
  lemma {:induction false} TrackFirstInv(g: Graph, s: Node, dist0: map<Node, nat>, pq0: set<(nat, Node)>,
                                         previous0: map<Node, Node>, via0: map<Node, nat>,
                                         visited: set<Node>, rank: map<Node, nat>, n: nat, u: Node, d: nat, k: nat)
    requires RelaxingInv(g, s, dist0, pq0, visited, u, d, 0) && k <= |Edges(g, u)|
    requires PreviousInv(g, s, dist0, previous0, via0, visited, rank, n)
    ensures PreviousInv(g, s, RelaxFirst(g, u, d, dist0, pq0, k).0,
                        TrackFirst(g, u, d, dist0, pq0, previous0, via0, k).0,
                        TrackFirst(g, u, d, dist0, pq0, previous0, via0, k).1, visited, rank, n)
  {
    if k > 0 {
      var j := k - 1;
      TrackFirstInv(g, s, dist0, pq0, previous0, via0, visited, rank, n, u, d, j);
      RelaxFirstInv(g, s, dist0, pq0, visited, u, d, j);
      var st := RelaxFirst(g, u, d, dist0, pq0, j);
      var t := TrackFirst(g, u, d, dist0, pq0, previous0, via0, j);
      TrackStepInv(g, s, st.0, st.1, t.0, t.1, visited, rank, n, u, d, j);
      TrackFirstNext(g, u, d, dist0, pq0, previous0, via0, j);
    }
  }

  /**
   * The least distance from `start` to `end` and a route achieving it, or
   * `(inf, [])` when `end` cannot be reached; the search stops as soon as
   * `end` is processed.
   */
  method DijkstraWithPath(g: Graph, start: Node, end: Node) returns (distance: Dist, path: seq<Node>)
    ensures IsRoute(g, start, end, distance, path)
    ensures start == end ==> distance == Finite(0) && path == [start]
  {
    var dist := map[start := 0];
    var previous: map<Node, Node> := map[];
    var pq: set<(nat, Node)> := {(0, start)};
    var visited: set<Node> := {};
    ghost var via: map<Node, nat> := map[];
    ghost var rank: map<Node, nat> := map[];
    ghost var n: nat := 0;
    ghost var universe := Universe(g, start);
    ghost var reached := false;
    DijkstraInit(g, start);
    PreviousInit(g, start);
    while pq != {}
      invariant DijkstraInv(g, start, dist, pq, visited)
      invariant PreviousInv(g, start, dist, previous, via, visited, rank, n)
      invariant dist.Keys <= universe
      invariant end !in visited && !reached
      decreases |universe - visited|, |pq|
    {
      MinExists(pq);
      var m :| IsMin(m, pq);
      var d, u := m.0, m.1;
      if u in visited {
        SkipProcessed(g, start, dist, pq, visited, m);
        pq := pq - {m};
        continue;
      }
      PoppedIsShortest(g, start, dist, pq, visited, m);
      StartRelaxing(g, start, dist, pq, visited, m);
      PreviousVisit(g, start, dist, previous, via, visited, rank, n, u);
      ghost var unvisited := universe - visited;
      pq := pq - {m};
      visited := visited + {u};
      rank, n := rank[u := n], n + 1;
      if u == end {
        reached := true;
        break;
      }
      LinksInUniverse(g, start, u);
      ghost var dist0, pq0 := dist, pq;
      RelaxFirstInv(g, start, dist0, pq0, visited, u, d, |Edges(g, u)|);
      TrackFirstInv(g, start, dist0, pq0, previous, via, visited, rank, n, u, d, |Edges(g, u)|);
      RelaxFirstKeys(g, u, d, dist0, pq0, |Edges(g, u)|, universe);
      dist, pq, previous, via := RelaxLinksTracking(g, dist, pq, previous, u, d, via);
      FinishRelaxing(g, start, dist, pq, visited, u, d);
      StrictSubsetSmaller(universe - visited, unvisited);
    }
    if !reached {
      NotReached(g, start, end, dist, pq, visited);
    }
    if end !in previous && end != start {
      return Infinity, [];
    }
    ghost var suffix;
    path, suffix := Reconstruct(g, start, end, dist, previous, via, visited, rank, n);
    distance := Finite(dist[end]);
  }

  /**
   * Follow the predecessors back from `e` to the start: the result is the
   * route of a walk from `s` to `e` whose weight is the distance recorded for `e`.
   */
  method Reconstruct(g: Graph, s: Node, e: Node, dist: map<Node, nat>, previous: map<Node, Node>,
                     ghost via: map<Node, nat>, ghost visited: set<Node>, ghost rank: map<Node, nat>, ghost n: nat)
    returns (path: seq<Node>, ghost w: seq<(Node, nat)>)
    requires s in dist && dist[s] == 0 && e in visited && visited <= dist.Keys
    requires ChainCovers(s, dist, previous) && Ranked(previous, visited, rank, n)
    requires ChainLinks(g, dist, previous, via, visited)
    ensures IsWalk(g, s, w) && End(s, w) == e && Weight(w) == dist[e] && Route(s, w) == path
    ensures e == s ==> path == [s]
  {
    path := [];
    var current := e;
    w := [];
    while current in previous
      invariant current in visited && current in dist
      invariant IsWalk(g, current, w) && End(current, w) == e
      invariant Weight(w) + dist[current] == dist[e]
      invariant [current] + path == Route(current, w)
      invariant current == e ==> path == []
      decreases rank[current]
    {
      var p := previous[current];
      ghost var hop := Edges(g, p)[via[current]];
      PrependWalk(g, p, hop, w);
      w := [hop] + w;
      path := [current] + path;
      current := p;
    }
    path := [s] + path;
  }

  /** A search that empties the heap without processing `end` proves `end` unreachable. */
  lemma NotReached(g: Graph, s: Node, e: Node, dist: map<Node, nat>, pq: set<(nat, Node)>, visited: set<Node>)
    requires DijkstraInv(g, s, dist, pq, visited) && pq == {} && e !in visited
    ensures e !in dist && Unreachable(g, s, e)
  {
    HeapHoldsUnprocessed(g, s, dist, pq, visited);
    forall w | IsWalk(g, s, w) ensures End(s, w) != e {
      RelaxedBound(g, s, dist, w);
    }
  }

  // ---------------------------------------------------------------------------
  // The inter-satellite link mesh of the demonstration
  // ---------------------------------------------------------------------------

  function Mesh(): Graph {
    map[1 := [(2, 10), (3, 15)],
        2 := [(1, 10), (4, 20), (5, 8)],
        3 := [(1, 15), (5, 12)],
        4 := [(2, 20), (6, 5)],
        5 := [(2, 8), (3, 12), (6, 10)],
        6 := [(4, 5), (5, 10)]]
  }

  function MeshLatencies(): map<Node, nat> {
    map[1 := 0, 2 := 10, 3 := 15, 4 := 30, 5 := 18, 6 := 28]
  }

  /** The walks 1 -> 2 and 1 -> 2 -> 5 of the mesh. */
  lemma MeshWalksThrough2()
    ensures IsWalk(Mesh(), 1, [(2, 10)]) && End(1, [(2, 10)]) == 2 && Weight([(2, 10)]) == 10
    ensures var w := [(2, 10), (5, 8)]; IsWalk(Mesh(), 1, w) && End(1, w) == 5 && Weight(w) == 18
  {
    ExtendWalk(Mesh(), 1, [], (2, 10));
    assert [] + [(2, 10)] == [(2, 10)];
    ExtendWalk(Mesh(), 1, [(2, 10)], (5, 8));
  }

  lemma MeshWitnesses()
    ensures Witnessed(Mesh(), 1, MeshLatencies())
  {
    var g, t := Mesh(), MeshLatencies();
    forall v | v in t ensures HasWalk(g, 1, v, t[v]) {
      if v == 1 {
        assert IsWalk(g, 1, []) && End(1, []) == 1 && Weight([]) == 0;
      } else if v == 3 {
        ExtendWalk(g, 1, [], (3, 15));
        assert [] + [(3, 15)] == [(3, 15)];
      } else {
        MeshWalksThrough2();
        if v == 4 {
          ExtendWalk(g, 1, [(2, 10)], (4, 20));
        } else if v == 6 {
          ExtendWalk(g, 1, [(2, 10), (5, 8)], (6, 10));
        }
      }
    }
  }

  lemma MeshRelaxed()
    ensures Relaxed(Mesh(), MeshLatencies())
  {
    var g, t := Mesh(), MeshLatencies();
    forall u, k | u in t && 0 <= k < |Edges(g, u)|
      ensures Edges(g, u)[k].0 in t && t[Edges(g, u)[k].0] <= t[u] + Edges(g, u)[k].1
    {
      assert u in g;
    }
  }

  /** Whatever `dijkstra` returns on the mesh from node 1 is this table of latencies. */
  lemma MeshDistances(t: map<Node, nat>)
    requires IsDistanceTable(Mesh(), 1, t)
    ensures t == MeshLatencies()
  {
    var m := MeshLatencies();
    MeshRelaxed();
    MeshWitnesses();
    RelaxedIsShortest(Mesh(), 1, m);
    DistanceTableUnique(Mesh(), 1, t, m);
  }

  /** The best route from node 1 to node 6 takes 28 ms. */
  lemma MeshRoute(distance: Dist, path: seq<Node>)
    requires IsRoute(Mesh(), 1, 6, distance, path)
    ensures distance == Finite(28) && |path| >= 2 && path[0] == 1 && path[|path| - 1] == 6
  {
    var m := MeshLatencies();
    MeshRelaxed();
    MeshWitnesses();
    RelaxedIsShortest(Mesh(), 1, m);
    RouteAgreesWithTable(Mesh(), 1, 6, m, distance, path);
    var w :| IsWalk(Mesh(), 1, w) && End(1, w) == 6 && Weight(w) == 28 && Route(1, w) == path;
    RouteShape(Mesh(), 1, w);
  }

  // ---------------------------------------------------------------------------
  // bfs
  // ---------------------------------------------------------------------------

  /** Unweighted adjacency lists {node: [neighbor, ...]}. */
  type Adjacency = map<Node, seq<Node>>

  function Last(s: Node, p: seq<Node>): Node {
    if p == [] then s else p[|p| - 1]
  }

  /** A path of nodes after `s`; each node it leaves is a key whose list names the next one. */
  ghost predicate IsPath(g: Adjacency, s: Node, p: seq<Node>) {
    p == [] ||
    (IsPath(g, s, p[..|p| - 1]) && Last(s, p[..|p| - 1]) in g && p[|p| - 1] in g[Last(s, p[..|p| - 1])])
  }

  ghost predicate Reaches(g: Adjacency, s: Node, v: Node) {
    exists p :: IsPath(g, s, p) && Last(s, p) == v
  }

  /** Every node reachable from `s` is a key of `g`, so `graph[node]` never fails. */
  ghost predicate KeysClosed(g: Adjacency, s: Node) {
    forall p :: IsPath(g, s, p) ==> Last(s, p) in g
  }

  /**
   * What `bfs` produces: a `KeyError` (here `None`) exactly when some reachable
   * node is not a key, and otherwise the set of nodes reachable from `s`.
   */
  ghost predicate IsBfsResult(g: Adjacency, s: Node, r: Option<set<Node>>) {
    && (r.None? <==> !KeysClosed(g, s))
    && (r.Some? ==> forall v :: v in r.value <==> Reaches(g, s, v))
  }

  lemma ReachesNeighbor(g: Adjacency, s: Node, u: Node, j: int)
    requires Reaches(g, s, u) && u in g && 0 <= j < |g[u]|
    ensures Reaches(g, s, g[u][j])
  {
    var p :| IsPath(g, s, p) && Last(s, p) == u;
    var p' := p + [g[u][j]];
    assert p'[..|p|] == p;
    assert IsPath(g, s, p') && Last(s, p') == g[u][j];
  }

  /** Nodes that are keys and whose neighbours are all in `visited`. */
  ghost predicate Expanded(g: Adjacency, visited: set<Node>, v: Node) {
    v in g && forall j :: 0 <= j < |g[v]| ==> g[v][j] in visited
  }

  /** A set holding `s` and closed under the links is where every path from `s` stays. */
  lemma {:induction false} ClosedSetHoldsPaths(g: Adjacency, s: Node, visited: set<Node>, p: seq<Node>)
    requires s in visited && forall v :: v in visited ==> Expanded(g, visited, v)
    requires IsPath(g, s, p)
    ensures Last(s, p) in visited
  {
    if p != [] {
      var q := p[..|p| - 1];
      ClosedSetHoldsPaths(g, s, visited, q);
      var u := Last(s, q);
      assert Expanded(g, visited, u);
      var j :| 0 <= j < |g[u]| && g[u][j] == p[|p| - 1];
    }
  }

  function AdjUniverse(g: Adjacency, s: Node): set<Node> {
    {s} + set u, j | u in g && 0 <= j < |g[u]| :: g[u][j]
  }

  /** The invariant of the breadth-first loop. */
  ghost predicate BfsInv(g: Adjacency, s: Node, visited: set<Node>, queue: seq<Node>, skip: Option<Node>) {
    && s in visited
    && visited <= AdjUniverse(g, s)
    && (forall v :: v in visited ==> Reaches(g, s, v))
    && (forall i :: 0 <= i < |queue| ==> queue[i] in visited)
    && (forall v :: v in visited && v !in queue && Some(v) != skip ==> Expanded(g, visited, v))
  }

  /** The set of nodes reachable from `start`, or `None` where the source raises `KeyError`. */
  method Bfs(g: Adjacency, start: Node) returns (r: Option<set<Node>>)
    ensures IsBfsResult(g, start, r)
  {
    var visited: set<Node> := {start};
    var queue: seq<Node> := [start];
    assert IsPath(g, start, []) && Last(start, []) == start;
    while queue != []
      invariant BfsInv(g, start, visited, queue, None)
      decreases |AdjUniverse(g, start) - visited|, |queue|
    {
      var node := queue[0];
      ghost var queue0 := queue;
      BfsPop(g, start, visited, queue);
      queue := queue[1..];
      if node !in g {
        ghost var p :| IsPath(g, start, p) && Last(start, p) == node;
        return None;
      }
      ghost var visited0 := visited;
      visited, queue := Expand(g, start, visited, queue, node);
      if visited != visited0 {
        StrictSubsetSmaller(AdjUniverse(g, start) - visited, AdjUniverse(g, start) - visited0);
      } else {
        assert |queue| < |queue0|;
      }
    }
    BfsDone(g, start, visited);
    r := Some(visited);
  }

  lemma BfsPop(g: Adjacency, s: Node, visited: set<Node>, queue: seq<Node>)
    requires BfsInv(g, s, visited, queue, None) && queue != []
    ensures BfsInv(g, s, visited, queue[1..], Some(queue[0]))
  {
    forall v | v in visited && v !in queue[1..] && Some(v) != Some(queue[0]) ensures Expanded(g, visited, v) {
      assert v !in queue;
    }
  }

  lemma BfsDone(g: Adjacency, s: Node, visited: set<Node>)
    requires BfsInv(g, s, visited, [], None)
    ensures KeysClosed(g, s)
    ensures forall v :: v in visited <==> Reaches(g, s, v)
  {
    forall p | IsPath(g, s, p) ensures Last(s, p) in visited && Last(s, p) in g {
      ClosedSetHoldsPaths(g, s, visited, p);
    }
  }

  /** The inner loop of `bfs`: mark and enqueue the unseen neighbours of `node`. */
  method Expand(g: Adjacency, start: Node, visited0: set<Node>, queue0: seq<Node>, node: Node)
    returns (visited: set<Node>, queue: seq<Node>)
    requires BfsInv(g, start, visited0, queue0, Some(node)) && node in g && node in visited0
    ensures BfsInv(g, start, visited, queue, None)
    ensures visited0 <= visited && queue0 <= queue && (visited == visited0 ==> queue == queue0)
  {
    visited, queue := visited0, queue0;
    var neighbors := g[node];
    for j := 0 to |neighbors|
      invariant BfsInv(g, start, visited, queue, Some(node))
      invariant forall i :: 0 <= i < j ==> neighbors[i] in visited
      invariant visited0 <= visited && queue0 <= queue
      invariant visited == visited0 ==> queue == queue0
    {
      var neighbor := neighbors[j];
      if neighbor !in visited {
        BfsVisit(g, start, visited, queue, node, j);
        visited := visited + {neighbor};
        queue := queue + [neighbor];
      }
    }
    assert Expanded(g, visited, node);
  }

  lemma BfsVisit(g: Adjacency, s: Node, visited: set<Node>, queue: seq<Node>, node: Node, j: int)
    requires BfsInv(g, s, visited, queue, Some(node)) && node in g && node in visited && 0 <= j < |g[node]|
    ensures BfsInv(g, s, visited + {g[node][j]}, queue + [g[node][j]], Some(node))
  {
    var nb := g[node][j];
    ReachesNeighbor(g, s, node, j);
    assert nb in AdjUniverse(g, s);
    var visited', queue' := visited + {nb}, queue + [nb];
    forall v | v in visited' && v !in queue' && Some(v) != Some(node) ensures Expanded(g, visited', v) {
      assert v !in queue && v in visited;
    }
  }

  /** A neighbour that is not itself a key makes `bfs` fail, even though `dijkstra` would treat it as a sink. */
  lemma BfsDanglingNeighbor(r: Option<set<Node>>)
    requires IsBfsResult(map[1 := [2]], 1, r)
    ensures r == None
  {
    var g: Adjacency := map[1 := [2]];
    assert [2][..0] == [];
    assert IsPath(g, 1, [2]) && Last(1, [2]) == 2;
  }
}
