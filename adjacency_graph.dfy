/**
 * The directed graph of neet/neet.cpp: a map from node to its set of
 * successors, with edge insertion and removal and a depth-first
 * reachability test that shares one visited set across its recursion.
 */
module AdjacencySets {
  import opened SetFacts

  type Adj = map<int, set<int>>

  /** `adj_list[u]` read without inserting: no entry means no successors. */
  function Succ(adj: Adj, u: int): set<int> {
    if u in adj then adj[u] else {}
  }

  ghost predicate HasEdge(adj: Adj, u: int, v: int) {
    v in Succ(adj, u)
  }

  /** Every node some edge points to. */
  function Targets(adj: Adj): set<int> {
    set u, v | u in adj && v in adj[u] :: v
  }

  /** Two maps with the same successors everywhere; they may differ in empty entries. */
  ghost predicate SameEdges(a: Adj, b: Adj) {
    forall u :: Succ(a, u) == Succ(b, u)
  }

  // ---------------------------------------------------------------------------
  // Walks and reachability
  // ---------------------------------------------------------------------------

  /** `p` lists the nodes after `s` along edges, first step first. */
  ghost predicate IsWalk(adj: Adj, s: int, p: seq<int>)
    decreases |p|
  {
    p == [] || (p[0] in Succ(adj, s) && IsWalk(adj, p[0], p[1..]))
  }

  function End(s: int, p: seq<int>): int {
    if p == [] then s else p[|p| - 1]
  }

  ghost predicate Reaches(adj: Adj, s: int, d: int) {
    exists p :: IsWalk(adj, s, p) && End(s, p) == d
  }

  lemma ReachesSelf(adj: Adj, s: int)
    ensures Reaches(adj, s, s)
  {
    assert IsWalk(adj, s, []) && End(s, []) == s;
  }

  lemma ReachesStep(adj: Adj, s: int, n: int, d: int)
    requires n in Succ(adj, s) && Reaches(adj, n, d)
    ensures Reaches(adj, s, d)
  {
    var p :| IsWalk(adj, n, p) && End(n, p) == d;
    var q := [n] + p;
    assert q[1..] == p;
    assert IsWalk(adj, s, q) && End(s, q) == d;
  }

  /** A set holding `s` and every successor of its members holds every node reachable from `s`. */
  lemma {:induction false} ClosedHoldsWalks(adj: Adj, c: set<int>, s: int, p: seq<int>)
    requires s in c && (forall u :: u in c ==> Succ(adj, u) <= c) && IsWalk(adj, s, p)
    ensures End(s, p) in c
    decreases |p|
  {
    if p != [] {
      ClosedHoldsWalks(adj, c, p[0], p[1..]);
      assert End(p[0], p[1..]) == End(s, p);
    }
  }

  lemma SameEdgesWalks(a: Adj, b: Adj, s: int, d: int)
    requires SameEdges(a, b)
    ensures Reaches(a, s, d) <==> Reaches(b, s, d)
  {
    forall p, t | IsWalk(a, t, p) ensures IsWalk(b, t, p) {
      SameEdgesWalk(a, b, t, p);
    }
    forall p, t | IsWalk(b, t, p) ensures IsWalk(a, t, p) {
      SameEdgesWalk(b, a, t, p);
    }
  }

  lemma {:induction false} SameEdgesWalk(a: Adj, b: Adj, s: int, p: seq<int>)
    requires SameEdges(a, b) && IsWalk(a, s, p)
    ensures IsWalk(b, s, p)
    decreases |p|
  {
    if p != [] {
      assert Succ(a, s) == Succ(b, s);
      SameEdgesWalk(a, b, p[0], p[1..]);
    }
  }

  lemma SameEdgesTargets(a: Adj, b: Adj)
    requires SameEdges(a, b)
    ensures Targets(a) == Targets(b)
  {
    forall v | v in Targets(a) ensures v in Targets(b) {
      var u :| u in a && v in a[u];
      assert v in Succ(b, u);
    }
    forall v | v in Targets(b) ensures v in Targets(a) {
      var u :| u in b && v in b[u];
      assert v in Succ(a, u);
    }
  }

  /** A member of a nonempty set. */
  lemma PickOne<T>(s: set<T>) returns (x: T)
    requires s != {}
    ensures x in s
  {
    x :| x in s;
  }

  /** A set holding `s`, closed under successors and missing `d`, rules out every walk from `s` to `d`. */
  lemma ClosedExcludes(adj: Adj, c: set<int>, s: int, d: int)
    requires s in c && d !in c && forall u :: u in c ==> Succ(adj, u) <= c
    ensures !Reaches(adj, s, d)
  {
    if Reaches(adj, s, d) {
      var p :| IsWalk(adj, s, p) && End(s, p) == d;
      ClosedHoldsWalks(adj, c, s, p);
    }
  }

  // ---------------------------------------------------------------------------
  // Edge updates as functions
  // ---------------------------------------------------------------------------

  /** `adj_list[src].insert(dst)`. */
  function WithEdge(adj: Adj, src: int, dst: int): (r: Adj)
    ensures forall u, v :: HasEdge(r, u, v) <==> HasEdge(adj, u, v) || (u == src && v == dst)
  {
    adj[src := Succ(adj, src) + {dst}]
  }

  /** `adj_list[src].erase(dst)`. */
  function WithoutEdge(adj: Adj, src: int, dst: int): (r: Adj)
    requires src in adj
    ensures forall u, v :: HasEdge(r, u, v) <==> HasEdge(adj, u, v) && !(u == src && v == dst)
  {
    adj[src := adj[src] - {dst}]
  }

  /** Adding an edge that is already there changes nothing. */
  lemma WithEdgeIdempotent(adj: Adj, src: int, dst: int)
    ensures WithEdge(WithEdge(adj, src, dst), src, dst) == WithEdge(adj, src, dst)
  {
  }

  /** Removing an edge just added undoes the addition when it was new, up to an empty entry. */
  lemma RemoveUndoesAdd(adj: Adj, src: int, dst: int)
    requires !HasEdge(adj, src, dst)
    ensures SameEdges(WithoutEdge(WithEdge(adj, src, dst), src, dst), adj)
  {
    var r := WithoutEdge(WithEdge(adj, src, dst), src, dst);
    forall u ensures Succ(r, u) == Succ(adj, u) {
      if u == src {
        assert Succ(r, u) == (Succ(adj, src) + {dst}) - {dst};
      }
    }
  }

  // ---------------------------------------------------------------------------
  // The class
  // ---------------------------------------------------------------------------

  class Graph {
    var adj: Adj

    /** `Graph()`: no nodes. */
    constructor ()
      ensures adj == map[]
    {
      adj := map[];
    }

    /** `addEdge(src, dst)`: `dst` joins the successors of `src`, which gets an entry if it had none. */
    method AddEdge(src: int, dst: int)
      modifies this
      ensures adj == WithEdge(old(adj), src, dst)
    {
      adj := adj[src := Succ(adj, src) + {dst}];
    }

    /** `removeEdge(src, dst)`: removes the edge and answers true, or answers false when there is none. */
    method RemoveEdge(src: int, dst: int) returns (removed: bool)
      modifies this
      ensures removed <==> HasEdge(old(adj), src, dst)
      ensures removed ==> adj == WithoutEdge(old(adj), src, dst)
      ensures !removed ==> adj == old(adj)
    {
      if src !in adj || dst !in adj[src] {
        return false;
      }
      adj := adj[src := adj[src] - {dst}];
      return true;
    }

    /**
     * `hasPathDFS(src, dst, visited)`. The loop reads `adj_list[src]`, which
     * inserts an empty entry for a node without one; no edge changes. On
     * `false`, `dst` is still unvisited and every node this call visited has
     * all its successors visited.
     */
    method HasPathDfs(src: int, dst: int, visited: set<int>) returns (found: bool, visited': set<int>)
      requires src !in visited && dst !in visited
      modifies this
      ensures SameEdges(adj, old(adj))
      ensures found ==> Reaches(adj, src, dst)
      ensures !found ==>
        && visited + {src} <= visited' && dst !in visited'
        && forall u :: u in visited' - visited ==> Succ(adj, u) <= visited'
      decreases |(Targets(adj) + {src}) - visited|
    {
      if src == dst {
        ReachesSelf(adj, src);
        return true, visited;
      }
      visited' := visited + {src};
      ghost var adj0 := adj;
      if src !in adj {
        adj := adj[src := {}];
      }
      assert SameEdges(adj, adj0);
      var neighbors := adj[src];
      var remaining := neighbors;
      while remaining != {}
        invariant remaining <= neighbors == Succ(adj, src)
        invariant SameEdges(adj, adj0)
        invariant visited + {src} <= visited' && dst !in visited'
        invariant neighbors - remaining <= visited'
        invariant forall u :: u in visited' - visited && u != src ==> Succ(adj, u) <= visited'
        decreases |remaining|
      {
        ghost var some := PickOne(remaining);
        var neighbor :| neighbor in remaining;
        remaining := remaining - {neighbor};
        if neighbor !in visited' {
          assert |(Targets(adj) + {neighbor}) - visited'| < |(Targets(old(adj)) + {src}) - visited| by {
            SameEdgesTargets(adj, old(adj));
            assert neighbor in Targets(adj) by {
              assert neighbor in adj[src];
            }
            StrictSubsetSmaller((Targets(adj) + {neighbor}) - visited', (Targets(old(adj)) + {src}) - visited);
          }
          ghost var adjPre := adj;
          var f, after := HasPathDfs(neighbor, dst, visited');
          assert Succ(adj, src) == Succ(adjPre, src);
          if f {
            ReachesStep(adj, src, neighbor, dst);
            return true, after;
          }
          visited' := after;
        }
      }
      found := false;
    }

    /** `hasPath(src, dst)`: whether some walk leads from `src` to `dst`, the empty one included. */
    method HasPath(src: int, dst: int) returns (found: bool)
      modifies this
      ensures SameEdges(adj, old(adj))
      ensures found <==> Reaches(old(adj), src, dst)
    {
      var visited;
      found, visited := HasPathDfs(src, dst, {});
      SameEdgesWalks(adj, old(adj), src, dst);
      if !found {
        if Reaches(adj, src, dst) {
          var p :| IsWalk(adj, src, p) && End(src, p) == dst;
          ClosedHoldsWalks(adj, visited, src, p);
        }
      }
    }
  }

  /** A path exists after adding its edges, and not before any edges exist unless it is empty. */
  method HasPathDemo() returns (selfLoop: bool, twoSteps: bool, backwards: bool, removed: bool, afterRemoval: bool)
    ensures selfLoop && twoSteps && !backwards && removed && !afterRemoval
  {
    var g := new Graph();
    ReachesSelf(g.adj, 7);
    selfLoop := g.HasPath(7, 7);
    assert Succ(g.adj, 1) == Succ(g.adj, 2) == Succ(g.adj, 3) == {} by {
      assert Succ(map[], 1) == Succ(map[], 2) == Succ(map[], 3) == {};
    }
    g.AddEdge(1, 2);
    g.AddEdge(2, 3);
    ghost var edges := g.adj;
    assert Succ(edges, 1) == {2} && Succ(edges, 2) == {3} && Succ(edges, 3) == {};
    ReachesSelf(g.adj, 3);
    ReachesStep(g.adj, 2, 3, 3);
    ReachesStep(g.adj, 1, 2, 3);
    twoSteps := g.HasPath(1, 3);
    assert Succ(g.adj, 3) == Succ(edges, 3);
    ClosedExcludes(g.adj, {3}, 3, 1);
    backwards := g.HasPath(3, 1);
    assert Succ(g.adj, 1) == Succ(edges, 1) && Succ(g.adj, 2) == Succ(edges, 2);
    removed := g.RemoveEdge(2, 3);
    assert Succ(g.adj, 1) == {2} && Succ(g.adj, 2) == {};
    ClosedExcludes(g.adj, {1, 2}, 1, 3);
    afterRemoval := g.HasPath(1, 3);
  }
}
