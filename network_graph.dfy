/**
 * The weighted network of neet/graph_unord.cpp: a map from node to its
 * outgoing weights, and a map from node to its `NodeInfo`. `addEdge`
 * creates missing endpoints with empty labels, then stores the weight;
 * it stores the reverse weight too when `is_directed` is set.
 */
module Network {
  import opened Options

  type Adj<N, W> = map<N, map<N, W>>

  /** `NodeInfo(id, label)`; the metadata map is not modelled. */
  datatype NodeInfo<N> = NodeInfo(id: N, nodeLabel: string)

  /** The weight stored for `u -> v`, if any, read without inserting. */
  function Lookup<N(!new), W>(adj: Adj<N, W>, u: N, v: N): Option<W> {
    if u in adj && v in adj[u] then Some(adj[u][v]) else None
  }

  /** `adj_list[s][d] = w`: the entry for `s` is created if missing, and only its `d` weight changes. */
  function SetWeight<N(!new), W>(adj: Adj<N, W>, s: N, d: N, w: W): (r: Adj<N, W>)
    ensures r.Keys == adj.Keys + {s}
    ensures forall u | u in r :: r[u].Keys == (if u in adj then adj[u].Keys else {}) + (if u == s then {d} else {})
    ensures forall u, v :: Lookup(r, u, v) == if u == s && v == d then Some(w) else Lookup(adj, u, v)
  {
    adj[s := (if s in adj then adj[s] else map[])[d := w]]
  }

  /** A node without an entry gains an empty one: no stored weight changes. */
  lemma EmptyRowKeepsWeights<N(!new), W>(adj: Adj<N, W>, x: N)
    requires x !in adj
    ensures forall u, v :: Lookup(adj[x := map[]], u, v) == Lookup(adj, u, v)
  {
  }

  /** Storing a weight between two of the nodes `k` keeps every row within `k`. */
  lemma StoreWithin<N(!new), W>(adj: Adj<N, W>, k: set<N>, s: N, d: N, w: W)
    requires adj.Keys == k && (forall u | u in adj :: adj[u].Keys <= k) && s in k && d in k
    ensures SetWeight(adj, s, d, w).Keys == k
    ensures forall u | u in SetWeight(adj, s, d, w) :: SetWeight(adj, s, d, w)[u].Keys <= k
  {
  }

  /** The weights after storing `s -> d`, and then `d -> s` as well when `back` holds. */
  lemma {:induction false} StoreLookups<N(!new), W>(adj: Adj<N, W>, s: N, d: N, w: W, back: bool, r: Adj<N, W>)
    requires r == if back then SetWeight(SetWeight(adj, s, d, w), d, s, w) else SetWeight(adj, s, d, w)
    ensures forall u, v :: (Lookup(r, u, v) ==
      if (u == s && v == d) || (back && u == d && v == s) then Some(w) else Lookup(adj, u, v))
  {
    var one := SetWeight(adj, s, d, w);
    forall u, v ensures Lookup(r, u, v) ==
      if (u == s && v == d) || (back && u == d && v == s) then Some(w) else Lookup(adj, u, v)
    {
      assert Lookup(one, u, v) == if u == s && v == d then Some(w) else Lookup(adj, u, v);
    }
  }

  /** Every stored weight has its reverse stored with the same value. */
  ghost predicate Symmetric<N(!new), W>(adj: Adj<N, W>) {
    forall u, v :: Lookup(adj, u, v) == Lookup(adj, v, u)
  }

  /** Storing a weight both ways keeps a symmetric map symmetric. */
  lemma SetBothKeepsSymmetric<N(!new), W>(adj: Adj<N, W>, s: N, d: N, w: W)
    requires Symmetric(adj)
    ensures Symmetric(SetWeight(SetWeight(adj, s, d, w), d, s, w))
  {
  }

  /** Storing one direction only breaks symmetry whenever the reverse weight differs. */
  lemma SetOneWayBreaksSymmetric<N(!new), W>(adj: Adj<N, W>, s: N, d: N, w: W)
    requires s != d && Lookup(adj, d, s) != Some(w)
    ensures !Symmetric(SetWeight(adj, s, d, w))
  {
    var r := SetWeight(adj, s, d, w);
    assert Lookup(r, s, d) == Some(w) != Lookup(r, d, s);
  }

  /** A later weight for the same pair replaces the earlier one. */
  lemma SetWeightOverwrites<N(!new), W>(adj: Adj<N, W>, s: N, d: N, w1: W, w2: W)
    ensures SetWeight(SetWeight(adj, s, d, w1), s, d, w2) == SetWeight(adj, s, d, w2)
  {
    var row := if s in adj then adj[s] else map[];
    assert row[d := w1][d := w2] == row[d := w2];
  }

  class NetworkGraph<N(==, !new), W> {
    var adj: Adj<N, W>
    var nodes: map<N, NodeInfo<N>>
    var isDirected: bool

    /** Every node has an adjacency entry and a record naming it, and every edge joins nodes. */
    ghost predicate Valid()
      reads this
    {
      && adj.Keys == nodes.Keys
      && (forall u | u in adj :: adj[u].Keys <= nodes.Keys)
      && (forall u | u in nodes :: nodes[u].id == u)
    }

    /** The weight of `u -> v`, if stored. */
    function Weight(u: N, v: N): (r: Option<W>)
      reads this
      requires Valid()
      ensures r.Some? ==> u in nodes && v in nodes
    {
      Lookup(adj, u, v)
    }

    /** `NetworkGraph(directed = true)`: no nodes, no edges. */
    constructor (directed: bool := true)
      ensures Valid() && isDirected == directed && adj == map[] && nodes == map[]
    {
      adj, nodes, isDirected := map[], map[], directed;
    }

    /** `addNode(node, label = "")`: a new node gets its record and no edges; an existing node is left as it is. */
    method AddNode(node: N, nodeLabel: string := "")
      requires Valid()
      modifies this
      ensures Valid() && isDirected == old(isDirected)
      ensures node in old(nodes) ==> nodes == old(nodes) && adj == old(adj)
      ensures node !in old(nodes) ==>
        nodes == old(nodes)[node := NodeInfo(node, nodeLabel)] && adj == old(adj)[node := map[]]
    {
      if node !in nodes {
        nodes := nodes[node := NodeInfo(node, nodeLabel)];
        adj := adj[node := map[]];
      }
    }

    /**
     * `addEdge(src, dst, weight)`: both endpoints become nodes (new ones
     * unlabelled), `src -> dst` gets `weight`, and so does `dst -> src` when
     * `isDirected` holds. No other weight changes.
     */
    method AddEdge(src: N, dst: N, weight: W)
      requires Valid()
      modifies this
      ensures Valid() && isDirected == old(isDirected)
      ensures nodes.Keys == old(nodes).Keys + {src, dst}
      ensures forall u | u in old(nodes) :: nodes[u] == old(nodes)[u]
      ensures src !in old(nodes) ==> nodes[src] == NodeInfo(src, "")
      ensures dst !in old(nodes) ==> nodes[dst] == NodeInfo(dst, "")
      ensures forall u, v :: (Lookup(adj, u, v) ==
        if (u == src && v == dst) || (isDirected && u == dst && v == src) then Some(weight)
        else Lookup(old(adj), u, v))
    {
      AddEndpoints(src, dst);
      ghost var before := adj;
      StoreWithin(adj, nodes.Keys, src, dst, weight);
      adj := SetWeight(adj, src, dst, weight);
      if isDirected {
        StoreWithin(adj, nodes.Keys, dst, src, weight);
        adj := SetWeight(adj, dst, src, weight);
      }
      StoreLookups(before, src, dst, weight, isDirected, adj);
    }

    /** The two `addNode` calls that open `addEdge`. */
    method AddEndpoints(src: N, dst: N)
      requires Valid()
      modifies this
      ensures Valid() && isDirected == old(isDirected)
      ensures nodes.Keys == adj.Keys == old(nodes).Keys + {src, dst}
      ensures forall u | u in old(nodes) :: nodes[u] == old(nodes)[u]
      ensures src !in old(nodes) ==> nodes[src] == NodeInfo(src, "")
      ensures dst !in old(nodes) ==> nodes[dst] == NodeInfo(dst, "")
      ensures forall u, v :: Lookup(adj, u, v) == Lookup(old(adj), u, v)
    {
      if src !in adj {
        EmptyRowKeepsWeights(adj, src);
      }
      AddNode(src);
      if dst !in adj {
        EmptyRowKeepsWeights(adj, dst);
      }
      AddNode(dst);
    }

    /**
     * `addEdge` with the flag read as its name says: the reverse weight is
     * stored for an undirected graph, which therefore stays symmetric.
     */
    method AddEdgeAsIntended(src: N, dst: N, weight: W)
      requires Valid()
      modifies this
      ensures Valid() && isDirected == old(isDirected)
      ensures nodes.Keys == old(nodes).Keys + {src, dst}
      ensures forall u | u in old(nodes) :: nodes[u] == old(nodes)[u]
      ensures src !in old(nodes) ==> nodes[src] == NodeInfo(src, "")
      ensures dst !in old(nodes) ==> nodes[dst] == NodeInfo(dst, "")
      ensures forall u, v :: (Lookup(adj, u, v) ==
        if (u == src && v == dst) || (!isDirected && u == dst && v == src) then Some(weight)
        else Lookup(old(adj), u, v))
      ensures !isDirected && Symmetric(old(adj)) ==> Symmetric(adj)
    {
      AddEndpoints(src, dst);
      ghost var before := adj;
      StoreWithin(adj, nodes.Keys, src, dst, weight);
      adj := SetWeight(adj, src, dst, weight);
      if !isDirected {
        StoreWithin(adj, nodes.Keys, dst, src, weight);
        adj := SetWeight(adj, dst, src, weight);
        if Symmetric(old(adj)) {
          assert Symmetric(before);
          SetBothKeepsSymmetric(before, src, dst, weight);
        }
      }
      StoreLookups(before, src, dst, weight, !isDirected, adj);
    }
  }

  /**
   * The first label sticks, `addEdge` labels new endpoints "", and a graph
   * built as directed stores the reverse weight while an undirected one does not.
   */
  method LabelsAndDirectionDemo() returns (labelA: string, labelB: string, directedBack: Option<int>, undirectedBack: Option<int>)
    ensures labelA == "Server A" && labelB == ""
    ensures directedBack == Some(10) && undirectedBack == None
  {
    var g := new NetworkGraph<string, int>();
    g.AddNode("A", "Server A");
    g.AddNode("A", "Other");
    g.AddEdge("A", "B", 10);
    labelA, labelB := g.nodes["A"].nodeLabel, g.nodes["B"].nodeLabel;
    directedBack := g.Weight("B", "A");
    var h := new NetworkGraph<string, int>(false);
    h.AddEdge("A", "B", 10);
    undirectedBack := h.Weight("B", "A");
  }
}
