/** An undirected simple graph in the way networkx's `Graph` stores one: the
    nodes in the order they were first inserted, and for every node the set of
    its neighbours. A self-loop puts a node into its own neighbour set, and the
    degree counts it twice. */
module Graphs {

  type Node = string

  datatype Graph = Graph(nodes: seq<Node>, adj: map<Node, set<Node>>)

  predicate Distinct(s: seq<Node>) {
    forall i, j :: 0 <= i < j < |s| ==> s[i] != s[j]
  }

  /** The node list has no repeats and lists exactly the keys of the adjacency,
      every neighbour is a node, and adjacency is symmetric. */
  ghost predicate WellFormed(g: Graph) {
    && Distinct(g.nodes)
    && (forall x :: x in g.adj <==> x in g.nodes)
    && (forall x, y :: x in g.adj && y in g.adj[x] ==> y in g.adj && x in g.adj[y])
  }

  function Empty(): (g: Graph)
    ensures WellFormed(g) && g.nodes == [] && g.adj == map[]
  {
    Graph([], map[])
  }

  /** The undirected edges, each as the set of its endpoints ({x} for a self-loop). */
  ghost function Edges(g: Graph): set<set<Node>> {
    set x, y | x in g.adj && y in g.adj[x] :: {x, y}
  }

  // ---------------------------------------------------------------------------
  // Edge insertion (networkx Graph.add_edge)
  // ---------------------------------------------------------------------------

  /** Adds `x` at the end of the node order unless it is already a node. */
  function AddNode(g: Graph, x: Node): Graph {
    if x in g.adj then g else Graph(g.nodes + [x], g.adj[x := {}])
  }

  /** `add_edge(u, v)`: add `u`, then `v`, as nodes if they are new, then make
      them adjacent in both directions. */
  function WithEdge(g: Graph, u: Node, v: Node): (r: Graph)
    ensures r.adj.Keys == g.adj.Keys + {u, v}
    ensures v in r.adj[u] && u in r.adj[v]
    ensures g.nodes <= r.nodes
  {
    var h := AddNode(AddNode(g, u), v);
    var a := h.adj[u := h.adj[u] + {v}];
    Graph(h.nodes, a[v := a[v] + {u}])
  }

  /** What `WithEdge` does to each neighbour set: the old set (empty for a new
      node) plus the other endpoint, and nothing else changes. */
  lemma WithEdgeAdjacency(g: Graph, u: Node, v: Node, x: Node)
    requires x in WithEdge(g, u, v).adj
    ensures WithEdge(g, u, v).adj[x]
            == (if x in g.adj then g.adj[x] else {})
               + (if x == u then {v} else {}) + (if x == v then {u} else {})
  {
  }

  /** The nodes appended by `WithEdge` are the endpoints that were not nodes yet,
      `u` before `v`. */
  lemma WithEdgeNodes(g: Graph, u: Node, v: Node)
    ensures WithEdge(g, u, v).nodes
            == g.nodes + (if u in g.adj then [] else [u])
                       + (if v in g.adj || v == u then [] else [v])
  {
  }

  lemma WithEdgeWellFormed(g: Graph, u: Node, v: Node)
    requires WellFormed(g)
    ensures WellFormed(WithEdge(g, u, v))
  {
    var r := WithEdge(g, u, v);
    WithEdgeNodes(g, u, v);
    forall x | x in r.adj ensures r.adj[x] <= r.adj.Keys {
      WithEdgeAdjacency(g, u, v, x);
    }
    forall x, y | x in r.adj && y in r.adj[x] ensures y in r.adj && x in r.adj[y] {
      WithEdgeAdjacency(g, u, v, x);
      WithEdgeAdjacency(g, u, v, y);
    }
    forall i, j | 0 <= i < j < |r.nodes| ensures r.nodes[i] != r.nodes[j] {
      if j >= |g.nodes| {
        assert r.nodes[j] !in g.adj;
      }
    }
  }

  /** Inserting an edge that is already present, in either direction, changes
      nothing: duplicate rows collapse to one edge. */
  lemma WithEdgeIdempotent(g: Graph, u: Node, v: Node)
    requires WellFormed(g) && u in g.adj && v in g.adj[u]
    ensures WithEdge(g, u, v) == g
    ensures WithEdge(g, v, u) == g
  {
    var r := WithEdge(g, u, v);
    forall x | x in r.adj ensures r.adj[x] == g.adj[x] {
      WithEdgeAdjacency(g, u, v, x);
    }
    var r' := WithEdge(g, v, u);
    forall x | x in r'.adj ensures r'.adj[x] == g.adj[x] {
      WithEdgeAdjacency(g, v, u, x);
    }
  }

  /** An edge is present exactly when its endpoints are adjacent. */
  lemma EdgeMembership(g: Graph, u: Node, v: Node)
    requires WellFormed(g)
    ensures {u, v} in Edges(g) <==> u in g.adj && v in g.adj[u]
  {
    if {u, v} in Edges(g) {
      var a, b :| a in g.adj && b in g.adj[a] && {a, b} == {u, v};
      assert a in {u, v} && b in {u, v} && u in {a, b} && v in {a, b};
    }
  }

  /** Inserting the pair adds exactly the unordered edge {u, v}. */
  lemma WithEdgeEdges(g: Graph, u: Node, v: Node)
    requires WellFormed(g)
    ensures Edges(WithEdge(g, u, v)) == Edges(g) + {{u, v}}
  {
    var r := WithEdge(g, u, v);
    forall e | e in Edges(r) ensures e in Edges(g) + {{u, v}} {
      var a, b :| a in r.adj && b in r.adj[a] && e == {a, b};
      WithEdgeAdjacency(g, u, v, a);
      if a in g.adj && b in g.adj[a] {
        assert e in Edges(g);
      } else {
        assert (a == u && b == v) || (a == v && b == u);
        assert e == {u, v};
      }
    }
    forall e | e in Edges(g) + {{u, v}} ensures e in Edges(r) {
      if e == {u, v} {
        assert u in r.adj && v in r.adj[u];
      } else {
        var a, b :| a in g.adj && b in g.adj[a] && e == {a, b};
        WithEdgeAdjacency(g, u, v, a);
        assert a in r.adj && b in r.adj[a];
      }
    }
  }

  // ---------------------------------------------------------------------------
  // Degrees (networkx Graph.degree) and the handshake identity
  // ---------------------------------------------------------------------------

  /** networkx's degree: the number of neighbours, with a self-loop counted twice. */
  function Degree(adj: map<Node, set<Node>>, x: Node): nat {
    if x in adj then |adj[x]| + (if x in adj[x] then 1 else 0) else 0
  }

  /** `[d for n, d in G.degree()]`: the degrees in node order. */
  function DegreeSequence(g: Graph): (ds: seq<nat>)
    ensures |ds| == |g.nodes|
    ensures forall i :: 0 <= i < |ds| ==> ds[i] == Degree(g.adj, g.nodes[i])
  {
    seq(|g.nodes|, i requires 0 <= i < |g.nodes| => Degree(g.adj, g.nodes[i]))
  }

  function Sum(s: seq<int>): int {
    if s == [] then 0 else Sum(s[..|s| - 1]) + s[|s| - 1]
  }

  /** `G.number_of_edges()`: networkx computes it as half the degree sum, which
      is the number of distinct edges of a well-formed graph. */
  function NumberOfEdges(g: Graph): (m: int)
    ensures WellFormed(g) ==> m == |Edges(g)|
  {
    DegreeSumIsEven(g);
    Sum(DegreeSequence(g)) / 2
  }

  lemma DegreeSumIsEven(g: Graph)
    ensures WellFormed(g) ==> Sum(DegreeSequence(g)) == 2 * |Edges(g)|
  {
    if WellFormed(g) {
      Handshake(g);
    }
  }

  function Bump(x: Node, u: Node, v: Node): nat {
    (if x == u then 1 else 0) + (if x == v then 1 else 0)
  }

  lemma {:induction false} SumAppend(a: seq<int>, b: seq<int>)
    ensures Sum(a + b) == Sum(a) + Sum(b)
    decreases |b|
  {
    if b != [] {
      var k := |b| - 1;
      assert (a + b)[..|a + b| - 1] == a + b[..k];
      SumAppend(a, b[..k]);
    } else {
      assert a + b == a;
    }
  }

  lemma {:induction false} SumOfZeros(z: seq<int>)
    requires forall i :: 0 <= i < |z| ==> z[i] == 0
    ensures Sum(z) == 0
  {
    if z != [] {
      SumOfZeros(z[..|z| - 1]);
    }
  }

  /** Raising the entry of `u` and the entry of `v` by one each (by two when
      they coincide) raises the sum by one per endpoint listed. */
  lemma {:induction false} SumShift(a: seq<int>, b: seq<int>, ns: seq<Node>, u: Node, v: Node)
    requires |a| == |b| == |ns| && Distinct(ns)
    requires forall i :: 0 <= i < |ns| ==> a[i] == b[i] + Bump(ns[i], u, v)
    ensures Sum(a) == Sum(b) + (if u in ns then 1 else 0) + (if v in ns then 1 else 0)
  {
    if ns != [] {
      var k := |ns| - 1;
      var p := ns[..k];
      SumShift(a[..k], b[..k], p, u, v);
      assert ns == p + [ns[k]];
      assert ns[k] !in p;
      assert (u in ns) <==> (u in p || u == ns[k]);
      assert (v in ns) <==> (v in p || v == ns[k]);
    }
  }

  /** Inserting a new edge raises the degree of each endpoint by one (a new
      self-loop raises it by two) and leaves every other degree alone. */
  lemma WithEdgeDegree(g: Graph, u: Node, v: Node, x: Node)
    requires WellFormed(g) && {u, v} !in Edges(g)
    ensures Degree(WithEdge(g, u, v).adj, x) == Degree(g.adj, x) + Bump(x, u, v)
  {
    EdgeMembership(g, u, v);
    var r := WithEdge(g, u, v);
    if x in r.adj {
      WithEdgeAdjacency(g, u, v, x);
      var before := if x in g.adj then g.adj[x] else {};
      assert Degree(g.adj, x) == |before| + (if x in before then 1 else 0);
      if x == u {
        assert v !in before;
        InsertDegree(before, x, v);
        if u != v {
          assert r.adj[x] == before + {v};
        }
      } else if x == v {
        assert u !in before;
        InsertDegree(before, x, u);
        assert r.adj[x] == before + {u};
      } else {
        assert r.adj[x] == before;
      }
    }
  }

  lemma InsertDegree(s: set<Node>, x: Node, w: Node)
    requires w !in s
    ensures |s + {w}| + (if x in s + {w} then 1 else 0)
            == |s| + (if x in s then 1 else 0) + 1 + (if w == x then 1 else 0)
  {
  }

  /** The degrees of `g` listed over the nodes of `WithEdge(g, u, v)` add up to
      the degree sum of `g`: the appended nodes had degree zero. */
  lemma WithEdgeOldDegrees(g: Graph, u: Node, v: Node)
    requires WellFormed(g)
    ensures var r := WithEdge(g, u, v);
            Sum(seq(|r.nodes|, i requires 0 <= i < |r.nodes| => Degree(g.adj, r.nodes[i])))
            == Sum(DegreeSequence(g))
  {
    var r := WithEdge(g, u, v);
    WithEdgeNodes(g, u, v);
    var b := seq(|r.nodes|, i requires 0 <= i < |r.nodes| => Degree(g.adj, r.nodes[i]));
    var n := |g.nodes|;
    assert b == DegreeSequence(g) + b[n..];
    forall i | 0 <= i < |b[n..]| ensures b[n..][i] == 0 {
      assert r.nodes[n + i] !in g.adj;
    }
    SumOfZeros(b[n..]);
    SumAppend(DegreeSequence(g), b[n..]);
  }

  /** Inserting a new edge raises the degree sum by exactly two. */
  lemma WithEdgeDegreeSum(g: Graph, u: Node, v: Node)
    requires WellFormed(g) && {u, v} !in Edges(g)
    ensures Sum(DegreeSequence(WithEdge(g, u, v))) == Sum(DegreeSequence(g)) + 2
  {
    var r := WithEdge(g, u, v);
    WithEdgeOldDegrees(g, u, v);
    WithEdgeWellFormed(g, u, v);
    var b := seq(|r.nodes|, i requires 0 <= i < |r.nodes| => Degree(g.adj, r.nodes[i]));
    var a := DegreeSequence(r);
    forall i | 0 <= i < |r.nodes| ensures a[i] == b[i] + Bump(r.nodes[i], u, v) {
      WithEdgeDegree(g, u, v, r.nodes[i]);
    }
    assert u in r.adj && v in r.adj;
    SumShift(a, b, r.nodes, u, v);
  }

  /** Removes one present edge, keeping both endpoints as nodes. */
  function RemoveEdge(g: Graph, u: Node, v: Node): Graph
    requires WellFormed(g) && u in g.adj && v in g.adj[u]
  {
    var a := g.adj[u := g.adj[u] - {v}];
    Graph(g.nodes, a[v := a[v] - {u}])
  }

  lemma RemoveEdgeFacts(g: Graph, u: Node, v: Node)
    requires WellFormed(g) && u in g.adj && v in g.adj[u]
    ensures WellFormed(RemoveEdge(g, u, v))
    ensures {u, v} !in Edges(RemoveEdge(g, u, v))
    ensures WithEdge(RemoveEdge(g, u, v), u, v) == g
  {
    var h := RemoveEdge(g, u, v);
    assert h.adj.Keys == g.adj.Keys;
    forall x, y | x in h.adj && y in h.adj[x] ensures y in h.adj && x in h.adj[y] {
      assert y in g.adj[x];
    }
    assert WellFormed(h);
    EdgeMembership(h, u, v);
    var r := WithEdge(h, u, v);
    forall x | x in r.adj ensures r.adj[x] == g.adj[x] {
      WithEdgeAdjacency(h, u, v, x);
    }
  }

  /** The handshake identity: in every well-formed graph the degrees add up to
      twice the number of distinct edges (a self-loop contributes two). */
  lemma {:induction false} Handshake(g: Graph)
    requires WellFormed(g)
    ensures Sum(DegreeSequence(g)) == 2 * |Edges(g)|
    decreases |Edges(g)|
  {
    if u :| u in g.adj && g.adj[u] != {} {
      var v :| v in g.adj[u];
      var h := RemoveEdge(g, u, v);
      RemoveEdgeFacts(g, u, v);
      WithEdgeEdges(h, u, v);
      assert Edges(h) == Edges(g) - {{u, v}};
      assert |Edges(h)| == |Edges(g)| - 1;
      Handshake(h);
      WithEdgeDegreeSum(h, u, v);
    } else {
      assert Edges(g) == {};
      SumOfZeros(DegreeSequence(g));
    }
  }

  /** networkx's `number_of_edges`, half the degree sum, is the number of
      distinct edges: the degree sum is always even. */
  lemma NumberOfEdgesIsEdgeCount(g: Graph)
    requires WellFormed(g)
    ensures NumberOfEdges(g) == |Edges(g)|
    ensures Sum(DegreeSequence(g)) == 2 * NumberOfEdges(g)
  {
    Handshake(g);
  }

  // ---------------------------------------------------------------------------
  // Induced subgraphs (networkx G.subgraph(nodes).copy())
  // ---------------------------------------------------------------------------

  function Keep(ns: seq<Node>, s: set<Node>): (r: seq<Node>)
    ensures forall x :: x in r <==> x in ns && x in s
    ensures |r| <= |ns|
    ensures Distinct(ns) ==> Distinct(r)
  {
    if ns == [] then []
    else
      var rest := Keep(ns[..|ns| - 1], s);
      var x := ns[|ns| - 1];
      assert ns == ns[..|ns| - 1] + [x];
      if x in s then rest + [x] else rest
  }

  /** The subgraph induced by `s`: the nodes of `g` that are in `s` and the
      edges of `g` between them. The nodes are listed in `g`'s order, a choice
      of this model: networkx may list them in the order of `s` instead. */
  function Induced(g: Graph, s: set<Node>): (r: Graph)
    ensures forall x :: x in r.adj <==> x in g.adj && x in s
  {
    Graph(Keep(g.nodes, s), map x | x in g.adj && x in s :: g.adj[x] * s)
  }

  /** The induced subgraph is a well-formed graph with no more nodes than `g`
      whose every edge is an edge of `g`. */
  lemma InducedSubgraph(g: Graph, s: set<Node>)
    requires WellFormed(g)
    ensures WellFormed(Induced(g, s))
    ensures |Induced(g, s).nodes| <= |g.nodes|
    ensures Edges(Induced(g, s)) == set e | e in Edges(g) && e <= s
    ensures s <= g.adj.Keys ==> Induced(g, s).adj.Keys == s
  {
    var r := Induced(g, s);
    forall e | e in Edges(r) ensures e in Edges(g) && e <= s {
      var a, b :| a in r.adj && b in r.adj[a] && e == {a, b};
      assert a in g.adj && b in g.adj[a];
    }
    forall e | e in Edges(g) && e <= s ensures e in Edges(r) {
      var a, b :| a in g.adj && b in g.adj[a] && e == {a, b};
      assert a in s && b in s;
      assert a in r.adj && b in r.adj[a];
    }
  }

  // ---------------------------------------------------------------------------
  // The mutable graph of the scripts (`G = nx.Graph()` then `G.add_edge`)
  // ---------------------------------------------------------------------------

  class MutableGraph {
    var nodes: seq<Node>
    var adj: map<Node, set<Node>>

    function View(): Graph
      reads this
    {
      Graph(nodes, adj)
    }

    ghost predicate Valid()
      reads this
    {
      WellFormed(View())
    }

    constructor ()
      ensures Valid() && View() == Empty()
    {
      nodes, adj := [], map[];
    }

    /** `G.add_edge(u, v)` */
    method AddEdge(u: Node, v: Node)
      requires Valid()
      modifies this
      ensures Valid()
      ensures View() == WithEdge(old(View()), u, v)
    {
      WithEdgeWellFormed(View(), u, v);
      if u !in adj {
        nodes := nodes + [u];
        adj := adj[u := {}];
      }
      if v !in adj {
        nodes := nodes + [v];
        adj := adj[v := {}];
      }
      adj := adj[u := adj[u] + {v}];
      adj := adj[v := adj[v] + {u}];
    }
  }
}
