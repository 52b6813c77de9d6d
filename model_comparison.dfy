/** The bookkeeping of the model-comparison script: the largest connected
    component rule, the average degree, and the parameters handed to the four
    random-graph generators (Erdős–Rényi, Barabási–Albert, Watts–Strogatz and
    random regular), derived from the node count n and edge count e. */
module ModelComparison {
  import opened Wrappers
  import opened Graphs

  /** An exact ratio; the script computes these with float division. */
  datatype Fraction = Fraction(num: int, den: nat)

  datatype ScriptError =
    | EmptyMax          // `max()` of an empty sequence of components raises ValueError
    | ZeroDivision      // a division by a zero node count
    | PointlessConcept  // `nx.is_connected` raises on the graph with no nodes

  // ---------------------------------------------------------------------------
  // Python's round(): to the nearest integer, halves to the even neighbour
  // ---------------------------------------------------------------------------

  /** `round(num / den)` for a non-negative ratio. */
  function RoundHalfEven(num: nat, den: nat): (r: nat)
    requires den > 0
    ensures 2 * num - den <= 2 * den * r <= 2 * num + den
    ensures (2 * den * r == 2 * num - den || 2 * den * r == 2 * num + den) ==> r % 2 == 0
  {
    var q, rem := num / den, num % den;
    assert num == den * q + rem;
    assert 2 * den * (q + 1) == 2 * num - 2 * rem + 2 * den;
    if 2 * rem < den then q
    else if 2 * rem > den then q + 1
    else if q % 2 == 0 then q
    else q + 1
  }

  lemma DistanceAtMostOne(den: nat, d: int)
    requires den > 0 && -2 * den <= 2 * den * d <= 2 * den
    ensures -1 <= d <= 1
  {
  }

  lemma ScaledUnit(den: nat, d: int)
    ensures d == 1 ==> 2 * den * d == 2 * den
    ensures d == -1 ==> 2 * den * d == -2 * den
  {
  }

  /** The nearest-integer and ties-to-even conditions pin the result down: no
      other integer meets them. */
  lemma RoundHalfEvenUnique(num: nat, den: nat, x: int)
    requires den > 0
    requires 2 * num - den <= 2 * den * x <= 2 * num + den
    requires (2 * den * x == 2 * num - den || 2 * den * x == 2 * num + den) ==> x % 2 == 0
    ensures x == RoundHalfEven(num, den)
  {
    var r := RoundHalfEven(num, den);
    var d := x - r;
    assert 2 * den * x == 2 * den * r + 2 * den * d;
    DistanceAtMostOne(den, d);
    ScaledUnit(den, d);
  }

  // ---------------------------------------------------------------------------
  // Parameter calibration
  // ---------------------------------------------------------------------------

  /** Barabási–Albert: `m = max(1, round(e / n))`, the edges each new node brings. */
  function AttachmentCount(n: nat, e: nat): (m: nat)
    requires n > 0
    ensures m >= 1
    ensures m == RoundHalfEven(e, n) || (RoundHalfEven(e, n) == 0 && m == 1)
  {
    var r := RoundHalfEven(e, n);
    if r < 1 then 1 else r
  }

  /** The attachment count falls back to its floor of one exactly when the
      graph has fewer than one and a half edges per node. */
  lemma AttachmentIsOneIff(n: nat, e: nat)
    requires n > 0
    ensures AttachmentCount(n, e) == 1 <==> 2 * e < 3 * n
  {
    var r := RoundHalfEven(e, n);
    if 2 * e < 3 * n {
      assert 2 * n * r < 2 * n * 2;
    } else if 2 * e > 3 * n {
      assert 2 * n * r > 2 * n * 1;
    }
  }

  /** `max(2, round(2 * e / n))`, before the parity correction. */
  function BaseDegree(n: nat, e: nat): (b: nat)
    requires n > 0
    ensures b >= 2
  {
    var r := RoundHalfEven(2 * e, n);
    if r < 2 then 2 else r
  }

  /** The least even number that is at least the base degree. */
  function EvenDegree(n: nat, e: nat): (k: nat)
    requires n > 0
    ensures k % 2 == 0 && k >= 2
    ensures k == BaseDegree(n, e) || k == BaseDegree(n, e) + 1
    ensures BaseDegree(n, e) % 2 == 0 ==> k == BaseDegree(n, e)
  {
    2 * ((BaseDegree(n, e) + 1) / 2)
  }

  /** Watts–Strogatz ring degree `k` and regular degree `k_reg`: the base
      degree, then `k += 1` when it is odd. */
  method RingDegree(n: nat, e: nat) returns (k: nat)
    requires n > 0
    ensures k == EvenDegree(n, e)
  {
    k := RoundHalfEven(2 * e, n);
    if k < 2 {
      k := 2;
    }
    if k % 2 != 0 {
      k := k + 1;
    }
  }

  /** When the rounded average degree is at least two, the ring degree is
      within three halves of the average degree 2e/n, above or below by at
      most the rounding and the parity step. */
  lemma EvenDegreeNearAverage(n: nat, e: nat)
    requires n > 0 && RoundHalfEven(2 * e, n) >= 2
    ensures 4 * e - n <= 2 * n * EvenDegree(n, e) <= 4 * e + 3 * n
  {
    var r := RoundHalfEven(2 * e, n);
    var k := EvenDegree(n, e);
    assert k == r || k == r + 1;
    assert 2 * n * (r + 1) == 2 * n * r + 2 * n;
  }

  /** The regular degree is even, so `k_reg * n` is even for every n: the
      parity condition of the regular-graph generator never fails here. */
  lemma RegularParity(n: nat, e: nat)
    requires n > 0
    ensures (EvenDegree(n, e) * n) % 2 == 0
  {
    var k := EvenDegree(n, e);
    assert k * n == 2 * ((k / 2) * n);
  }

  datatype Parameters = Parameters(
    p: Fraction,       // Erdős–Rényi edge probability e / (n (n - 1))
    m: nat,            // Barabási–Albert attachment count
    k: nat,            // Watts–Strogatz ring degree
    rewire: Fraction,  // Watts–Strogatz rewiring probability
    kReg: nat)         // degree of the random regular graph

  /** The four generators' parameters for a graph with n >= 2 nodes and e edges. */
  function Calibrated(n: nat, e: nat): (c: Parameters)
    requires n >= 2
    ensures c.p == Fraction(e, n * (n - 1))
    ensures c.m >= 1 && c.k >= 2 && c.k % 2 == 0 && c.kReg == c.k
    ensures c.m == AttachmentCount(n, e) && c.k == EvenDegree(n, e)
    ensures c.rewire == Fraction(1, 10)
  {
    var k := EvenDegree(n, e);
    Parameters(Fraction(e, n * (n - 1)), AttachmentCount(n, e), k, Fraction(1, 10), k)
  }

  // ---------------------------------------------------------------------------
  // The largest connected component
  // ---------------------------------------------------------------------------

  /** `comps` lists the connected components of a graph on `nodes`: non-empty,
      pairwise disjoint sets of nodes that cover every node. */
  ghost predicate IsPartition(nodes: set<Node>, comps: seq<set<Node>>) {
    && (forall i :: 0 <= i < |comps| ==> |comps[i]| > 0 && comps[i] <= nodes)
    && (forall i, j :: 0 <= i < j < |comps| ==> comps[i] !! comps[j])
    && nodes <= UnionOf(comps)
  }

  function UnionOf(comps: seq<set<Node>>): set<Node> {
    if comps == [] then {} else UnionOf(comps[..|comps| - 1]) + comps[|comps| - 1]
  }

  lemma PartitionEmpty(nodes: set<Node>, comps: seq<set<Node>>)
    requires IsPartition(nodes, comps)
    ensures comps == [] <==> nodes == {}
  {
    if comps != [] {
      var x :| x in comps[0];
      assert x in nodes;
    }
  }

  /** `max(components, key=len)`: the position of the first component of the
      largest size, as Python's `max` keeps the first of equal keys. */
  function FirstLargestIndex(comps: seq<set<Node>>): (i: nat)
    requires |comps| > 0
    ensures i < |comps|
    ensures forall j :: 0 <= j < |comps| ==> |comps[j]| <= |comps[i]|
    ensures forall j :: 0 <= j < i ==> |comps[j]| < |comps[i]|
  {
    if |comps| == 1 then 0
    else
      var i := FirstLargestIndex(comps[..|comps| - 1]);
      var last := |comps| - 1;
      assert forall j :: 0 <= j < last ==> comps[..last][j] == comps[j];
      if |comps[last]| > |comps[i]| then last else i
  }

  /** `max(nx.connected_components(G), key=len)`, which fails on a graph with
      no nodes. */
  function LargestComponent(comps: seq<set<Node>>): (r: Result<set<Node>, ScriptError>)
    ensures r.Ok? <==> comps != []
    ensures r.Err? ==> r.error == EmptyMax
    ensures r.Ok? ==> r.value == comps[FirstLargestIndex(comps)]
  {
    if comps == [] then Err(EmptyMax) else Ok(comps[FirstLargestIndex(comps)])
  }

  /** `nx.is_connected`: the component of the first node, which networkx also
      lists first, holds every node. */
  predicate IsConnected(nodes: set<Node>, comps: seq<set<Node>>) {
    |comps| > 0 && |comps[0]| == |nodes|
  }

  lemma SubsetSize(a: set<Node>, b: set<Node>)
    requires a <= b
    ensures |a| <= |b|
    ensures |a| == |b| ==> a == b
  {
    assert b == a + (b - a);
    assert |b| == |a| + |b - a|;
  }

  /** The component whose path length a generated model reports: the whole
      graph when it is connected, otherwise the first largest component. */
  function ModelLcc(nodes: set<Node>, comps: seq<set<Node>>): (r: Result<set<Node>, ScriptError>)
    requires IsPartition(nodes, comps)
    ensures r.Ok? <==> nodes != {}
    ensures r.Err? ==> r.error == PointlessConcept
    ensures r.Ok? ==> r.value <= nodes && |r.value| <= |nodes|
    ensures r.Ok? ==> forall j :: 0 <= j < |comps| ==> |comps[j]| <= |r.value|
    ensures r.Ok? && IsConnected(nodes, comps) ==> r.value == nodes
    ensures r.Ok? && !IsConnected(nodes, comps) ==> r.value == comps[FirstLargestIndex(comps)]
  {
    PartitionEmpty(nodes, comps);
    if nodes == {} then Err(PointlessConcept)
    else if IsConnected(nodes, comps) then
      assert forall j :: 0 <= j < |comps| ==> comps[j] <= nodes;
      SubsetSizes(nodes, comps);
      Ok(nodes)
    else
      var i := FirstLargestIndex(comps);
      SubsetSize(comps[i], nodes);
      Ok(comps[i])
  }

  lemma SubsetSizes(nodes: set<Node>, comps: seq<set<Node>>)
    requires forall j :: 0 <= j < |comps| ==> comps[j] <= nodes
    ensures forall j :: 0 <= j < |comps| ==> |comps[j]| <= |nodes|
  {
    forall j | 0 <= j < |comps| ensures |comps[j]| <= |nodes| {
      SubsetSize(comps[j], nodes);
    }
  }

  /** The `is_connected` shortcut changes nothing: a connected graph has a
      single component, so `max(..., key=len)` would have chosen the whole
      graph as well. */
  lemma ConnectedShortcutAgrees(nodes: set<Node>, comps: seq<set<Node>>)
    requires IsPartition(nodes, comps) && nodes != {}
    ensures ModelLcc(nodes, comps) == LargestComponent(comps)
  {
    PartitionEmpty(nodes, comps);
    var r := ModelLcc(nodes, comps);
    if IsConnected(nodes, comps) {
      var i := FirstLargestIndex(comps);
      assert |comps[i]| >= |comps[0]| == |nodes|;
      SubsetSize(comps[i], nodes);
      assert r == Ok(nodes);
      assert LargestComponent(comps) == Ok(comps[i]);
    } else {
      assert r == Ok(comps[FirstLargestIndex(comps)]);
    }
  }

  // ---------------------------------------------------------------------------
  // Average degree and the script's order of evaluation
  // ---------------------------------------------------------------------------

  /** `sum(degree_sequence) / len(degree_sequence)` */
  function AverageDegree(g: Graph): (r: Result<Fraction, ScriptError>)
    ensures r.Ok? <==> |g.nodes| > 0
    ensures r.Err? ==> r.error == ZeroDivision
    ensures r.Ok? ==> r.value.den == |g.nodes|
  {
    var ds := DegreeSequence(g);
    if |ds| == 0 then Err(ZeroDivision) else Ok(Fraction(Sum(ds), |ds|))
  }

  /** The average degree is twice the number of distinct edges over the number
      of nodes, for the original graph and for every generated one. */
  lemma AverageDegreeIsTwiceEdges(g: Graph)
    requires WellFormed(g) && |g.nodes| > 0
    ensures AverageDegree(g) == Ok(Fraction(2 * |Edges(g)|, |g.nodes|))
    ensures AverageDegree(g) == Ok(Fraction(2 * NumberOfEdges(g), |g.nodes|))
  {
    NumberOfEdgesIsEdgeCount(g);
  }

  lemma NoNodesNoKeys(g: Graph)
    requires WellFormed(g)
    ensures g.adj.Keys == {} <==> |g.nodes| == 0
  {
    if |g.nodes| > 0 {
      assert g.nodes[0] in g.adj;
    }
  }

  lemma ProductZero(n: nat)
    ensures n * (n - 1) == 0 <==> n <= 1
  {
    if n >= 2 {
      assert n * (n - 1) >= n;
    }
  }

  datatype Analysis = Analysis(
    lcc: Graph,              // G_lcc, the subgraph induced by the largest component
    averageDegree: Fraction,
    params: Parameters)

  /** The script from the graph to the generator parameters, failing where
      Python would: first `max()` on the components, then the division by the
      node count for the average degree, then the division by n (n - 1) for
      the Erdős–Rényi probability. */
  function Analyse(g: Graph, comps: seq<set<Node>>): (r: Result<Analysis, ScriptError>)
    requires WellFormed(g) && IsPartition(g.adj.Keys, comps)
    ensures |g.nodes| == 0 ==> r == Err(EmptyMax)
    ensures |g.nodes| == 1 ==> r == Err(ZeroDivision)
    ensures r.Ok? <==> |g.nodes| >= 2
    ensures r.Ok? ==> |comps| > 0
    ensures r.Ok? ==> var i := FirstLargestIndex(comps);
                      && r.value.lcc == Induced(g, comps[i])
                      && r.value.lcc.adj.Keys == comps[i]
                      && (forall j :: 0 <= j < |comps| ==> |comps[j]| <= |comps[i]|)
                      && WellFormed(r.value.lcc)
                      && |r.value.lcc.nodes| <= |g.nodes|
                      && Edges(r.value.lcc) == set e | e in Edges(g) && e <= comps[i]
    ensures r.Ok? ==> r.value.averageDegree == Fraction(2 * |Edges(g)|, |g.nodes|)
    ensures r.Ok? ==> r.value.params == Calibrated(|g.nodes|, |Edges(g)|)
  {
    PartitionEmpty(g.adj.Keys, comps);
    NoNodesNoKeys(g);
    match LargestComponent(comps)
    case Err(err) => Err(err)
    case Ok(largest) =>
      match AverageDegree(g)
      case Err(err) => Err(err)
      case Ok(avg) =>
        var n := |g.nodes|;
        ProductZero(n);
        if n * (n - 1) == 0 then Err(ZeroDivision)
        else
          AverageDegreeIsTwiceEdges(g);
          InducedSubgraph(g, largest);
          Ok(Analysis(Induced(g, largest), avg, Calibrated(n, NumberOfEdges(g))))
  }
}
