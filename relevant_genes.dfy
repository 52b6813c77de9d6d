/** The subgraphs around the relevant genes: the node set made of the relevant
    genes and all their neighbours, and the colour given to each of its nodes
    (red for P08684, orange for the other relevant genes, blue for other 'P'
    identifiers, green for everything else). */
module RelevantGenes {
  import opened Wrappers
  import opened Graphs
  import opened NodeColouring

  /** The gene that every subgraph highlights. */
  const Highlight: Node := "P08684"

  /** The three lists of relevant genes: by degree centrality, by betweenness
      and by closeness. */
  const ByDegree: seq<Node> :=
    ["P08684", "P10635", "P11712", "P05177", "P33261", "P10632", "P20815", "DB00157", "P24941", "P20813"]
  const ByBetweenness: seq<Node> :=
    ["P08684", "P05177", "P10635", "P11712", "DB00157", "P00734", "P24941", "P05181", "P23219", "P10632"]
  const ByCloseness: seq<Node> :=
    ["P08684", "P11712", "P05177", "P10635", "P33261", "P10632", "P05181", "P20815", "P04798", "DB01136"]

  /** `G.neighbors(gene)` raises for a gene that is not a node of the graph. */
  datatype SubgraphError = NodeNotInGraph(node: Node)

  /** The neighbours of every gene of the list, gathered in list order; fails on
      the first gene that is not a node. */
  function Neighbourhoods(g: Graph, genes: seq<Node>): (r: Result<set<Node>, SubgraphError>)
    ensures r.Ok? <==> forall j :: 0 <= j < |genes| ==> genes[j] in g.adj
    ensures r.Err? ==> exists j :: 0 <= j < |genes| && genes[j] !in g.adj
                                   && r.error == NodeNotInGraph(genes[j])
                                   && forall l :: 0 <= l < j ==> genes[l] in g.adj
    ensures r.Ok? ==> forall x :: x in r.value <==>
                        exists j :: 0 <= j < |genes| && genes[j] in g.adj && x in g.adj[genes[j]]
  {
    if genes == [] then Ok({})
    else if genes[0] !in g.adj then Err(NodeNotInGraph(genes[0]))
    else
      match Neighbourhoods(g, genes[1..])
      case Err(e) =>
        assert forall j :: 1 <= j < |genes| ==> genes[1..][j - 1] == genes[j];
        Err(e)
      case Ok(rest) =>
        assert forall j :: 1 <= j < |genes| ==> genes[1..][j - 1] == genes[j];
        Ok(g.adj[genes[0]] + rest)
  }

  /** `set(relevant_genes) | set(neighbor for gene in relevant_genes for
      neighbor in G.neighbors(gene))`: the relevant genes and all their
      neighbours, or the error `G.neighbors` raises for a missing gene. */
  function SubgraphNodes(g: Graph, relevant: seq<Node>): (r: Result<set<Node>, SubgraphError>)
    ensures r.Ok? <==> forall j :: 0 <= j < |relevant| ==> relevant[j] in g.adj
    ensures r.Err? ==> exists j :: 0 <= j < |relevant| && relevant[j] !in g.adj
                                   && r.error == NodeNotInGraph(relevant[j])
                                   && forall l :: 0 <= l < j ==> relevant[l] in g.adj
    ensures r.Ok? ==> forall x :: x in r.value <==>
                        x in relevant
                        || exists j :: 0 <= j < |relevant| && relevant[j] in g.adj
                                       && x in g.adj[relevant[j]]
  {
    match Neighbourhoods(g, relevant)
    case Err(e) => Err(e)
    case Ok(ns) => Ok((set x | x in relevant) + ns)
  }

  /** In a well-formed graph the node set lies inside the graph, so the induced
      subgraph has exactly these nodes, and every node that is not itself
      relevant is adjacent to a relevant gene. */
  lemma SubgraphNodesInGraph(g: Graph, relevant: seq<Node>)
    requires WellFormed(g) && SubgraphNodes(g, relevant).Ok?
    ensures SubgraphNodes(g, relevant).value <= g.adj.Keys
    ensures Induced(g, SubgraphNodes(g, relevant).value).adj.Keys == SubgraphNodes(g, relevant).value
    ensures forall x :: x in SubgraphNodes(g, relevant).value && x !in relevant ==>
              exists j :: 0 <= j < |relevant| && relevant[j] in g.adj[x]
  {
    var s := SubgraphNodes(g, relevant).value;
    forall x | x in s ensures x in g.adj {
      if x !in relevant {
        var j :| 0 <= j < |relevant| && relevant[j] in g.adj && x in g.adj[relevant[j]];
      }
    }
    InducedSubgraph(g, s);
    forall x | x in s && x !in relevant
      ensures exists j :: 0 <= j < |relevant| && relevant[j] in g.adj[x]
    {
      var j :| 0 <= j < |relevant| && relevant[j] in g.adj && x in g.adj[relevant[j]];
      assert relevant[j] in g.adj[x];
    }
  }

  /** The colour of one subgraph node, by priority: P08684 first, then the
      relevant list, then the 'P' prefix. */
  function RelevanceColour(node: Node, relevant: seq<Node>): (c: Colour)
    ensures c == Red <==> node == Highlight
    ensures c == Orange <==> node != Highlight && node in relevant
    ensures c == Blue <==> node != Highlight && node !in relevant && |node| >= 1 && node[0] == 'P'
    ensures c == Green <==> node != Highlight && node !in relevant && !(|node| >= 1 && node[0] == 'P')
  {
    if node == Highlight then Red
    else if node in relevant then Orange
    else if "P" <= node then Blue
    else Green
  }

  /** The colour loop: one colour appended per subgraph node, in node order. */
  method SubgraphColours(nodes: seq<Node>, relevant: seq<Node>) returns (colours: seq<Colour>)
    ensures |colours| == |nodes|
    ensures forall i :: 0 <= i < |nodes| ==> colours[i] == RelevanceColour(nodes[i], relevant)
  {
    colours := [];
    for i := 0 to |nodes|
      invariant |colours| == i
      invariant forall j :: 0 <= j < i ==> colours[j] == RelevanceColour(nodes[j], relevant)
    {
      var node := nodes[i];
      if node == Highlight {
        colours := colours + [Red];
      } else if node in relevant {
        colours := colours + [Orange];
      } else if "P" <= node {
        colours := colours + [Blue];
      } else {
        colours := colours + [Green];
      }
    }
  }

  /** Every list holds P08684, and it is red whichever list is used; it is the
      only red node of a subgraph, since a subgraph's nodes are distinct. */
  lemma HighlightOnlyRed(nodes: seq<Node>, relevant: seq<Node>, i: nat, j: nat)
    requires Distinct(nodes) && i < |nodes| && j < |nodes|
    requires RelevanceColour(nodes[i], relevant) == Red && RelevanceColour(nodes[j], relevant) == Red
    ensures i == j && nodes[i] == Highlight
  {
  }

  /** A list of relevant genes as the script writes it: ten distinct
      identifiers with P08684 first, all of them 'P' gene identifiers except
      the one drug `drug`. */
  ghost predicate RankedList(list: seq<Node>, drug: Node) {
    && |list| == 10
    && Distinct(list)
    && list[0] == Highlight
    && drug in list
    && forall x :: x in list ==> (|x| >= 1 && x[0] == 'P' <==> x != drug)
  }

  /** The degree-centrality list holds the drug DB00157. */
  lemma ByDegreeShape()
    ensures RankedList(ByDegree, "DB00157")
  {
  }

  /** The betweenness list holds the drug DB00157 as well. */
  lemma ByBetweennessShape()
    ensures RankedList(ByBetweenness, "DB00157")
  {
  }

  /** The closeness list holds the drug DB01136 instead. */
  lemma ByClosenessShape()
    ensures RankedList(ByCloseness, "DB01136")
  {
  }

  /** "DB00157" is a relevant gene of the degree and betweenness lists, so it is
      orange there whatever its prefix; the closeness list does not hold it, so
      there it is coloured as a drug. */
  lemma ListsAndPriority()
    ensures Highlight in ByDegree && Highlight in ByBetweenness && Highlight in ByCloseness
    ensures RelevanceColour(Highlight, ByDegree) == Red
    ensures RelevanceColour("DB00157", ByDegree) == Orange
    ensures RelevanceColour("DB00157", ByBetweenness) == Orange
    ensures RelevanceColour("DB00157", ByCloseness) == Green
  {
    assert ByDegree[0] == Highlight && ByBetweenness[0] == Highlight && ByCloseness[0] == Highlight;
    assert ByDegree[7] == "DB00157" && ByBetweenness[4] == "DB00157";
  }

  /** A node outside the relevant list and other than P08684 that the whole-graph
      colouring calls a drug (a "DB" identifier) is a drug here too. */
  lemma DrugsGreenInBoth(node: Node, relevant: seq<Node>)
    requires node !in relevant && StartsWithDB(node)
    ensures NodeColour(node) == Green && RelevanceColour(node, relevant) == Green
  {
  }
}
