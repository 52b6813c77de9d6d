# Drug–gene interaction networks: a verified model

The three scripts of this repository read a table of drug–gene interactions
(ChG-Miner), build an undirected networkx graph from it and then either draw
it, draw subgraphs around lists of relevant genes, or compare it with four
random-graph models. The model covers the logic the scripts write
themselves:

- **Graph construction** (`Graphs`, `Interactions`): a networkx-style
  undirected graph (nodes in insertion order, a neighbour set per node, a
  self-loop counted twice in the degree), `add_edge` on a mutable graph, and
  the loop that turns the rows into edges, skipping every row with a missing
  Drug or Gene field. Proved: symmetry, every endpoint is a node, idempotent
  re-insertion, skipped rows add nothing, duplicate rows collapse, the edges
  and nodes are exactly those named by complete rows, and the handshake
  identity (degree sum = 2 × number of distinct edges) for every well-formed
  graph.
- **Colouring** (`NodeColouring`, `RelevantGenes`): `get_node_color` of the
  whole-graph drawing, the relevant-gene lists, the node set "relevant genes
  ∪ their neighbours" of `plot_subgraph`, with the error `G.neighbors` raises
  for a gene that is not in the graph, and the priority colouring red /
  orange / blue / green.
- **Model comparison** (`ModelComparison`): Python's half-to-even `round`,
  the Barabási–Albert attachment count, the Watts–Strogatz and regular
  degrees with their parity correction, the largest-component rule (whole
  graph when connected, otherwise the first component of maximal size), the
  average degree and the order in which the script fails on graphs with zero
  or one node.

`Analyse` follows `comp_modelos.py` from the graph to the generator
parameters. For a graph with no nodes the first failure is the `max()` of an
empty sequence of components at line 26, not the division at line 33 that
comes later; with one node it is the division by `n (n - 1)` at line 48. The
model follows the code's order.

The Erdős–Rényi probability is modelled as the code writes it,
`e / (n (n - 1))`. For an undirected graph the density is `2e / (n (n - 1))`,
so the generated graph has about half as many edges as the original; the
model keeps the source's value and does not treat it as a defect.

## Model

| member | source | states |
|---|---|---|
| Graphs.WithEdge | grafo_colorido.py:21 | the value of `add_edge(u, v)`: the nodes are the old ones plus u and v, v is a neighbour of u and u of v, and the old node order is a prefix of the new one |
| Graphs.MutableGraph.AddEdge | genes_relevantes.py:23 | `G.add_edge(u, v)` keeps the graph well formed and its new value is the edge insertion `WithEdge` of the old one (new endpoints appended to the node order, both directions added) |
| Graphs.WithEdgeWellFormed | grafo_colorido.py:21 | inserting an edge keeps adjacency symmetric, every neighbour a node and the node list free of repeats |
| Graphs.WithEdgeIdempotent | genes_relevantes.py:23 | inserting a pair that is already an edge, in either order, leaves the graph unchanged |
| Graphs.WithEdgeEdges | grafo_colorido.py:21 | the edge set after insertion is the old edge set plus exactly the pair {u, v} |
| Graphs.DegreeSequence | comp_modelos.py:32 | one entry per node, in node order, entry i being the degree of node i with a self-loop counted twice |
| Graphs.Handshake | comp_modelos.py:32-33 | in every well-formed graph the degree sequence sums to twice the number of distinct edges, a self-loop contributing two |
| Graphs.NumberOfEdges | comp_modelos.py:23 | half the degree sum is, for a well-formed graph, the number of distinct edges |
| Graphs.NumberOfEdgesIsEdgeCount | comp_modelos.py:23 | `number_of_edges`, half the degree sum, is the number of distinct edges, and the degree sum is even |
| Graphs.Induced | genes_relevantes.py:36-40 | a node belongs to the induced subgraph exactly when it is a node of the graph and in the given set |
| Graphs.InducedSubgraph | comp_modelos.py:27-29 | the subgraph induced by a node set is well formed, has no more nodes than the graph, has exactly the edges of the graph with both ends in the set, and exactly the given nodes when they all belong to the graph |
| Interactions.BuildGraph | genes_relevantes.py:18-23 | the insertion loop yields a fresh well-formed graph equal to the row-by-row fold `FromRows` of the rows |
| Interactions.CompleteRows | grafo_colorido.py:20 | the rows kept by the filter are exactly the rows with both fields present |
| Interactions.AddRow | grafo_colorido.py:20-21 | one iteration keeps the graph well formed; a complete row makes its two ids adjacent in both directions and adds exactly its pair to the edges, any other row changes nothing |
| Interactions.FromRows | grafo_colorido.py:16-21 | the graph built from any rows is symmetric, has every endpoint as a node and no repeated node |
| Interactions.FromRowsEdges | genes_relevantes.py:21-23 | the edges of the built graph are exactly the pairs named by complete rows |
| Interactions.FromRowsNodes | genes_relevantes.py:22-23 | the nodes are exactly the identifiers of complete rows: a row with a missing field adds no node |
| Interactions.FromRowsAdjacency | grafo_colorido.py:21 | two identifiers are adjacent exactly when some complete row names them, in either order, and adjacency is symmetric |
| Interactions.SkippedRowsAddNothing | grafo_colorido.py:20-21 | building from the complete rows alone gives the same graph, node order included |
| Interactions.DuplicateRowCollapses | grafo_colorido.py:19-21 | a row repeating an earlier complete row's pair, in either order, leaves the graph unchanged |
| NodeColouring.NodeColour | grafo_colorido.py:24-28 | the colour is green exactly when the identifier starts with "DB", and is always green or blue |
| NodeColouring.DButNotDBIsBlue | grafo_colorido.py:25-28 | an identifier starting with 'D' but not with "DB" is blue |
| NodeColouring.NodeColours | grafo_colorido.py:30 | one colour per node, in node order, entry i being the colour of node i |
| RelevantGenes.Neighbourhoods | genes_relevantes.py:38 | succeeds exactly when every gene is a node, fails naming the first gene that is not, and otherwise holds exactly the neighbours of the genes |
| RelevantGenes.SubgraphNodes | genes_relevantes.py:36-40 | the node set holds exactly the relevant genes and their neighbours, or the error for the first relevant gene missing from the graph |
| RelevantGenes.SubgraphNodesInGraph | genes_relevantes.py:36-40 | the node set lies in the graph, the induced subgraph has exactly these nodes, and every node that is not relevant is adjacent to a relevant gene |
| RelevantGenes.RelevanceColour | genes_relevantes.py:44-52 | red exactly for P08684, orange exactly for other relevant nodes, blue exactly for other 'P' identifiers, green exactly for the rest |
| RelevantGenes.SubgraphColours | genes_relevantes.py:43-52 | the colour loop appends one colour per subgraph node, in node order, entry i being the priority colour of node i |
| RelevantGenes.HighlightOnlyRed | genes_relevantes.py:45-46 | in a list of distinct nodes, at most one node is red and it is P08684 |
| RelevantGenes.ByDegreeShape | genes_relevantes.py:26-27 | the degree-centrality list has ten distinct ids, P08684 first, all 'P' gene ids except the drug DB00157 |
| RelevantGenes.ByBetweennessShape | genes_relevantes.py:28-29 | the betweenness list has ten distinct ids, P08684 first, all 'P' gene ids except the drug DB00157 |
| RelevantGenes.ByClosenessShape | genes_relevantes.py:30-31 | the closeness list has ten distinct ids, P08684 first, all 'P' gene ids except the drug DB01136 |
| RelevantGenes.ListsAndPriority | genes_relevantes.py:26-31 | P08684 is in all three lists and red; DB00157 is orange in the degree and betweenness subgraphs and green in the closeness one |
| RelevantGenes.DrugsGreenInBoth | genes_relevantes.py:49-52 | a non-relevant "DB" identifier is green in both the whole-graph and the subgraph colouring |
| ModelComparison.RoundHalfEven | comp_modelos.py:62 | `round(num / den)` is within one half of the quotient and even on a tie |
| ModelComparison.RoundHalfEvenUnique | comp_modelos.py:76 | any integer within one half of the quotient that is even on a tie is the rounded value |
| ModelComparison.AttachmentCount | comp_modelos.py:62 | `m` is at least one and is the rounded edges per node unless that rounds to zero |
| ModelComparison.AttachmentIsOneIff | comp_modelos.py:62 | `m` is one exactly when 2e < 3n |
| ModelComparison.BaseDegree | comp_modelos.py:76 | `max(2, round(2e / n))` is at least two |
| ModelComparison.EvenDegree | comp_modelos.py:76-78 | the ring degree is even, at least two, equal to the base degree or one more, and equal to it when the base degree is even |
| ModelComparison.RingDegree | comp_modelos.py:76-78 | the conditional increment computes exactly the even degree |
| ModelComparison.EvenDegreeNearAverage | comp_modelos.py:76-78 | when the rounded average degree is at least two, the ring degree differs from 2e/n by at most three halves |
| ModelComparison.RegularParity | comp_modelos.py:92-95 | `k_reg * n` is even for every n, so the regular generator's parity condition never fails |
| ModelComparison.Calibrated | comp_modelos.py:48-94 | the parameters: p = e / (n (n - 1)), m the attachment count (at least one), k the even ring degree (at least two), k_reg equal to k, rewiring 1/10 |
| ModelComparison.FirstLargestIndex | comp_modelos.py:26 | the chosen component is as large as every other and strictly larger than every one before it |
| ModelComparison.LargestComponent | comp_modelos.py:26 | `max(components, key=len)` fails on no components and otherwise picks the first largest |
| ModelComparison.ModelLcc | comp_modelos.py:50-54 | fails on an empty graph; otherwise the whole graph when connected and the first largest component when not, a subset of the nodes at least as large as every component |
| ModelComparison.ConnectedShortcutAgrees | comp_modelos.py:50-54 | on a non-empty graph the `is_connected` shortcut picks the same component as `max(..., key=len)` alone |
| ModelComparison.AverageDegree | comp_modelos.py:33 | fails with division by zero exactly when there are no nodes; otherwise its denominator is the node count |
| ModelComparison.AverageDegreeIsTwiceEdges | comp_modelos.py:58 | the average degree is twice the number of distinct edges over the node count |
| ModelComparison.Analyse | comp_modelos.py:22-48 | no nodes fails at `max()`, one node fails at the probability's division, at least two succeed with the LCC being the subgraph induced by the first largest component (its nodes, and every edge of the graph between them), average degree 2e/n and the calibrated parameters |

## Left out

- Reading the TSV file with pandas: the rows are the input, a missing field being `None`.
- `nx.from_pandas_edgelist` at comp_modelos.py:19: `Analyse` takes the graph as given; its handling of missing values depends on pandas and is not modelled, and the filter of the other two scripts is not attributed to it.
- `nx.connected_components` and `nx.is_connected`: the list of components is an input, assumed to partition the nodes and to list the first node's component first.
- The random generators (comp_modelos.py:49, 63, 79, 95) and their own failures, such as `k_reg >= n` for the regular graph on two nodes: randomness inside a library.
- `average_clustering`, `average_shortest_path_length` and the `models` dictionary filled with them (comp_modelos.py:40-41, 45, 55-59, 69-73, 85-89, 101-105): floating-point library metrics.
- Floating point: averages and the probability `p` are exact fractions; `round` is applied to the exact quotient, which agrees with the script's float division for any realistic graph size.
- ModelComparison.RoundHalfEven: works on the exact quotient, so it does not model float rounding of `e / n` for sizes near 2^52.
- The order in which networkx lists a subgraph's nodes: `SubgraphColours` takes the node sequence as an input, and `Induced` (so the LCC of `Analyse`) lists the nodes in the graph's order, whereas networkx may list them in the order of the filter set; only the node set and edges of the subgraph are modelled faithfully.
- Node identifiers are strings; a numeric identifier, on which `startswith` would raise, is not modelled.
- All plotting, layout, the pin of P08684 at the centre, legends, titles and the printed report (genes_relevantes.py:55-75, grafo_colorido.py:33-44, comp_modelos.py:107-117).
