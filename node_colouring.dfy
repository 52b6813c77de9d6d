/** The colouring of the whole interaction graph: identifiers starting with
    "DB" (DrugBank drugs and compounds) are green, every other node is blue. */
module NodeColouring {

  datatype Colour = Red | Orange | Blue | Green

  /** `node.startswith("DB")`, stated on characters. */
  predicate StartsWithDB(node: string) {
    |node| >= 2 && node[0] == 'D' && node[1] == 'B'
  }

  /** `get_node_color(node)` */
  function NodeColour(node: string): (c: Colour)
    ensures c == Green <==> StartsWithDB(node)
    ensures c == Green || c == Blue
  {
    if "DB" <= node then Green else Blue
  }

  /** An identifier that starts with 'D' but not with "DB" is not a drug here. */
  lemma DButNotDBIsBlue(node: string)
    requires |node| >= 1 && node[0] == 'D' && !(|node| >= 2 && node[1] == 'B')
    ensures NodeColour(node) == Blue
  {
  }

  /** `[get_node_color(node) for node in G.nodes()]`: one colour per node, in
      node order. */
  function NodeColours(nodes: seq<string>): (cs: seq<Colour>)
    ensures |cs| == |nodes|
    ensures forall i :: 0 <= i < |nodes| ==> cs[i] == NodeColour(nodes[i])
  {
    if nodes == [] then [] else [NodeColour(nodes[0])] + NodeColours(nodes[1..])
  }
}
