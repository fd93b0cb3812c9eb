/** The graph store: the node and link lists that the "add edge" button grows.
    Node ids are the (already trimmed) strings typed into the form; a link
    keeps its two endpoint ids and its weight. */
module GraphStore {

  type NodeId = string

  /** One undirected, weighted link `{source, target, weight}`. Parallel links
      and self-loops are kept as separate entries. */
  datatype Link = Link(source: NodeId, target: NodeId, weight: int)

  /** What the unary `+` makes of the weight field: a number or NaN. */
  datatype Number = NaN | Num(value: int)

  /** A read-only snapshot of the store, as handed to the shortest-path engine. */
  datatype GraphData = GraphData(nodes: seq<NodeId>, links: seq<Link>)

  /** No id occurs twice. */
  predicate Unique(s: seq<NodeId>)
  {
    forall i, j :: 0 <= i < j < |s| ==> s[i] != s[j]
  }

  /** What every sequence of edge insertions keeps true of the store: ids are
      unique and non-empty, and every link joins two stored nodes. */
  predicate WellFormed(g: GraphData)
  {
    && Unique(g.nodes)
    && (forall i :: 0 <= i < |g.nodes| ==> g.nodes[i] != "")
    && (forall i :: 0 <= i < |g.links| ==> g.links[i].source in g.nodes && g.links[i].target in g.nodes)
  }

  /** The node list after pushing `id` only if no node has that id yet. */
  function WithNode(nodes: seq<NodeId>, id: NodeId): (r: seq<NodeId>)
    ensures id in r
    ensures |nodes| <= |r| && r[..|nodes|] == nodes
    ensures |r| == (if id in nodes then |nodes| else |nodes| + 1)
    ensures forall v :: v in r <==> v in nodes || v == id
  {
    if id in nodes then nodes else nodes + [id]
  }

  /** Pushing an id that may already be present never creates a duplicate. */
  lemma WithNodeUnique(nodes: seq<NodeId>, id: NodeId)
    requires Unique(nodes)
    ensures Unique(WithNode(nodes, id))
  {
    if id !in nodes {
      var r := nodes + [id];
      forall i, j | 0 <= i < j < |r| ensures r[i] != r[j] {
        if j == |nodes| {
          assert r[i] == nodes[i];
        }
      }
    }
  }

  /** The nodes an edge insertion adds: `node1` if new, then `node2` if new
      and different from `node1`; so 0, 1 or 2 entries, and at most one for
      a self-loop. */
  lemma AddedNodes(nodes: seq<NodeId>, node1: NodeId, node2: NodeId)
    ensures WithNode(WithNode(nodes, node1), node2)
         == nodes + (if node1 in nodes then [] else [node1])
                  + (if node2 in nodes || node2 == node1 then [] else [node2])
  {
  }

  /** A valid edge insertion keeps the store well formed. */
  lemma InsertKeepsWellFormed(g: GraphData, node1: NodeId, node2: NodeId, w: int)
    requires WellFormed(g) && node1 != "" && node2 != ""
    ensures WellFormed(GraphData(WithNode(WithNode(g.nodes, node1), node2), g.links + [Link(node1, node2, w)]))
  {
    var ns := WithNode(WithNode(g.nodes, node1), node2);
    var ls := g.links + [Link(node1, node2, w)];
    WithNodeUnique(g.nodes, node1);
    WithNodeUnique(WithNode(g.nodes, node1), node2);
    forall i | 0 <= i < |ns| ensures ns[i] != "" {
      assert ns[i] in g.nodes || ns[i] == node1 || ns[i] == node2;
      if ns[i] in g.nodes {
        var k :| 0 <= k < |g.nodes| && g.nodes[k] == ns[i];
      }
    }
    forall i | 0 <= i < |ls| ensures ls[i].source in ns && ls[i].target in ns {
      if i < |g.links| {
        assert ls[i] == g.links[i];
      }
    }
  }

  class Graph {
    var nodes: seq<NodeId>
    var links: seq<Link>

    ghost predicate Valid()
      reads this
    {
      WellFormed(GraphData(nodes, links))
    }

    /** The snapshot the shortest-path engine reads. */
    function Data(): GraphData
      reads this
    {
      GraphData(nodes, links)
    }

    /** The empty store the page starts with. */
    constructor ()
      ensures Valid() && nodes == [] && links == []
    {
      nodes := [];
      links := [];
    }

    /** The "add edge" handler with its form reads turned into parameters: an
        empty id or a NaN weight is ignored; otherwise each endpoint is added
        if absent and the link is appended. */
    method AddEdge(node1: NodeId, node2: NodeId, weight: Number)
      requires Valid()
      modifies this
      ensures Valid()
      ensures node1 == "" || node2 == "" || weight.NaN? ==>
                nodes == old(nodes) && links == old(links)
      ensures node1 != "" && node2 != "" && weight.Num? ==>
                && nodes == WithNode(WithNode(old(nodes), node1), node2)
                && links == old(links) + [Link(node1, node2, weight.value)]
    {
      if node1 == "" || node2 == "" || weight.NaN? {
        return;
      }
      InsertKeepsWellFormed(Data(), node1, node2, weight.value);
      if node1 !in nodes {
        nodes := nodes + [node1];
      }
      if node2 !in nodes {
        nodes := nodes + [node2];
      }
      links := links + [Link(node1, node2, weight.value)];
    }
  }
}
