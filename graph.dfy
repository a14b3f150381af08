/**
 The vocabulary shared by the citation expander and its callers: CELEX
 document ids, citation links, the node/link graph a traversal returns, and
 the one-hop lookup against the legal knowledge graph.
 */
module CitationGraph {

  /** A CELEX identifier; its first character is the document category. */
  type DocId = string

  /** `from` cites `to`. */
  datatype Link = Link(from: DocId, to: DocId)

  /** What a traversal returns: the `(links, nodes)` pair of sets. */
  datatype Graph = Graph(links: set<Link>, nodes: set<DocId>)

  /**
   The remote SPARQL endpoint, as seen by `get_citations`: for a document id,
   a bound on outgoing hops and a bound on incoming hops, the CELEX ids the
   query binds to `?name2`. As a total function it always answers, and
   answers the same question the same way; nothing else is known about it.
   */
  type Endpoint = (DocId, nat, nat) -> set<DocId>

  /** `startswith('3')`: the id of a piece of legislation (case law starts with '6'). */
  predicate IsLegislation(id: DocId) {
    |id| > 0 && id[0] == '3'
  }

  /**
   `get_citations`: the endpoint's answer, filtered down to legislation.
   The result is exactly the legislation ids among the raw answer.
   */
  function GetCitations(q: Endpoint, source: DocId, citesDepth: nat, citedDepth: nat): (r: set<DocId>)
    ensures forall t :: t in r <==> t in q(source, citesDepth, citedDepth) && IsLegislation(t)
  {
    set t | t in q(source, citesDepth, citedDepth) && IsLegislation(t)
  }

  /** Set union of two graphs, the `a.union(b)` of both components. */
  function Merge(a: Graph, b: Graph): Graph {
    Graph(a.links + b.links, a.nodes + b.nodes)
  }

  /** `a` is contained in `b`, component by component. */
  predicate Subgraph(a: Graph, b: Graph) {
    a.links <= b.links && a.nodes <= b.nodes
  }

  /** Both endpoints of every link are nodes. */
  predicate Closed(g: Graph) {
    forall l :: l in g.links ==> l.from in g.nodes && l.to in g.nodes
  }
}
