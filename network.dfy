/**
 The driver functions of `main.py` that hold logic: the degree filter of
 `generate_network` and the example run of `get_started`.
 */
module Network {
  import opened CitationGraph
  import opened Expansion
  import opened Aggregation
  import opened Scoring

  /** The nodes of the networkx graph built with `add_edges_from(links)`: every link endpoint. */
  function Endpoints(links: set<Link>): set<DocId> {
    (set l | l in links :: l.from) + (set l | l in links :: l.to)
  }

  /** The distinct neighbours of `n` other than itself, with direction discarded. */
  function Neighbours(links: set<Link>, n: DocId): set<DocId> {
    (set l | l in links && l.from == n && l.to != n :: l.to)
      + (set l | l in links && l.to == n && l.from != n :: l.from)
  }

  /** A node has a neighbour or a self-loop exactly when some link touches it. */
  lemma TouchedEndpoint(links: set<Link>, n: DocId)
    ensures |Neighbours(links, n)| > 0 || Link(n, n) in links <==> n in Endpoints(links)
  {
    if n in Endpoints(links) && Link(n, n) !in links {
      var l :| l in links && (l.from == n || l.to == n);
      if l.from == n {
        assert l.to != n && l.to in Neighbours(links, n);
      } else {
        assert l.from != n && l.from in Neighbours(links, n);
      }
    }
    if |Neighbours(links, n)| > 0 {
      var m :| m in Neighbours(links, n);
    }
  }

  /**
   networkx's degree in an undirected simple graph: one per distinct
   neighbour, and two for a self-citation loop. It is positive exactly on
   the nodes of the graph built from the links.
   */
  function Degree(links: set<Link>, n: DocId): (d: nat)
    ensures d > 0 <==> n in Endpoints(links)
  {
    TouchedEndpoint(links, n);
    |Neighbours(links, n)| + (if Link(n, n) in links then 2 else 0)
  }

  /**
   The node set `generate_network` keeps: with `filterNetwork`, the
   endpoints whose degree reaches `filterDegree`; otherwise all endpoints.
   A seed with no link is never kept.
   */
  function DegreeFilter(links: set<Link>, filterDegree: int, filterNetwork: bool): (r: set<DocId>)
    ensures r <= Endpoints(links)
  {
    if filterNetwork then set n | n in Endpoints(links) && Degree(links, n) >= filterDegree
    else Endpoints(links)
  }

  /** The undirected edges of the link set: each link as the set of its endpoints. */
  function Edges(links: set<Link>): set<set<DocId>> {
    set l | l in links :: {l.from, l.to}
  }

  /** The filtered set is contained in the unfiltered one. */
  lemma FilterShrinks(links: set<Link>, filterDegree: int)
    ensures DegreeFilter(links, filterDegree, true) <= DegreeFilter(links, filterDegree, false)
  {
  }

  /** Raising the threshold never adds a node. */
  lemma FilterAntitone(links: set<Link>, low: int, high: int)
    requires low <= high
    ensures DegreeFilter(links, high, true) <= DegreeFilter(links, low, true)
  {
  }

  /** Every endpoint has degree at least 1, so a threshold of at most 1 keeps every endpoint. */
  lemma FilterUpToOneKeepsAll(links: set<Link>, filterDegree: int)
    requires filterDegree <= 1
    ensures DegreeFilter(links, filterDegree, true) == DegreeFilter(links, filterDegree, false)
  {
  }

  /**
   Direction is discarded: two link sets with the same undirected edges
   give every node the same degree, so `(a, b)` and `(b, a)` together count
   once.
   */
  lemma DegreeUndirected(links1: set<Link>, links2: set<Link>, n: DocId)
    requires Edges(links1) == Edges(links2)
    ensures Degree(links1, n) == Degree(links2, n)
  {
    forall m ensures m in Neighbours(links1, n) <==> m in Neighbours(links2, n) {
      NeighbourEdge(links1, n, m);
      NeighbourEdge(links2, n, m);
    }
    assert Neighbours(links1, n) == Neighbours(links2, n);
    SelfLoopEdge(links1, n);
    SelfLoopEdge(links2, n);
  }

  /** `m` is a neighbour of `n` exactly when `{n, m}` is an edge between distinct nodes. */
  lemma NeighbourEdge(links: set<Link>, n: DocId, m: DocId)
    ensures m in Neighbours(links, n) <==> m != n && {n, m} in Edges(links)
  {
    if m in Neighbours(links, n) {
      var l :| l in links && ((l.from == n && l.to == m) || (l.to == n && l.from == m));
      assert {l.from, l.to} == {n, m};
    }
    if m != n && {n, m} in Edges(links) {
      var l :| l in links && {l.from, l.to} == {n, m};
      assert l.from in {n, m} && l.to in {n, m};
      assert n in {l.from, l.to} && m in {l.from, l.to};
      if l.from == n {
        assert l.to == m;
      } else {
        assert l.from == m && l.to == n;
      }
    }
  }

  /** A self-citation loop on `n` is the one-element edge `{n}`. */
  lemma SelfLoopEdge(links: set<Link>, n: DocId)
    ensures Link(n, n) in links <==> {n} in Edges(links)
  {
    if Link(n, n) in links {
      assert {n, n} == {n};
    }
    if {n} in Edges(links) {
      var l :| l in links && {l.from, l.to} == {n};
      assert l.from in {n} && l.to in {n};
    }
  }

  /** Two link sets with the same undirected edges give the same filtered node set. */
  lemma FilterUndirected(links1: set<Link>, links2: set<Link>, filterDegree: int, filterNetwork: bool)
    requires Edges(links1) == Edges(links2)
    ensures DegreeFilter(links1, filterDegree, filterNetwork) == DegreeFilter(links2, filterDegree, filterNetwork)
  {
    forall n ensures n in Endpoints(links1) <==> n in Endpoints(links2) {
      EndpointEdge(links1, n);
      EndpointEdge(links2, n);
    }
    assert Endpoints(links1) == Endpoints(links2);
    forall n | n in Endpoints(links1) ensures Degree(links1, n) == Degree(links2, n) {
      DegreeUndirected(links1, links2, n);
    }
  }

  /** `n` is an endpoint exactly when some edge contains it. */
  lemma EndpointEdge(links: set<Link>, n: DocId)
    ensures n in Endpoints(links) <==> exists e :: e in Edges(links) && n in e
  {
    if e :| e in Edges(links) && n in e {
      var l :| l in links && e == {l.from, l.to};
      assert n == l.from || n == l.to;
    }
    if n in Endpoints(links) {
      var l :| l in links && (l.from == n || l.to == n);
      assert n in {l.from, l.to};
    }
  }

  /** On the path `a -> b -> c` the first node has only `b` as neighbour. */
  lemma PathStartDegree(a: DocId, b: DocId, c: DocId)
    requires a != b && b != c && a != c
    ensures Degree({Link(a, b), Link(b, c)}, a) == 1
  {
    var links := {Link(a, b), Link(b, c)};
    assert Link(a, a) !in links;
    assert Neighbours(links, a) == {b};
  }

  /** On the path `a -> b -> c` the middle node has both ends as neighbours. */
  lemma PathMiddleDegree(a: DocId, b: DocId, c: DocId)
    requires a != b && b != c && a != c
    ensures Degree({Link(a, b), Link(b, c)}, b) == 2
  {
    var links := {Link(a, b), Link(b, c)};
    assert Link(b, b) !in links;
    assert Neighbours(links, b) == {a, c};
  }

  /** On the path `a -> b -> c` the last node has only `b` as neighbour. */
  lemma PathEndDegree(a: DocId, b: DocId, c: DocId)
    requires a != b && b != c && a != c
    ensures Degree({Link(a, b), Link(b, c)}, c) == 1
  {
    var links := {Link(a, b), Link(b, c)};
    assert Link(c, c) !in links;
    assert Neighbours(links, c) == {b};
  }

  /** The path `a -> b -> c` has the three nodes as endpoints. */
  lemma PathEndpoints(a: DocId, b: DocId, c: DocId)
    ensures Endpoints({Link(a, b), Link(b, c)}) == {a, b, c}
  {
    var links := {Link(a, b), Link(b, c)};
    assert (set l | l in links :: l.from) == {a, b};
    assert (set l | l in links :: l.to) == {b, c};
  }

  /** The path `a -> b -> c` with threshold 2 keeps only its middle node. */
  lemma FilterPathExample(a: DocId, b: DocId, c: DocId)
    requires a != b && b != c && a != c
    ensures DegreeFilter({Link(a, b), Link(b, c)}, 2, true) == {b}
  {
    var links := {Link(a, b), Link(b, c)};
    var kept := DegreeFilter(links, 2, true);
    PathEndpoints(a, b, c);
    PathMiddleDegree(a, b, c);
    assert b in kept;
    forall n | n in kept ensures n == b {
      assert n in {a, b, c} by {
        assert n in Endpoints(links) && Degree(links, n) >= 2;
      }
      if n == a {
        PathStartDegree(a, b, c);
      } else if n == c {
        PathEndDegree(a, b, c);
      }
    }
  }

  /**
   `generate_network(sources, filterDegree, filterNetwork)` up to its export
   step: expand every seed with budgets (2, 2), keep the nodes the degree
   filter admits, and score them, which raises when the kept set, the
   reference set or their overlap is empty. The kept nodes are nodes of
   the expanded graph.
   */
  function GenerateNetwork(q: Endpoint, sources: seq<DocId>, expert: set<DocId>, filterDegree: int,
                           filterNetwork: bool): (r: Outcome<set<DocId>>)
    ensures var graph := ExpandAll(q, sources, 2, 2);
            r.Ok? <==> DoStats(DegreeFilter(graph.links, filterDegree, filterNetwork), expert).Ok?
    ensures r.Ok? ==> r.value == DegreeFilter(ExpandAll(q, sources, 2, 2).links, filterDegree, filterNetwork)
    ensures r.Ok? ==> r.value <= ExpandAll(q, sources, 2, 2).nodes
    ensures r.Ok? ==> forall n :: n in r.value ==> exists l :: l in ExpandAll(q, sources, 2, 2).links
                                                            && (l.from == n || l.to == n)
  {
    var graph := ExpandAll(q, sources, 2, 2);
    var filtered := DegreeFilter(graph.links, filterDegree, filterNetwork);
    ExpandAllClosed(q, sources, 2, 2);
    match DoStats(filtered, expert)
    case ZeroDivisionError => ZeroDivisionError
    case Ok(_) => Ok(filtered)
  }

  /** The document `get_started` expands from in its single-seed branch. */
  const SingleSeed: DocId := "32021R0664"

  /** The second seed of its multi-seed branch. */
  const OtherSeed: DocId := "32019R0945"

  /**
   `get_started`: expand `32021R0664` with budgets (2, 0), or the seed list
   `[32019R0945, 32021R0664]` with budgets (2, 1), then score the nodes,
   which raises on an undefined metric. Whatever it returns holds the
   seeds and is closed under its links.
   */
  function GetStarted(q: Endpoint, expert: set<DocId>, sourceType: string): (r: Outcome<Graph>)
    ensures var g := if sourceType == "single" then Expand(q, SingleSeed, 2, 0, {})
                     else ExpandAll(q, [OtherSeed, SingleSeed], 2, 1);
            r.Ok? <==> DoStats(g.nodes, expert).Ok?
    ensures r.Ok? ==> r.value == if sourceType == "single" then Expand(q, SingleSeed, 2, 0, {})
                                 else ExpandAll(q, [OtherSeed, SingleSeed], 2, 1)
    ensures r.Ok? ==> SingleSeed in r.value.nodes && Closed(r.value)
    ensures r.Ok? && sourceType != "single" ==> OtherSeed in r.value.nodes
  {
    var g := if sourceType == "single" then Expand(q, SingleSeed, 2, 0, {})
             else ExpandAll(q, [OtherSeed, SingleSeed], 2, 1);
    ExpandClosed(q, AsWritten, SingleSeed, 2, 0, {});
    ExpandAllClosed(q, [OtherSeed, SingleSeed], 2, 1);
    match DoStats(g.nodes, expert)
    case ZeroDivisionError => ZeroDivisionError
    case Ok(_) => Ok(g)
  }

  /**
   A `(2, 0)` run from `32021R0664` whose one-hop lookup finds only
   `32019R0945`, which in turn cites nothing, yields one link and two nodes.
   */
  lemma SingleSeedRun(q: Endpoint)
    requires GetCitations(q, SingleSeed, 1, 0) == {OtherSeed}
    requires GetCitations(q, OtherSeed, 1, 0) == {}
    ensures Expand(q, SingleSeed, 2, 0, {}) == Graph({Link(SingleSeed, OtherSeed)}, {SingleSeed, OtherSeed})
  {
    ExpandLastHop(q, AsWritten, OtherSeed, 1, 0, {});
    assert Child(q, AsWritten, 2, 0, {SingleSeed}, OtherSeed) == Graph({}, {OtherSeed});
    var g := Expand(q, SingleSeed, 2, 0, {});
    assert g.links == TargetLinks(q, AsWritten, SingleSeed, 2, 0, {SingleSeed}, {OtherSeed});
    assert g.nodes == TargetNodes(q, AsWritten, SingleSeed, 2, 0, {SingleSeed}, {OtherSeed});
  }

  /**
   The endpoint of the worked example: `32021R0664` cites `32019R0945`
   one hop out, and every other question gets no answer.
   */
  function ExampleEndpoint(): Endpoint {
    (id: DocId, citesHop: nat, citedHop: nat) =>
      if id == SingleSeed && citesHop == 1 && citedHop == 0 then {OtherSeed} else {}
  }

  /** The example endpoint's answers to the two questions the run asks. */
  lemma ExampleLookups()
    ensures GetCitations(ExampleEndpoint(), SingleSeed, 1, 0) == {OtherSeed}
    ensures GetCitations(ExampleEndpoint(), OtherSeed, 1, 0) == {}
  {
    assert IsLegislation(OtherSeed);
    assert SingleSeed != OtherSeed;
  }

  /**
   The single-seed branch of `get_started` against the example endpoint
   returns nodes `{32021R0664, 32019R0945}` and the one link between them.
   */
  lemma GetStartedExample()
    ensures Expand(ExampleEndpoint(), SingleSeed, 2, 0, {})
         == Graph({Link(SingleSeed, OtherSeed)}, {SingleSeed, OtherSeed})
  {
    var q := ExampleEndpoint();
    ExampleLookups();
    SingleSeedRun(q);
  }
}
