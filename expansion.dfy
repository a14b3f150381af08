/**
 `get_citations_structure`: depth-bounded expansion of one seed into a
 citation graph, with independent budgets for the "cites" and the "cited"
 direction.
 */
module Expansion {
  import opened CitationGraph

  /**
   How the recursion guard `new_cites_depth or new_cited_depth and target
   not in dont_repeat` is read. Python binds `and` tighter than `or`, so the
   code means `AsWritten`; `BothRequired` is the stricter reading that also
   asks a cites-direction target to be unvisited.
   */
  datatype GuardReading = AsWritten | BothRequired

  /** `min(depth, 1)`: the hop bound passed to the lookup. */
  function Hop(depth: nat): nat {
    if depth > 0 then 1 else 0
  }

  /** `max(depth - 1, 0)`: the budget passed on to a target. */
  function Next(depth: nat): nat {
    if depth > 0 then depth - 1 else 0
  }

  /** The link added for one target: outward when the cites budget is live, inward otherwise. */
  function Oriented(source: DocId, target: DocId, citesDepth: nat): Link {
    if citesDepth > 0 then Link(source, target) else Link(target, source)
  }

  /** Whether `target` is expanded further from a node with budgets `(citesDepth, citedDepth)`. */
  predicate Recurses(reading: GuardReading, citesDepth: nat, citedDepth: nat, visited: set<DocId>, target: DocId) {
    match reading
    case AsWritten => Next(citesDepth) > 0 || (Next(citedDepth) > 0 && target !in visited)
    case BothRequired => (Next(citesDepth) > 0 || Next(citedDepth) > 0) && target !in visited
  }

  /**
   The graph `get_citations_structure(source, citesDepth, citedDepth, dontRepeat)`
   returns, with the recursion guard read as `reading`. With both budgets
   live it runs each direction on its own and unions the two runs;
   otherwise it looks up the one-hop neighbours and expands each target
   that the guard admits, with a fresh, empty `dont_repeat`.
   */
  function ExpandWith(q: Endpoint, reading: GuardReading, source: DocId, citesDepth: nat, citedDepth: nat,
                      dontRepeat: set<DocId>): Graph
    decreases citesDepth + citedDepth, 2
  {
    if citesDepth > 0 && citedDepth > 0 then
      Merge(ExpandWith(q, reading, source, citesDepth, 0, dontRepeat),
            ExpandWith(q, reading, source, 0, citedDepth, dontRepeat))
    else
      var targets := GetCitations(q, source, Hop(citesDepth), Hop(citedDepth));
      Graph(TargetLinks(q, reading, source, citesDepth, citedDepth, dontRepeat + {source}, targets),
            TargetNodes(q, reading, source, citesDepth, citedDepth, dontRepeat + {source}, targets))
  }

  /**
   The graph a target contributes through recursion: its own run with the
   decremented budgets when the guard admits it, nothing otherwise.
   */
  function Child(q: Endpoint, reading: GuardReading, citesDepth: nat, citedDepth: nat,
                 visited: set<DocId>, t: DocId): Graph
    requires !(citesDepth > 0 && citedDepth > 0)
    decreases citesDepth + citedDepth, 0
  {
    if Recurses(reading, citesDepth, citedDepth, visited, t) then
      ExpandWith(q, reading, t, Next(citesDepth), Next(citedDepth), {})
    else Graph({}, {})
  }

  /**
   The links of a one-direction expansion contributed by `targets` (the
   whole lookup answer, or the part the loop has already visited): the
   oriented link of each target and the links of every child run.
   */
  function TargetLinks(q: Endpoint, reading: GuardReading, source: DocId, citesDepth: nat, citedDepth: nat,
                       visited: set<DocId>, targets: set<DocId>): set<Link>
    requires !(citesDepth > 0 && citedDepth > 0)
    decreases citesDepth + citedDepth, 1
  {
    (set t | t in targets :: Oriented(source, t, citesDepth))
      + (set t, l | t in targets && l in Child(q, reading, citesDepth, citedDepth, visited, t).links :: l)
  }

  /** The nodes contributed by `targets`: the source, each target, and the nodes of every child run. */
  function TargetNodes(q: Endpoint, reading: GuardReading, source: DocId, citesDepth: nat, citedDepth: nat,
                       visited: set<DocId>, targets: set<DocId>): set<DocId>
    requires !(citesDepth > 0 && citedDepth > 0)
    decreases citesDepth + citedDepth, 1
  {
    {source} + targets
      + (set t, n | t in targets && n in Child(q, reading, citesDepth, citedDepth, visited, t).nodes :: n)
  }

  /** What the code computes. */
  function Expand(q: Endpoint, source: DocId, citesDepth: nat, citedDepth: nat, dontRepeat: set<DocId>): Graph {
    ExpandWith(q, AsWritten, source, citesDepth, citedDepth, dontRepeat)
  }

  /** Before the loop has visited any target, the source is the only node and there is no link. */
  lemma TargetsNone(q: Endpoint, reading: GuardReading, source: DocId, citesDepth: nat, citedDepth: nat,
                    visited: set<DocId>)
    requires !(citesDepth > 0 && citedDepth > 0)
    ensures TargetLinks(q, reading, source, citesDepth, citedDepth, visited, {}) == {}
    ensures TargetNodes(q, reading, source, citesDepth, citedDepth, visited, {}) == {source}
  {
  }

  /** Visiting one more target adds its oriented link and the links of its child run. */
  lemma TargetLinksStep(q: Endpoint, reading: GuardReading, source: DocId, citesDepth: nat, citedDepth: nat,
                        visited: set<DocId>, done: set<DocId>, t: DocId)
    requires !(citesDepth > 0 && citedDepth > 0)
    ensures TargetLinks(q, reading, source, citesDepth, citedDepth, visited, done + {t})
         == TargetLinks(q, reading, source, citesDepth, citedDepth, visited, done)
            + {Oriented(source, t, citesDepth)} + Child(q, reading, citesDepth, citedDepth, visited, t).links
  {
  }

  /** Visiting one more target adds it and the nodes of its child run. */
  lemma TargetNodesStep(q: Endpoint, reading: GuardReading, source: DocId, citesDepth: nat, citedDepth: nat,
                        visited: set<DocId>, done: set<DocId>, t: DocId)
    requires !(citesDepth > 0 && citedDepth > 0)
    ensures TargetNodes(q, reading, source, citesDepth, citedDepth, visited, done + {t})
         == TargetNodes(q, reading, source, citesDepth, citedDepth, visited, done)
            + {t} + Child(q, reading, citesDepth, citedDepth, visited, t).nodes
  {
  }

  /**
   `get_citations_structure` as the code runs it: a for-loop over the lookup
   answer that adds each target and its link and unions in the recursive
   runs. Returns the same graph as `Expand`.
   */
  method GetCitationsStructure(q: Endpoint, source: DocId, citesDepth: nat, citedDepth: nat,
                               dontRepeat: set<DocId>)
    returns (links: set<Link>, nodes: set<DocId>)
    ensures Graph(links, nodes) == Expand(q, source, citesDepth, citedDepth, dontRepeat)
    decreases citesDepth + citedDepth
  {
    if citesDepth > 0 && citedDepth > 0 {
      var cites, nodes1 := GetCitationsStructure(q, source, citesDepth, 0, dontRepeat);
      var cited, nodes2 := GetCitationsStructure(q, source, 0, citedDepth, dontRepeat);
      return cites + cited, nodes1 + nodes2;
    }

    var newCitesDepth := if citesDepth > 0 then citesDepth - 1 else 0;
    var newCitedDepth := if citedDepth > 0 then citedDepth - 1 else 0;
    var visited := dontRepeat + {source};

    links := {};
    nodes := {source};
    var targets := GetCitations(q, source, if citesDepth > 0 then 1 else 0, if citedDepth > 0 then 1 else 0);

    var remaining := targets;
    ghost var done: set<DocId> := {};
    TargetsNone(q, AsWritten, source, citesDepth, citedDepth, visited);
    while remaining != {}
      invariant done + remaining == targets
      invariant links == TargetLinks(q, AsWritten, source, citesDepth, citedDepth, visited, done)
      invariant nodes == TargetNodes(q, AsWritten, source, citesDepth, citedDepth, visited, done)
      decreases remaining
    {
      var target :| target in remaining;
      TargetLinksStep(q, AsWritten, source, citesDepth, citedDepth, visited, done, target);
      TargetNodesStep(q, AsWritten, source, citesDepth, citedDepth, visited, done, target);
      ghost var child := Child(q, AsWritten, citesDepth, citedDepth, visited, target);
      nodes := nodes + {target};
      if citesDepth > 0 {
        links := links + {Link(source, target)};
      } else {
        links := links + {Link(target, source)};
      }
      if newCitesDepth > 0 || (newCitedDepth > 0 && target !in visited) {
        var newLinks, newNodes := GetCitationsStructure(q, target, newCitesDepth, newCitedDepth, {});
        assert Graph(newLinks, newNodes) == child;
        links := links + newLinks;
        nodes := nodes + newNodes;
      } else {
        assert child == Graph({}, {});
      }
      remaining := remaining - {target};
      done := done + {target};
    }
  }

  /**
   The source is always a node, and both endpoints of every link are nodes,
   under either reading of the guard: the unions of the split and of the
   loop keep this, since every child run keeps it for its own target.
   */
  lemma {:induction false} ExpandClosed(q: Endpoint, reading: GuardReading, source: DocId, citesDepth: nat,
                                        citedDepth: nat, dontRepeat: set<DocId>)
    ensures source in ExpandWith(q, reading, source, citesDepth, citedDepth, dontRepeat).nodes
    ensures Closed(ExpandWith(q, reading, source, citesDepth, citedDepth, dontRepeat))
    decreases citesDepth + citedDepth
  {
    if citesDepth > 0 && citedDepth > 0 {
      ExpandClosed(q, reading, source, citesDepth, 0, dontRepeat);
      ExpandClosed(q, reading, source, 0, citedDepth, dontRepeat);
    } else {
      var visited := dontRepeat + {source};
      var targets := GetCitations(q, source, Hop(citesDepth), Hop(citedDepth));
      var g := ExpandWith(q, reading, source, citesDepth, citedDepth, dontRepeat);
      forall t | t in targets && Recurses(reading, citesDepth, citedDepth, visited, t)
        ensures t in Child(q, reading, citesDepth, citedDepth, visited, t).nodes
        ensures Closed(Child(q, reading, citesDepth, citedDepth, visited, t))
      {
        ExpandClosed(q, reading, t, Next(citesDepth), Next(citedDepth), {});
      }
      assert g.links == TargetLinks(q, reading, source, citesDepth, citedDepth, visited, targets);
      assert g.nodes == TargetNodes(q, reading, source, citesDepth, citedDepth, visited, targets);
      forall l | l in g.links ensures l.from in g.nodes && l.to in g.nodes {
        if t :| t in targets && l in Child(q, reading, citesDepth, citedDepth, visited, t).links {
          var child := Child(q, reading, citesDepth, citedDepth, visited, t);
          assert Recurses(reading, citesDepth, citedDepth, visited, t);
          assert l.from in child.nodes && l.to in child.nodes;
        }
      }
    }
  }

  /** Every node other than the source came out of the lookup, so it is a piece of legislation. */
  lemma {:induction false} ExpandFoundLegislation(q: Endpoint, reading: GuardReading, source: DocId,
                                                  citesDepth: nat, citedDepth: nat, dontRepeat: set<DocId>)
    ensures forall n :: n in ExpandWith(q, reading, source, citesDepth, citedDepth, dontRepeat).nodes
                        ==> n == source || IsLegislation(n)
    decreases citesDepth + citedDepth
  {
    if citesDepth > 0 && citedDepth > 0 {
      ExpandFoundLegislation(q, reading, source, citesDepth, 0, dontRepeat);
      ExpandFoundLegislation(q, reading, source, 0, citedDepth, dontRepeat);
    } else {
      var visited := dontRepeat + {source};
      var targets := GetCitations(q, source, Hop(citesDepth), Hop(citedDepth));
      forall t | t in targets && Recurses(reading, citesDepth, citedDepth, visited, t)
        ensures forall n :: n in Child(q, reading, citesDepth, citedDepth, visited, t).nodes ==> IsLegislation(n)
      {
        ExpandFoundLegislation(q, reading, t, Next(citesDepth), Next(citedDepth), {});
      }
      var g := ExpandWith(q, reading, source, citesDepth, citedDepth, dontRepeat);
      assert g.nodes == TargetNodes(q, reading, source, citesDepth, citedDepth, visited, targets);
      forall n | n in g.nodes && n != source ensures IsLegislation(n) {
        if n !in targets {
          var t :| t in targets && n in Child(q, reading, citesDepth, citedDepth, visited, t).nodes;
          assert Recurses(reading, citesDepth, citedDepth, visited, t);
        }
      }
    }
  }

  /** The lookup confirms that `l.from` cites `l.to`. */
  predicate CitesFound(q: Endpoint, l: Link) {
    l.to in GetCitations(q, l.from, 1, 0)
  }

  /** The lookup confirms that `l.to` is cited by `l.from`. */
  predicate CitedFound(q: Endpoint, l: Link) {
    l.from in GetCitations(q, l.to, 0, 1)
  }

  /**
   Links are oriented by the budget that produced them: a cites-only run
   adds only links the one-hop "cites" lookup returned from their `from`
   end, a cited-only run only links the one-hop "cited" lookup returned
   for their `to` end, and a two-direction run only links of either kind.
   */
  lemma {:induction false} ExpandLinksFound(q: Endpoint, reading: GuardReading, source: DocId,
                                            citesDepth: nat, citedDepth: nat, dontRepeat: set<DocId>)
    requires citesDepth > 0 || citedDepth > 0
    ensures citedDepth == 0 ==> forall l :: l in ExpandWith(q, reading, source, citesDepth, citedDepth, dontRepeat).links
                                          ==> CitesFound(q, l)
    ensures citesDepth == 0 ==> forall l :: l in ExpandWith(q, reading, source, citesDepth, citedDepth, dontRepeat).links
                                          ==> CitedFound(q, l)
    ensures forall l :: l in ExpandWith(q, reading, source, citesDepth, citedDepth, dontRepeat).links
                        ==> CitesFound(q, l) || CitedFound(q, l)
    decreases citesDepth + citedDepth
  {
    if citesDepth > 0 && citedDepth > 0 {
      ExpandLinksFound(q, reading, source, citesDepth, 0, dontRepeat);
      ExpandLinksFound(q, reading, source, 0, citedDepth, dontRepeat);
    } else {
      var visited := dontRepeat + {source};
      var targets := GetCitations(q, source, Hop(citesDepth), Hop(citedDepth));
      forall t | t in targets && Recurses(reading, citesDepth, citedDepth, visited, t)
        ensures citedDepth == 0 ==> forall l :: l in Child(q, reading, citesDepth, citedDepth, visited, t).links
                                              ==> CitesFound(q, l)
        ensures citesDepth == 0 ==> forall l :: l in Child(q, reading, citesDepth, citedDepth, visited, t).links
                                              ==> CitedFound(q, l)
      {
        ExpandLinksFound(q, reading, t, Next(citesDepth), Next(citedDepth), {});
      }
      var g := ExpandWith(q, reading, source, citesDepth, citedDepth, dontRepeat);
      assert g.links == TargetLinks(q, reading, source, citesDepth, citedDepth, visited, targets);
      forall l | l in g.links
        ensures citedDepth == 0 ==> CitesFound(q, l)
        ensures citesDepth == 0 ==> CitedFound(q, l)
      {
        if t :| t in targets && l in Child(q, reading, citesDepth, citedDepth, visited, t).links {
          assert Recurses(reading, citesDepth, citedDepth, visited, t);
        } else {
          var t :| t in targets && l == Oriented(source, t, citesDepth);
        }
      }
    }
  }

  /**
   With at most one hop of budget in a single direction nothing is expanded
   further: the lookup is asked with the budgets themselves as hop bounds,
   and the result is the source, every answer, and one oriented link per
   answer. This includes `(0, 0)`, where the code does not short-circuit
   but still asks the lookup and links every answer inward.
   */
  lemma ExpandLastHop(q: Endpoint, reading: GuardReading, source: DocId, citesDepth: nat, citedDepth: nat,
                      dontRepeat: set<DocId>)
    requires citesDepth + citedDepth <= 1
    ensures var found := GetCitations(q, source, citesDepth, citedDepth);
            ExpandWith(q, reading, source, citesDepth, citedDepth, dontRepeat)
            == Graph(set t | t in found :: Oriented(source, t, citesDepth), {source} + found)
  {
    var found := GetCitations(q, source, citesDepth, citedDepth);
    var visited := dontRepeat + {source};
    assert found == GetCitations(q, source, Hop(citesDepth), Hop(citedDepth));
    forall t | t in found ensures Child(q, reading, citesDepth, citedDepth, visited, t) == Graph({}, {}) {
    }
    var g := ExpandWith(q, reading, source, citesDepth, citedDepth, dontRepeat);
    assert g.links == TargetLinks(q, reading, source, citesDepth, citedDepth, visited, found);
    assert g.nodes == TargetNodes(q, reading, source, citesDepth, citedDepth, visited, found);
  }

  /**
   The guard never protects the cites direction: a cites-only run is the
   same whatever `dont_repeat` it is given, since a target with cites
   budget left is expanded whether or not it was visited.
   */
  lemma CitesRunIgnoresDontRepeat(q: Endpoint, source: DocId, citesDepth: nat, dontRepeat1: set<DocId>,
                                  dontRepeat2: set<DocId>)
    ensures Expand(q, source, citesDepth, 0, dontRepeat1) == Expand(q, source, citesDepth, 0, dontRepeat2)
  {
    var visited1, visited2 := dontRepeat1 + {source}, dontRepeat2 + {source};
    var targets := GetCitations(q, source, Hop(citesDepth), 0);
    forall t | t in targets
      ensures Child(q, AsWritten, citesDepth, 0, visited1, t) == Child(q, AsWritten, citesDepth, 0, visited2, t)
    {
      assert Recurses(AsWritten, citesDepth, 0, visited1, t) == Recurses(AsWritten, citesDepth, 0, visited2, t);
    }
    var g1 := Expand(q, source, citesDepth, 0, dontRepeat1);
    var g2 := Expand(q, source, citesDepth, 0, dontRepeat2);
    assert g1.links == TargetLinks(q, AsWritten, source, citesDepth, 0, visited1, targets);
    assert g2.links == TargetLinks(q, AsWritten, source, citesDepth, 0, visited2, targets);
    assert g1.nodes == TargetNodes(q, AsWritten, source, citesDepth, 0, visited1, targets);
    assert g2.nodes == TargetNodes(q, AsWritten, source, citesDepth, 0, visited2, targets);
  }

  /**
   In one direction with a budget of at least 2, one more unit of budget
   never loses anything: the run with the decremented budget is contained
   in the run with the full one. (At budget 1 the smaller run is the
   (0, 0) run, which links inward, so the claim does not extend there.)
   */
  lemma {:induction false} ExpandGrowsWithDepth(q: Endpoint, reading: GuardReading, source: DocId,
                                                citesDepth: nat, citedDepth: nat, dontRepeat: set<DocId>)
    requires (citesDepth >= 2 && citedDepth == 0) || (citesDepth == 0 && citedDepth >= 2)
    ensures Subgraph(ExpandWith(q, reading, source, Next(citesDepth), Next(citedDepth), dontRepeat),
                     ExpandWith(q, reading, source, citesDepth, citedDepth, dontRepeat))
    decreases citesDepth + citedDepth
  {
    var c, d := Next(citesDepth), Next(citedDepth);
    var visited := dontRepeat + {source};
    var targets := GetCitations(q, source, Hop(citesDepth), Hop(citedDepth));
    assert targets == GetCitations(q, source, Hop(c), Hop(d));
    forall t | t in targets
      ensures Subgraph(Child(q, reading, c, d, visited, t), Child(q, reading, citesDepth, citedDepth, visited, t))
    {
      if Recurses(reading, c, d, visited, t) {
        assert Recurses(reading, citesDepth, citedDepth, visited, t);
        ExpandGrowsWithDepth(q, reading, t, Next(citesDepth), Next(citedDepth), {});
      }
    }
    var small := ExpandWith(q, reading, source, c, d, dontRepeat);
    var big := ExpandWith(q, reading, source, citesDepth, citedDepth, dontRepeat);
    assert small.links == TargetLinks(q, reading, source, c, d, visited, targets);
    assert big.links == TargetLinks(q, reading, source, citesDepth, citedDepth, visited, targets);
    assert small.nodes == TargetNodes(q, reading, source, c, d, visited, targets);
    assert big.nodes == TargetNodes(q, reading, source, citesDepth, citedDepth, visited, targets);
    forall l | l in small.links ensures l in big.links {
      if t :| t in targets && l in Child(q, reading, c, d, visited, t).links {
        assert l in Child(q, reading, citesDepth, citedDepth, visited, t).links;
      } else {
        var t :| t in targets && l == Oriented(source, t, c);
        assert l == Oriented(source, t, citesDepth);
      }
    }
    forall n | n in small.nodes ensures n in big.nodes {
      if t :| t in targets && n in Child(q, reading, c, d, visited, t).nodes {
        assert n in Child(q, reading, citesDepth, citedDepth, visited, t).nodes;
      }
    }
  }

  /**
   For every run the program starts (an empty `dont_repeat`), the precedence
   of the guard does not change the result. The only visited target is then
   the source itself, re-entered in the cites direction with one unit of
   budget less, and by `ExpandGrowsWithDepth` that run adds nothing new.
   */
  lemma {:induction false} GuardReadingsAgree(q: Endpoint, source: DocId, citesDepth: nat, citedDepth: nat)
    ensures ExpandWith(q, AsWritten, source, citesDepth, citedDepth, {})
         == ExpandWith(q, BothRequired, source, citesDepth, citedDepth, {})
    decreases citesDepth + citedDepth
  {
    if citesDepth > 0 && citedDepth > 0 {
      GuardReadingsAgree(q, source, citesDepth, 0);
      GuardReadingsAgree(q, source, 0, citedDepth);
    } else {
      var visited: set<DocId> := {source};
      assert {} + {source} == visited;
      var targets := GetCitations(q, source, Hop(citesDepth), Hop(citedDepth));
      var aw := ExpandWith(q, AsWritten, source, citesDepth, citedDepth, {});
      var br := ExpandWith(q, BothRequired, source, citesDepth, citedDepth, {});
      assert aw.links == TargetLinks(q, AsWritten, source, citesDepth, citedDepth, visited, targets);
      assert br.links == TargetLinks(q, BothRequired, source, citesDepth, citedDepth, visited, targets);
      assert aw.nodes == TargetNodes(q, AsWritten, source, citesDepth, citedDepth, visited, targets);
      assert br.nodes == TargetNodes(q, BothRequired, source, citesDepth, citedDepth, visited, targets);
      forall t | t in targets
        ensures Subgraph(Child(q, BothRequired, citesDepth, citedDepth, visited, t),
                         Child(q, AsWritten, citesDepth, citedDepth, visited, t))
        ensures Subgraph(Child(q, AsWritten, citesDepth, citedDepth, visited, t), br)
      {
        if Recurses(AsWritten, citesDepth, citedDepth, visited, t) {
          GuardReadingsAgree(q, t, Next(citesDepth), Next(citedDepth));
          if !Recurses(BothRequired, citesDepth, citedDepth, visited, t) {
            assert t == source && citesDepth >= 2 && citedDepth == 0;
            ExpandGrowsWithDepth(q, BothRequired, source, citesDepth, 0, {});
          } else {
            var child := Child(q, BothRequired, citesDepth, citedDepth, visited, t);
            forall l | l in child.links ensures l in br.links {
              assert t in targets && l in child.links;
            }
            forall n | n in child.nodes ensures n in br.nodes {
              assert t in targets && n in child.nodes;
            }
          }
        }
      }
      forall l | l in aw.links ensures l in br.links {
        if t :| t in targets && l in Child(q, AsWritten, citesDepth, citedDepth, visited, t).links {
        }
      }
      forall l | l in br.links ensures l in aw.links {
        if t :| t in targets && l in Child(q, BothRequired, citesDepth, citedDepth, visited, t).links {
          assert l in Child(q, AsWritten, citesDepth, citedDepth, visited, t).links;
        }
      }
      forall n | n in aw.nodes ensures n in br.nodes {
        if t :| t in targets && n in Child(q, AsWritten, citesDepth, citedDepth, visited, t).nodes {
        }
      }
      forall n | n in br.nodes ensures n in aw.nodes {
        if t :| t in targets && n in Child(q, BothRequired, citesDepth, citedDepth, visited, t).nodes {
          assert n in Child(q, AsWritten, citesDepth, citedDepth, visited, t).nodes;
        }
      }
    }
  }
}
