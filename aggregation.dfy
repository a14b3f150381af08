/**
 The multi-seed entry points: `get_citations_structure_multiple`, which runs
 the expander from every legislation seed, and `get_citations_multiple`,
 which merges flat one-shot lookups.
 */
module Aggregation {
  import opened CitationGraph
  import opened Expansion

  /** `set(sources)`. */
  function Seeds(sources: seq<DocId>): (r: set<DocId>)
    ensures forall s :: s in r <==> s in sources
  {
    set s | s in sources
  }

  /** The links of every per-seed run over the legislation seeds in `sources`. */
  function SeedLinks(q: Endpoint, sources: seq<DocId>, citesDepth: nat, citedDepth: nat): set<Link> {
    set s, l | s in sources && IsLegislation(s) && l in Expand(q, s, citesDepth, citedDepth, {}).links :: l
  }

  /** The nodes of every per-seed run over the legislation seeds in `sources`. */
  function SeedNodes(q: Endpoint, sources: seq<DocId>, citesDepth: nat, citedDepth: nat): set<DocId> {
    set s, n | s in sources && IsLegislation(s) && n in Expand(q, s, citesDepth, citedDepth, {}).nodes :: n
  }

  /**
   The graph `get_citations_structure_multiple` returns: every seed as a
   node, plus the union of the runs from the seeds that start with '3',
   each started with an empty `dont_repeat`.
   */
  function ExpandAll(q: Endpoint, sources: seq<DocId>, citesDepth: nat, citedDepth: nat): Graph {
    Graph(SeedLinks(q, sources, citesDepth, citedDepth),
          Seeds(sources) + SeedNodes(q, sources, citesDepth, citedDepth))
  }

  /**
   `get_citations_structure_multiple` as the code runs it: a loop over the
   seeds that unions in each legislation seed's run.
   */
  method GetCitationsStructureMultiple(q: Endpoint, sources: seq<DocId>, citesDepth: nat, citedDepth: nat)
    returns (links: set<Link>, nodes: set<DocId>)
    ensures Graph(links, nodes) == ExpandAll(q, sources, citesDepth, citedDepth)
  {
    links := {};
    nodes := set s | s in sources;
    for k := 0 to |sources|
      invariant links == SeedLinks(q, sources[..k], citesDepth, citedDepth)
      invariant nodes == Seeds(sources) + SeedNodes(q, sources[..k], citesDepth, citedDepth)
    {
      var source := sources[k];
      assert sources[..k + 1] == sources[..k] + [source];
      if |source| > 0 && source[0] == '3' {
        var newLinks, newNodes := GetCitationsStructure(q, source, citesDepth, citedDepth, {});
        links := links + newLinks;
        nodes := nodes + newNodes;
      }
    }
    assert sources[..|sources|] == sources;
  }

  /**
   Every seed is a node, whether or not it was expanded, and both endpoints
   of every link are nodes.
   */
  lemma ExpandAllClosed(q: Endpoint, sources: seq<DocId>, citesDepth: nat, citedDepth: nat)
    ensures Seeds(sources) <= ExpandAll(q, sources, citesDepth, citedDepth).nodes
    ensures Closed(ExpandAll(q, sources, citesDepth, citedDepth))
  {
    var g := ExpandAll(q, sources, citesDepth, citedDepth);
    forall l | l in g.links ensures l.from in g.nodes && l.to in g.nodes {
      var s :| s in sources && IsLegislation(s) && l in Expand(q, s, citesDepth, citedDepth, {}).links;
      ExpandClosed(q, AsWritten, s, citesDepth, citedDepth, {});
    }
  }

  /** Every node is one of the seeds or a piece of legislation. */
  lemma ExpandAllNodes(q: Endpoint, sources: seq<DocId>, citesDepth: nat, citedDepth: nat)
    ensures forall n :: n in ExpandAll(q, sources, citesDepth, citedDepth).nodes ==> n in sources || IsLegislation(n)
  {
    forall n | n in SeedNodes(q, sources, citesDepth, citedDepth) ensures n in sources || IsLegislation(n) {
      var s :| s in sources && IsLegislation(s) && n in Expand(q, s, citesDepth, citedDepth, {}).nodes;
      ExpandFoundLegislation(q, AsWritten, s, citesDepth, citedDepth, {});
    }
  }

  /**
   A seed that does not start with '3' is never expanded: appending it adds
   that seed as a node and nothing else.
   */
  lemma NonLegislationSeedInert(q: Endpoint, sources: seq<DocId>, s: DocId, citesDepth: nat, citedDepth: nat)
    requires !IsLegislation(s)
    ensures var before := ExpandAll(q, sources, citesDepth, citedDepth);
            ExpandAll(q, sources + [s], citesDepth, citedDepth) == Graph(before.links, before.nodes + {s})
  {
    assert forall x :: x in sources + [s] <==> x in sources || x == s;
    assert SeedLinks(q, sources + [s], citesDepth, citedDepth) == SeedLinks(q, sources, citesDepth, citedDepth);
    assert SeedNodes(q, sources + [s], citesDepth, citedDepth) == SeedNodes(q, sources, citesDepth, citedDepth);
  }

  /** `set().union(*sets)`: the union of a list of sets. */
  function UnionAll(sets: seq<set<DocId>>): (r: set<DocId>)
    ensures forall x :: x in r <==> exists i :: 0 <= i < |sets| && x in sets[i]
  {
    if sets == [] then {} else sets[0] + UnionAll(sets[1..])
  }

  /**
   `get_citations_multiple`: the lookup answers for every seed, followed by
   the seed list itself, merged. The intersection the documentation offers
   never happens: with `union` false the code still unions when there is
   more than one seed, and with exactly one seed returns its lookup answer
   alone. (With no seed at all it returns the empty seed list, here the
   empty set.)
   */
  function CitationsMultiple(q: Endpoint, sources: seq<DocId>, citesDepth: nat, citedDepth: nat, union: bool)
    : set<DocId>
  {
    var results := seq(|sources|, i requires 0 <= i < |sources| => GetCitations(q, sources[i], citesDepth, citedDepth))
                   + [Seeds(sources)];
    if union then UnionAll(results)
    else if |sources| > 1 then results[0] + UnionAll(results[1..])
    else results[0]
  }

  /** Some seed's lookup answer contains `x`. */
  predicate FoundFromSome(q: Endpoint, sources: seq<DocId>, citesDepth: nat, citedDepth: nat, x: DocId) {
    exists i :: 0 <= i < |sources| && x in GetCitations(q, sources[i], citesDepth, citedDepth)
  }

  /**
   What `get_citations_multiple` returns: the seeds together with every
   seed's lookup answer, except for a single seed with `union` false, which
   gives that seed's lookup answer alone (the seed itself only if the
   lookup returned it).
   */
  lemma CitationsMultipleContents(q: Endpoint, sources: seq<DocId>, citesDepth: nat, citedDepth: nat, union: bool)
    ensures union || |sources| != 1 ==>
              forall x :: x in CitationsMultiple(q, sources, citesDepth, citedDepth, union)
                          <==> x in sources || FoundFromSome(q, sources, citesDepth, citedDepth, x)
    ensures !union && |sources| == 1 ==>
              CitationsMultiple(q, sources, citesDepth, citedDepth, union)
              == GetCitations(q, sources[0], citesDepth, citedDepth)
  {
    var results := seq(|sources|, i requires 0 <= i < |sources| => GetCitations(q, sources[i], citesDepth, citedDepth))
                   + [Seeds(sources)];
    var r := CitationsMultiple(q, sources, citesDepth, citedDepth, union);
    if union || |sources| != 1 {
      assert r == UnionAll(results) by {
        if !union && |sources| > 1 {
          assert results == [results[0]] + results[1..];
        } else if !union {
          assert results == [Seeds(sources)];
        }
      }
      forall x ensures x in r <==> x in sources || FoundFromSome(q, sources, citesDepth, citedDepth, x) {
        if x in r {
          var i :| 0 <= i < |results| && x in results[i];
          if i == |sources| {
            assert x in sources;
          } else {
            assert x in GetCitations(q, sources[i], citesDepth, citedDepth);
          }
        } else {
          assert x !in results[|sources|];
          forall i | 0 <= i < |sources| ensures x !in GetCitations(q, sources[i], citesDepth, citedDepth) {
            assert x !in results[i];
          }
        }
      }
    }
  }

  /**
   The intersection mode does not exist: with more than one seed, `union`
   false gives exactly what `union` true gives.
   */
  lemma NoIntersectionMode(q: Endpoint, sources: seq<DocId>, citesDepth: nat, citedDepth: nat)
    requires |sources| > 1
    ensures CitationsMultiple(q, sources, citesDepth, citedDepth, false)
         == CitationsMultiple(q, sources, citesDepth, citedDepth, true)
  {
    CitationsMultipleContents(q, sources, citesDepth, citedDepth, false);
    CitationsMultipleContents(q, sources, citesDepth, citedDepth, true);
  }
}
