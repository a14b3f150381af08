# EU legislation reference querier — citation expansion model

The querier starts from one or more CELEX document ids. It asks a legal
knowledge graph which documents each one cites, or is cited by, and keeps
only legislation, whose ids start with `3`. It grows a citation graph to
a bounded depth in each direction and scores the nodes it finds against a
reference ("expert") set with precision, recall and F1.

This project models that core in Dafny:

- `CitationGraph` (`graph.dfy`): document ids, links and graphs.
  - The knowledge-graph endpoint is an opaque function parameter
    (`Endpoint`).
  - `GetCitations` applies the code's legislation filter to the
    endpoint's answer.
- `Expansion` (`expansion.dfy`): `get_citations_structure`, as a
  recursive specification `ExpandWith`. It is mirrored by the method
  `GetCitationsStructure`, which keeps the code's for-loop and recursion
  and is proved to return the same graph.
  - The recursion guard `new_cites_depth or new_cited_depth and target
    not in dont_repeat` binds as `a or (b and c)` in Python. The model
    keeps that reading (`AsWritten`) next to the stricter one
    (`BothRequired`).
  - It proves that the two readings agree for every run the program
    starts.
  - A child run gets an empty `dont_repeat`, so there is no global
    visited set, and a node can be expanded again along another path.
    The model keeps this.
- `Aggregation` (`aggregation.dfy`) covers the two multi-seed helpers:
  - `get_citations_structure_multiple`: a loop, proved equal to the
    per-seed union `ExpandAll`;
  - `get_citations_multiple`: the flat lookup merge.
- `Scoring` (`scoring.dfy`): `do_stats`, with exact rational arithmetic.
  The division by zero it can raise is a result value.
- `Network` (`network.dfy`) holds the logic of `main.py`:
  - the undirected degree filter of `generate_network`;
  - `get_started`, with a worked example of its single-seed run.
- `DepthSweep` (`sweep.dfy`): `get_indv_stats`, as nested loops that
  collect one row per depth pair whose scoring succeeds. Three lemmas show
  the rows are sound, complete and in row-major order.

Where the documentation and the code differ, the model follows the code:

- The docstring of `get_citations_multiple` offers an intersection
  (`union=False`). The code never intersects:
  - with more than one seed it unions anyway;
  - with exactly one seed it returns that seed's lookup alone.
- With both budgets at 0, `get_citations_structure` does not return early.
  It still asks the endpoint, with hop bounds (0, 0), and links every
  answer inward.
- Visited-node protection reaches only one level down. In the cites
  direction it never applies.

## Model

| member | source | states |
|---|---|---|
| CitationGraph.GetCitations | src/helper_functions.py:41-43 | the answer is exactly the ids of the endpoint's answer that start with `3` |
| Expansion.ExpandWith | src/helper_functions.py:65-95 | the recursive specification of `get_citations_structure` (with the guard read either way); it computes, and the lemmas below state what it promises |
| Expansion.GetCitationsStructure | src/helper_functions.py:65-95 | the split into two single-direction runs, then the for-loop over the lookup answer that adds each target, its oriented link and the guarded recursive run, returns exactly the graph of the recursive specification `Expand` |
| Expansion.ExpandClosed | src/helper_functions.py:69-93 | the source is always a node, and both endpoints of every link are nodes; this holds for either reading of the guard |
| Expansion.ExpandFoundLegislation | src/helper_functions.py:77-93 | every node except the source is legislation |
| Expansion.ExpandLinksFound | src/helper_functions.py:79-88 | a cites-only run adds only links `(a, b)` where the one-hop cites lookup of `a` returned `b`; a cited-only run adds only links `(a, b)` where the one-hop cited lookup of `b` returned `a`; a two-direction run adds only links of either kind |
| Expansion.ExpandLastHop | src/helper_functions.py:72-93 | with a budget of at most one hop, the lookup is asked with those bounds and each answer becomes a node with one oriented link; nothing is expanded further; at (0, 0) the lookup is still asked |
| Expansion.CitesRunIgnoresDontRepeat | src/helper_functions.py:75-91 | a cites-only run returns the same graph whatever `dont_repeat` it gets, because the guard lets every target with cites budget through |
| Expansion.ExpandGrowsWithDepth | src/helper_functions.py:65-95 | in one direction with a budget of at least 2, the run with one unit less of budget is contained in the full run (at budget 1 the smaller run is the (0, 0) run, which links inward, so containment is not claimed there) |
| Expansion.GuardReadingsAgree | src/helper_functions.py:90-91 | for a run started with an empty `dont_repeat`, reading the guard as written (`a or (b and c)`) or as `(a or b) and c` gives the same graph |
| Aggregation.ExpandAll | src/helper_functions.py:98-107 | the specification of `get_citations_structure_multiple`: every seed as a node plus the union of the `3`-seed runs; its properties are the lemmas below |
| Aggregation.GetCitationsStructureMultiple | src/helper_functions.py:98-107 | the loop over the seeds returns every seed as a node plus the union of the runs of the seeds that start with `3`, each started with an empty `dont_repeat` |
| Aggregation.ExpandAllClosed | src/helper_functions.py:98-107 | every seed is a node, and every link's endpoints are nodes |
| Aggregation.ExpandAllNodes | src/helper_functions.py:100-105 | every node is a seed or a piece of legislation |
| Aggregation.NonLegislationSeedInert | src/helper_functions.py:101-102 | adding a seed that does not start with `3` adds that seed as a node and changes nothing else |
| Aggregation.UnionAll | src/helper_functions.py:57 | `set().union(*results)` holds exactly the ids that are in some set of the list |
| Aggregation.CitationsMultiple | src/helper_functions.py:46-63 | `get_citations_multiple`: the per-seed lookups followed by the seed list, merged by the `union` branch or the first-result branch exactly as the code does; what it returns is stated by `CitationsMultipleContents` |
| Aggregation.CitationsMultipleContents | src/helper_functions.py:53-63 | with `union` true, or with any number of seeds other than one, the result is exactly the seeds plus every seed's lookup answer; with `union` false and one seed, the result is that seed's lookup answer alone |
| Aggregation.NoIntersectionMode | src/helper_functions.py:56-63 | with more than one seed, `union=False` returns the same set as `union=True` |
| Scoring.DoStats | src/helper_functions.py:110-123 | fails exactly when the node set is empty, the reference set is empty, or they do not overlap; otherwise precision = \|N∩E\|/\|N\| and recall = \|N∩E\|/\|E\|, both in (0, 1], F1 = 2pr/(p+r), and F1 lies between them and in (0, 1] |
| Scoring.RatioBounds | src/helper_functions.py:113-114 | a ratio of counts is 0 exactly when its numerator is 0, and at most 1 when the numerator is at most the denominator |
| Scoring.F1Between | src/helper_functions.py:115 | `2pr/(p+r)` lies between `p` and `r` |
| Network.Degree | src/main.py:52-57 | the degree of a node in the undirected graph built from the links (distinct neighbours, a self-loop counting 2) is positive exactly when the node is a link endpoint |
| Network.DegreeFilter | src/main.py:56-60 | the kept set is contained in the link endpoints, so a seed with no link is never kept; with `filterNetwork` false it is all endpoints |
| Network.DegreeUndirected | src/main.py:52-53 | two link sets with the same undirected edges give every node the same degree |
| Network.FilterUndirected | src/main.py:52-60 | two link sets with the same undirected edges give the same filtered node set, in both filter modes |
| Network.FilterShrinks | src/main.py:56-60 | the degree-filtered node set is contained in the unfiltered one |
| Network.FilterAntitone | src/main.py:57 | raising the degree threshold never adds a node |
| Network.FilterUpToOneKeepsAll | src/main.py:57-60 | every endpoint has degree at least 1, so a threshold of at most 1 keeps all endpoints |
| Network.FilterPathExample | src/main.py:57 | on the path `a -> b -> c` with threshold 2 only `b` is kept |
| Network.GenerateNetwork | src/main.py:49-64 | expands the seeds with budgets (2, 2), filters by degree, and fails exactly when scoring the kept nodes fails; on success it returns exactly the degree-filtered endpoint set of the expanded links, every node of which is a node of the expanded graph and the endpoint of some link |
| Network.GetStarted | src/main.py:6-25 | runs the single-seed or the two-seed example, and fails exactly when scoring its nodes fails; on success it returns exactly that run's graph, which holds the seeds and is closed under its links |
| Network.SingleSeedRun | src/main.py:10-11 | a (2, 0) run from `32021R0664` gives nodes `{32021R0664, 32019R0945}` and the one link between them, whenever the one-hop cites lookup of `32021R0664` finds only `32019R0945` and that of `32019R0945` finds nothing |
| Network.GetStartedExample | src/main.py:10-11 | with an endpoint that answers `{32019R0945}` for `32021R0664` at hop bounds (1, 0) and nothing else, the single-seed run returns that graph |
| DepthSweep.ScoreRow | src/main.py:31-36 | the inner loop collects, in order, one row for each cited depth below the limit whose scoring succeeds, and skips the rest |
| DepthSweep.GetIndvStats | src/main.py:27-36 | the nested loops return the rows of the row-major sweep over both depths below the limit |
| DepthSweep.RowCellsSound | src/main.py:31-34 | every row of the inner loop has the loop's cites depth, a cited depth below the limit, and that pair's scores |
| DepthSweep.RowCellsComplete | src/main.py:31-36 | the inner loop has a row for every cited depth below the limit whose scoring succeeds |
| DepthSweep.RowCellsOrdered | src/main.py:31 | the inner loop's rows come in increasing cited depth |
| DepthSweep.SweepSound | src/main.py:30-34 | every row reports depths below the limit and exactly the scores of the union lookup with those depths |
| DepthSweep.SweepComplete | src/main.py:30-36 | every depth pair below the limit whose scoring succeeds has its row |
| DepthSweep.SweepOrdered | src/main.py:30-31 | rows come in strictly increasing row-major order of (cites depth, cited depth), so no pair is reported twice |

## Left out

- The SPARQL query text and its HTTP transport (src/helper_functions.py:13-40): network I/O. The endpoint is a function parameter; only the filter of line 41 is modelled on top of it.
- The `expert_docs` global used by `do_stats` (src/helper_functions.py:113-114) is not defined in the repository. It is a parameter (`expert`).
- In `get_indv_stats`, the `sources` list (src/main.py:33) is not defined anywhere, and the `source` parameter is unused. The seed list is a parameter.
- `get_started` overwrites or ignores its `source` argument (src/main.py:10, 14), so the model takes none.
- The two-line import at src/main.py:1-2 lacks parentheses and does not parse. The functions of `main.py` are modelled as their bodies read.
- All printing: the report in `do_stats` (src/helper_functions.py:116-122) and the lines of `get_indv_stats`. The sweep returns the rows it would print, with exact scores.
- Floating point: precision, recall and F1 are exact rationals, so IEEE rounding and the two-decimal formatting are not modelled.
- Negative depths are not modelled (depths are `nat`). The source passes them unchanged to the lookup (src/helper_functions.py:53, 79) and clamps only the children's budgets to 0 (src/helper_functions.py:72-73).
- Lookup failures are not modelled. Typing the endpoint as a total function assumes it always answers. In the source, an exception from `sparql.queryAndConvert()` (src/helper_functions.py:35) propagates out of `get_citations_structure(_multiple)`, `get_started` and `generate_network`, and aborts the whole `get_indv_stats` sweep, whose `except` catches only `ZeroDivisionError` (src/main.py:35).
- The endpoint is assumed to answer the same question the same way throughout a run, so a re-expanded node gives the same subgraph each time.
- `get_citations_multiple` with an empty seed list and `union=False` returns the empty list itself, not a set. The model returns the empty set.
- `prep_edges_list` (src/main.py:38-47) writes a CSV file. Its line 41 also concatenates a string with a list, which raises `TypeError`.
- Network.GenerateNetwork: ends before the export call `nx.write_gex` (src/main.py:63). That writes a file, and networkx's GEXF writer is named `write_gexf`, so the call as written fails. The model returns the filtered set, as the function evidently intends.
- `visualise_network` (src/main.py:66-71) renders HTML with pyvis. Its signature puts a required parameter after defaulted ones, which is a syntax error, and it reads an undefined `g`.
- networkx itself is not modelled. Degree is defined on the link set: the number of distinct neighbours other than the node itself, plus 2 for a self-citation loop, as networkx counts an undirected simple graph.
- `do_stats` first makes a set of its input (src/helper_functions.py:111). The model's inputs are already sets, so duplicates do not arise.
- The order in which a Python set is iterated is not modelled. Every loop over a set only takes unions, so the result does not depend on it.
