# Road-network reduction, modelled in Dafny

This project models the network-reduction part of `Initialising.py`: the script that turns a
flat table of road links into a simplified node/link network, attaches origin and destination
zones to its nodes and lays the result out as CSV rows.

- **Graph builder** (`group_by_node_id`): folds link rows into one row per from-node, in order of
  first appearance. Each node row is `[id, weight, x, y, link...]` and each link is
  `[link id, adjacent node, length × weight, adjacent x, adjacent y]`.
- **Simplifier** (`simplify_network`): a `while changed` loop. Each pass prunes dead ends, then
  collapses degree-2 nodes into synthetic `collapsed_…` links, recording their ancestry in
  `link_origins` and in the collapsed-link log, then drops parallel links. A backfill after the
  loop gives every surviving `collapsed_` link a log row.
- **OD matching** (`flag_OD_nodes`, `add_od_flags_to_grouped`): each zone point goes to the
  first nearest node by squared distance. The matches are then inverted into three `;`-joined
  id fields on each node row.
- **Export layout** (`write_to_csv`): a header with 7 + 5·m cells, where m is the largest
  out-degree, and every row padded to that width in 5-cell link slots.

Modules follow the program's structure:

| file | module | models |
|---|---|---|
| wrappers.dfy | `Wrappers` | `Option`, `Result` |
| network.dfy | `Network` | `Link`, `Node` (one row of `grouped_data`) and the list filter shared by the passes |
| grouping.dfy | `Grouping` | `group_by_node_id` |
| prune.dfy | `Prune` | dead-end pruning |
| collapse.dfy | `Collapse` | degree-2 collapse |
| dedup.dfy | `Dedup` | parallel-link deduplication |
| simplify.dfy | `Simplify` | origins set-up, the pass loop, backfill, `simplify_network` |
| od_match.dfy | `OdMatch` | `flag_OD_nodes`, `add_od_flags_to_grouped` |
| export.dfy | `Export` | the rows `write_to_csv` writes |
| pipeline.dfy | `Pipeline` | the script's main sequence |

Every loop of the source is a Dafny `method` with its loop invariants. Each method is proved
equal to a reference function. The properties the code promises are lemmas about those
functions.

**How the aliasing is modelled.** Python rows are lists, and the collapse pass rewrites a
neighbour's row in place through `node_dict`. Here rows are values. `node_dict` is the map
`IndexOf` from id to row position, and the in-place rewrite is an update of that position in the
pass's row sequence. A later node in the same pass therefore reads its neighbour's links as
earlier collapses left them. Nodes already marked for removal still count as present, because the
map is not rebuilt during the pass.

**Ids must be distinct.** The simplifier requires distinct row ids, and grouping guarantees them
(`Grouping.GroupedRows`). Under that condition, iterating `node_dict` is iterating the rows in
order.

**The loop needs no iteration cap.** An isolated ring of degree-2 nodes still terminates: every
pass that reports a change removes a row, so the loop runs at most one pass per row plus a final
quiet pass (`Simplify.RunToFixpoint`, `Simplify.Rounds`).

## Model

| member | source | states |
|---|---|---|
| `Grouping.GroupByNodeId` | Initialising.py:234-251 | the defaultdict loop and the row-building loop return exactly `Grouped(data, nodes)` |
| `Grouping.GroupLinks` | Initialising.py:236-246 | the `defaultdict` loop keys exactly the from-ids, in first-appearance order, each holding the links of its rows in input order |
| `Grouping.GroupedRows` | Initialising.py:234-251 | one row per distinct FROM_UFI and no other id; rows in order of first appearance; weight and coordinates looked up, (0, 0, 0) when unknown; each row's links are the links of its own input rows |
| `Grouping.LinksFromSound` | Initialising.py:236-246 | every link of a node comes from an input row starting at that node, so no reverse link is added |
| `Grouping.LinksFromComplete` | Initialising.py:236-246 | every input row contributes its link, with weight length × weight (0.0 when either parse fails), to its own from-node |
| `Grouping.GroupedLinkCount` | Initialising.py:236-251 | the rows hold exactly as many links as there are input rows |
| `Grouping.FirstFrom` | Initialising.py:236-248 | the position of the first input row starting at a node: it starts there, and no earlier row does |
| `Network.WithoutProperties` | Initialising.py:288 | filtering rows by id leaves exactly the ids not removed, only input headers, and distinct ids distinct |
| `Prune.PruneDeadEnds` | Initialising.py:280-290 | the pass reports a change exactly when some node has at most one link; its rows equal `Pruned(rows)` |
| `Prune.PrunedExactly` | Initialising.py:280-288 | with distinct ids, a node survives pruning if and only if it has more than one link |
| `Prune.PrunedIds` | Initialising.py:280-290 | the surviving ids are the input ids minus the dead ends; headers unchanged; ids stay distinct |
| `Prune.PrunedNoLinkToRemoved` | Initialising.py:289-290 | after pruning, no link targets a removed node |
| `Prune.PrunedFromInput` | Initialising.py:288-290 | every surviving row is an input row with more than one link, minus its links to removed nodes, in order |
| `Prune.NothingToDrop` | Initialising.py:287-290 | with no dead end, pruning changes nothing |
| `Collapse.IndexOf` | Initialising.py:293 | `node_dict` has exactly the row ids as keys, and each maps to a row carrying that id |
| `Collapse.RewireLinks` | Initialising.py:321-327 | the loop returns `Rewired`: every link to the collapsed node replaced by the new link, the others kept in order |
| `Collapse.CollapseDegreeTwo` | Initialising.py:292-335 | the collapse loop returns the rows, `link_origins`, log and change flag of `Collapsed` |
| `Collapse.CollapseStep` | Initialising.py:295-331 | one collapse: a node with two links collapses only if both targets are in `node_dict`. The new id is `collapsed_{node}_{n1}_{n2}` and the weight is w1 + w2. The ancestry is anc(link1) ++ anc(link2), with `[id]` for an unknown id, and `[id] ++ ancestry` is logged. Each neighbour's links to the node become the new link to the other neighbour, with that neighbour's cached coordinates; the other links stay in order; every other row is unchanged |
| `Collapse.CollapseAtMarks` | Initialising.py:297-331 | one iteration keeps every header and marks the current node exactly when it collapses |
| `Collapse.CollapsedProperties` | Initialising.py:292-335 | the collapse step keeps ancestries and log rows within the original link ids and every link known to `link_origins`; it only appends `collapsed_` rows to the log; it removes exactly the marked ids and alters no header; it shrinks the rows when it reports a change |
| `Collapse.CollapsedShrinks` | Initialising.py:329-335 | the rows never grow, shrink when a node was marked, and are untouched when none was |
| `Collapse.CollapseFromNoneNoCandidate` | Initialising.py:295-305 | a collapse loop that marks nothing met no node with two links whose targets are both in `node_dict` |
| `Dedup.DedupLinks` | Initialising.py:340-349 | the insertion-ordered dictionary loop returns `Deduped`: for each valid target, in order of first occurrence, the first link of minimal weight |
| `Dedup.RemoveDuplicates` | Initialising.py:337-349 | every row's links are deduplicated against the surviving ids |
| `Dedup.FirstMinIsFirstMinimal` | Initialising.py:347-348 | the link kept for a target has minimal weight among links to it, and every earlier link to it is strictly heavier (the strict `<` keeps the first on ties) |
| `Dedup.DedupedProperties` | Initialising.py:338-349 | one link per target; only targets among the surviving ids; a target is kept exactly when some link points at it; kept links in order of their target's first occurrence; each kept link first-minimal |
| `Dedup.DedupedClean` | Initialising.py:340-349 | links with distinct, valid targets are left exactly as they are |
| `Dedup.DedupedIdempotent` | Initialising.py:340-349 | deduplicating twice is deduplicating once |
| `Dedup.DedupedSubset` | Initialising.py:340-349 | every kept link is an input link |
| `Dedup.DedupAllProperties` | Initialising.py:337-349 | headers and ids kept; every link targets a surviving node, the docstring's "all adjacent nodes exist as starting nodes"; no two links of a row share a target; kept links are input links |
| `Simplify.InitLinkOrigins` | Initialising.py:266-271 | `link_origins` starts with exactly the input link ids, each mapped to `[id]` |
| `Simplify.Pass` | Initialising.py:275-349 | a pass never adds rows, and a pass that sets `changed` removes at least one row |
| `Simplify.RunPass` | Initialising.py:275-349 | prune, collapse and deduplicate in sequence compute `Pass` |
| `Simplify.Rounds` | Initialising.py:273-349 | the number of passes is between 1 and (row count + 1) |
| `Simplify.RunToFixpoint` | Initialising.py:273-349 | the `while changed` loop ends in `Iterate(start)` after exactly `Rounds(start)` passes, so at most one pass per row plus a final quiet pass |
| `Simplify.BackfillNode` | Initialising.py:355-359 | the inner loop adds one row, id followed by its ancestry, per `collapsed_` link of the node not logged before the scan |
| `Simplify.BackfillLog` | Initialising.py:352-359 | the backfill loop returns `Backfilled` |
| `Simplify.BackfilledProperties` | Initialising.py:352-359 | after the backfill every surviving `collapsed_` link has a log row. The backfill only appends, only for `collapsed_` ids not logged before it, and keeps the log within the original link ids |
| `Simplify.PassProperties` | Initialising.py:275-349 | a pass keeps the provenance invariants, never adds or alters a header, keeps ids distinct, only appends `collapsed_` log rows, and leaves every link pointing at a surviving row with one link per target |
| `Simplify.IterateProperties` | Initialising.py:273-349 | the whole loop keeps what each pass keeps, and it ends on settled rows |
| `Simplify.SimplifyNetwork` | Initialising.py:254-361 | the result equals `Simplified(input)`. Ids are a subset of the input ids and never renamed; headers are unaltered and ids distinct; links point only at surviving nodes, one per target; log rows name only input link ids after the new id; every `collapsed_` link is logged |
| `Simplify.QuietPass` | Initialising.py:273-349 | a quiet pass over settled rows changes nothing and leaves only nodes of degree three or more |
| `Simplify.StableRows` | Initialising.py:273-349 | settled rows with every degree at least three are a fixed point, reached in one pass |
| `Simplify.TwoPassesSettle` | Initialising.py:273-349 | a run of two passes or more ends with every node of degree three or more |
| `Simplify.QuietFirstPassLeavesDeadEnds` | Initialising.py:273-349 | on a concrete input, the first pass prunes and collapses nothing, so the loop stops, yet its deduplication has left two nodes with a single link each |
| `Simplify.SimplifyNetworkCorrected` | Initialising.py:254-361 | with one deduplication before the loop, the result keeps every `SimplifyNetwork` guarantee, every node has degree three or more, and re-simplifying it returns it unchanged |
| `Simplify.CorrectedIdempotent` | Initialising.py:273-349 | the corrected simplifier applied to its own output returns the same rows |
| `OdMatch.Nearest` | Initialising.py:368-373 | the scan's position is `None` exactly for no rows, and otherwise the first row of minimal squared distance |
| `OdMatch.NearestUnique` | Initialising.py:369-373 | the first nearest row is unique |
| `OdMatch.NearestNode` | Initialising.py:368-374 | the best-so-far loop with a strict `<` from infinity returns the first nearest node's id, or `None` when there are no nodes |
| `OdMatch.FlagOdNodes` | Initialising.py:364-375 | every point, in map order, is paired with `NearestId` |
| `OdMatch.AssignedProperties` | Initialising.py:364-375 | every point keeps its id; it is unmatched exactly when there are no nodes; otherwise it is matched to the first nearest node |
| `OdMatch.ReverseAssignments` | Initialising.py:378-386 | the reverse dictionary has a key exactly for node ids some point was matched to (not `None`, not empty), each holding those point ids in map order |
| `OdMatch.MappedToMembers` | Initialising.py:379-380 | a point id is filed under a node exactly when it was matched to that non-empty node id |
| `OdMatch.AddOdFlags` | Initialising.py:377-398 | the annotation loop returns `Annotated` |
| `OdMatch.FieldSplits` | Initialising.py:390-396 | an inserted field is 0 exactly when no point was matched to the node, and otherwise splits back into the matched point ids in order, when no point id contains `;` |
| `OdMatch.AnnotatedProperties` | Initialising.py:388-398 | row count and order, the first four fields and the links are preserved. Each of the three inserted fields is 0 exactly when no point was matched, and otherwise splits back into the matched point ids in order, when no point id contains `;` |
| `OdMatch.SplitJoin` | Initialising.py:394-396 | splitting a `;`-joined field returns its parts when none contains `;` |
| `OdMatch.MatchedOnce` | Initialising.py:364-398 | with distinct ids, a matched point appears under its nearest node's row and no other |
| `Export.LayoutRows` | Initialising.py:401-415 | the header and rows written equal `Layout(data)`, which fails exactly on empty data (`max()` of nothing) |
| `Export.RowOut` | Initialising.py:411-414 | one row: the seven fields, five cells per link, then empty slots |
| `Export.MaxLinksProperties` | Initialising.py:402 | the maximal out-degree bounds every row and is attained |
| `Export.HeaderShape` | Initialising.py:403-405 | the header has 7 + 5m cells, the link columns at 7 + 5k |
| `Export.RowShape` | Initialising.py:411-414 | a row has 7 + 5m cells, with link k at cells 7 + 5k to 11 + 5k and empty cells after the last link |
| `Export.LayoutProperties` | Initialising.py:401-415 | failure exactly on empty data; otherwise one row per node, every row as wide as the header, which is 7 + 5·max out-degree |
| `Export.RowRoundTrip` | Initialising.py:411-414 | every data row reads back as the node row it was written from |
| `Pipeline.RunPipeline` | Initialising.py:418-426 | grouping, simplifying as written, matching, annotating and laying out compute `Exported`. The export fails exactly when no node survives; otherwise there is one row per node, each as wide as the header; the exported nodes' links lead only to exported nodes, one per neighbour |
| `Pipeline.RunPipelineCorrected` | Initialising.py:418-426 | the same sequence with the corrected simplifier computes `ExportedCorrected`, with the same failure and width guarantees, and every exported node has at least three links |

## Left out

- Level-of-traffic-stress loading and processing, and the OD coordinate loading, are left out. They are CSV and regex I/O and depend on helpers not in the file.
- File writing is left out: the actual writing in `write_to_csv` and the log export. The model stops at the header and the rows.
- Timing, `print` and `euclidean_distance` are left out. The last uses `sqrt` and is never called.
- Floating point is modelled as `real`. Weights add, and squared distances are computed, exactly; IEEE rounding and NaN are not modelled. Parsing `length` and `weight` is an abstract `Option<real>` parse result.
- The script's undefined `data`, `nodes` and point tables become parameters. A point table is the sequence of its dictionary's items, taken as distinct where `MatchedOnce` needs it.
- The `isinstance` filters disappear, because every link is a `Link` value. `str(node)` is the identity on string ids.
- A row with a duplicate id is not modelled in the passes: the simplifier requires distinct ids, which grouping guarantees.
- Simplify.SimplifyNetwork: it does not state that every collapsed link's ancestry has no repeats, nor that weights add along chains of collapses. Neither holds in general: a collapsed id can collide with an input id, and a later collapse with the same id overwrites `link_origins`. Per collapse, w1 + w2 and anc(link1) ++ anc(link2) are proved in `Collapse.CollapseStep`.
- Collapse.CollapseStep: the rewiring of the neighbours' links is stated pointwise only when neither link of the node is a self-loop. That of the second neighbour is stated only when the two neighbours differ; when they are the same row, the first rewrite already covers it. A self-loop rewrites the node's own row, which is then removed anyway.
- `grouped_data` being mutated in place for its caller is not modelled: the methods return the new rows.

## Findings

| source | as written | input that shows it | evidently intended | confidence | as-written member | corrected member |
|---|---|---|---|---|---|---|
| Initialising.py:273-349 | `changed` is set only by pruning and collapsing, so a pass whose deduplication leaves a node with one link still ends the loop | A with links a1 → B (weight 5), a2 → B (3) and a3 → Z (1), where Z has no row; B with three links to A. The first pass prunes and collapses nothing and the loop stops with A = [a2] and B = [b1], two dead ends | the docstring's order of pruning, then collapsing, then deduplicating, repeated until nothing changes: no node of degree one or two should remain. Deduplicating once before the loop gives that, and the result is a fixed point | not executed | `Simplify.QuietFirstPassLeavesDeadEnds` | `Simplify.SimplifyNetworkCorrected` |

`Simplify.SimplifyNetwork` models the code as written. `Simplify.TwoPassesSettle` shows the
defect only arises when the loop stops after its first pass. `Pipeline.RunPipeline` runs the
script's sequence with the simplifier as written; `Pipeline.RunPipelineCorrected` runs it with
the corrected one.
