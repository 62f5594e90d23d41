/** The script's main sequence: group the link rows into nodes, simplify, match the three point
    tables to nodes, annotate the rows, and lay out the export. */
module Pipeline {
  import opened Wrappers
  import opened Network
  import opened Grouping
  import opened Simplify
  import opened OdMatch
  import opened Export

  /** The table and log an export of already simplified rows produces. */
  function ExportOf(simplified: (seq<Node>, seq<seq<string>>),
                    originsSa1: seq<Point>, originsSa2: seq<Point>, destinations: seq<Point>)
    : (Result<Table, ExportError>, seq<seq<string>>)
  {
    var (rows, log) := simplified;
    var flagged := Annotated(rows, Assigned(rows, originsSa1), Assigned(rows, originsSa2), Assigned(rows, destinations));
    (Layout(flagged), log)
  }

  /** The exported table and the collapsed-link log the script produces. */
  function Exported(data: seq<LinkRow>, nodes: map<string, NodeInfo>,
                    originsSa1: seq<Point>, originsSa2: seq<Point>, destinations: seq<Point>)
    : (Result<Table, ExportError>, seq<seq<string>>)
  {
    ExportOf(Simplified(Grouped(data, nodes)), originsSa1, originsSa2, destinations)
  }

  /** The same sequence with the simplifier that deduplicates before its loop. */
  function ExportedCorrected(data: seq<LinkRow>, nodes: map<string, NodeInfo>,
                             originsSa1: seq<Point>, originsSa2: seq<Point>, destinations: seq<Point>)
    : (Result<Table, ExportError>, seq<seq<string>>)
  {
    ExportOf(SimplifiedCorrected(Grouped(data, nodes)), originsSa1, originsSa2, destinations)
  }

  /** Lines 418-426. The export fails exactly when no node survives; otherwise there is one row
      per node, each as wide as the header; the exported nodes' links all lead to exported nodes,
      one link per neighbour. */
  method RunPipeline(data: seq<LinkRow>, nodes: map<string, NodeInfo>,
                     originsSa1: seq<Point>, originsSa2: seq<Point>, destinations: seq<Point>)
    returns (table: Result<Table, ExportError>, log: seq<seq<string>>)
    ensures (table, log) == Exported(data, nodes, originsSa1, originsSa2, destinations)
    ensures table.Failure? <==> Simplified(Grouped(data, nodes)).0 == []
    ensures table.Success? ==>
      && |table.value.rows| == |Simplified(Grouped(data, nodes)).0|
      && forall i :: 0 <= i < |table.value.rows| ==> |table.value.rows[i]| == |table.value.header|
    ensures Settled(Simplified(Grouped(data, nodes)).0)
  {
    var grouped := GroupByNodeId(data, nodes);
    GroupedRows(data, nodes);
    var rows, collapsedLog := SimplifyNetwork(grouped);
    var mapSa1 := FlagOdNodes(rows, originsSa1);
    var mapSa2 := FlagOdNodes(rows, originsSa2);
    var mapDest := FlagOdNodes(rows, destinations);
    var flagged := AddOdFlags(rows, mapSa1, mapSa2, mapDest);
    table := LayoutRows(flagged);
    log := collapsedLog;
    LayoutProperties(flagged);
  }

  /** Lines 418-426 with the corrected simplifier: as `RunPipeline`, and in addition every
      exported node has at least three links. */
  method RunPipelineCorrected(data: seq<LinkRow>, nodes: map<string, NodeInfo>,
                              originsSa1: seq<Point>, originsSa2: seq<Point>, destinations: seq<Point>)
    returns (table: Result<Table, ExportError>, log: seq<seq<string>>)
    ensures (table, log) == ExportedCorrected(data, nodes, originsSa1, originsSa2, destinations)
    ensures table.Failure? <==> SimplifiedCorrected(Grouped(data, nodes)).0 == []
    ensures table.Success? ==>
      && |table.value.rows| == |SimplifiedCorrected(Grouped(data, nodes)).0|
      && forall i :: 0 <= i < |table.value.rows| ==> |table.value.rows[i]| == |table.value.header|
    ensures Simple(SimplifiedCorrected(Grouped(data, nodes)).0)
  {
    var grouped := GroupByNodeId(data, nodes);
    GroupedRows(data, nodes);
    var rows, collapsedLog := SimplifyNetworkCorrected(grouped);
    var mapSa1 := FlagOdNodes(rows, originsSa1);
    var mapSa2 := FlagOdNodes(rows, originsSa2);
    var mapDest := FlagOdNodes(rows, destinations);
    var flagged := AddOdFlags(rows, mapSa1, mapSa2, mapDest);
    table := LayoutRows(flagged);
    log := collapsedLog;
    LayoutProperties(flagged);
  }
}
