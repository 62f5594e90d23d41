/** Nearest-node matching of origin and destination points, and the annotation of the node rows
    with the points matched to them. */
module OdMatch {
  import opened Wrappers
  import opened Network

  /** An origin or destination point: its zone id and its coordinates. A table of points is the
      sequence of a dictionary's items, in its iteration order. */
  datatype Point = Point(id: string, x: real, y: real)

  /** Squared distance from a point to a node. */
  function SqDist(p: Point, n: Node): real {
    (p.x - n.x) * (p.x - n.x) + (p.y - n.y) * (p.y - n.y)
  }

  /** `rows[k]` is the first row of minimal squared distance to `p`. */
  predicate IsNearest(rows: seq<Node>, p: Point, k: int) {
    && 0 <= k < |rows|
    && (forall j :: 0 <= j < |rows| ==> SqDist(p, rows[k]) <= SqDist(p, rows[j]))
    && (forall j :: 0 <= j < k ==> SqDist(p, rows[j]) > SqDist(p, rows[k]))
  }

  /** The position the scan over the rows settles on; `None` for no rows. */
  function Nearest(rows: seq<Node>, p: Point): (r: Option<nat>)
    ensures r.None? <==> rows == []
    ensures r.Some? ==> IsNearest(rows, p, r.value)
  {
    if rows == [] then None
    else
      var init := rows[..|rows| - 1];
      var last := |rows| - 1;
      var prev := Nearest(init, p);
      assert forall j :: 0 <= j < |init| ==> init[j] == rows[j];
      if prev.None? || SqDist(p, rows[last]) < SqDist(p, rows[prev.value]) then Some(last) else prev
  }

  /** At most one row is the first nearest. */
  lemma NearestUnique(rows: seq<Node>, p: Point, a: int, b: int)
    requires IsNearest(rows, p, a) && IsNearest(rows, p, b)
    ensures a == b
  {
    var da, db := SqDist(p, rows[a]), SqDist(p, rows[b]);
    assert da <= db && db <= da;
  }

  /** The id of the nearest row, or `None` when there are no rows. */
  function NearestId(rows: seq<Node>, p: Point): Option<string> {
    match Nearest(rows, p)
    case None => None
    case Some(k) => Some(rows[k].id)
  }

  /** Lines 368-374 for one point: keep the best id and its squared distance, and replace them
      only on a strictly smaller distance. The initial infinite distance is `None`. */
  method NearestNode(rows: seq<Node>, p: Point) returns (bestId: Option<string>)
    ensures bestId == NearestId(rows, p)
    ensures bestId.None? <==> rows == []
    ensures bestId.Some? ==> exists k :: IsNearest(rows, p, k) && rows[k].id == bestId.value
  {
    bestId := None;
    var bestD2: Option<real> := None;
    ghost var best: Option<nat> := None;
    for i := 0 to |rows|
      invariant best == Nearest(rows[..i], p)
      invariant best.None? ==> bestId.None? && bestD2.None?
      invariant best.Some? ==> best.value < i && bestId == Some(rows[best.value].id) &&
                               bestD2 == Some(SqDist(p, rows[best.value]))
    {
      assert rows[..i + 1][..i] == rows[..i];
      var dx, dy := p.x - rows[i].x, p.y - rows[i].y;
      var d2 := dx * dx + dy * dy;
      assert d2 == SqDist(p, rows[..i + 1][i]);
      if bestD2.None? || d2 < bestD2.value {
        bestD2, bestId := Some(d2), Some(rows[i].id);
        best := Some(i);
      }
    }
    assert rows[..|rows|] == rows;
  }

  /** A point and the node id it was matched to (`None` when there are no nodes). */
  datatype Assignment = Assignment(od: string, node: Option<string>)

  /** The dictionary `flag_OD_nodes` returns, as its items in order. */
  function Assigned(rows: seq<Node>, ods: seq<Point>): (r: seq<Assignment>)
    ensures |r| == |ods|
  {
    seq(|ods|, i requires 0 <= i < |ods| => Assignment(ods[i].id, NearestId(rows, ods[i])))
  }

  /** Lines 364-375: every point, in order, matched to the first nearest node. */
  method FlagOdNodes(rows: seq<Node>, ods: seq<Point>) returns (odToNode: seq<Assignment>)
    ensures odToNode == Assigned(rows, ods)
  {
    odToNode := [];
    for i := 0 to |ods|
      invariant odToNode == Assigned(rows, ods[..i])
    {
      var best := NearestNode(rows, ods[i]);
      odToNode := odToNode + [Assignment(ods[i].id, best)];
    }
    assert ods[..|ods|] == ods;
  }

  /** Every point keeps its id and is matched to the first node, in row order, of minimal squared
      distance, or to nothing when there are no nodes. */
  lemma AssignedProperties(rows: seq<Node>, ods: seq<Point>)
    ensures forall i :: 0 <= i < |ods| ==> Assigned(rows, ods)[i].od == ods[i].id
    ensures forall i :: 0 <= i < |ods| ==> (Assigned(rows, ods)[i].node.None? <==> rows == [])
    ensures forall i :: 0 <= i < |ods| && Assigned(rows, ods)[i].node.Some? ==>
              exists k :: IsNearest(rows, ods[i], k) && rows[k].id == Assigned(rows, ods)[i].node.value
  {
    forall i | 0 <= i < |ods| && Assigned(rows, ods)[i].node.Some?
      ensures exists k :: IsNearest(rows, ods[i], k) && rows[k].id == Assigned(rows, ods)[i].node.value
    {
      var k := Nearest(rows, ods[i]).value;
      assert IsNearest(rows, ods[i], k);
    }
  }

  // ---------------------------------------------------------------------------
  // Inverting the matches

  /** The point ids matched to `nodeId`, in order. `if node:` skips unmatched points and the
      empty id, so nothing is ever filed under "". */
  function MappedTo(assignments: seq<Assignment>, nodeId: string): seq<string> {
    if assignments == [] then []
    else
      var a := assignments[|assignments| - 1];
      MappedTo(assignments[..|assignments| - 1], nodeId) +
        (if a.node == Some(nodeId) && nodeId != "" then [a.od] else [])
  }

  /** A point id is filed under a node exactly when some assignment matched it there. */
  lemma {:induction false} MappedToMembers(assignments: seq<Assignment>, nodeId: string, od: string)
    ensures od in MappedTo(assignments, nodeId) <==>
            nodeId != "" && exists j :: 0 <= j < |assignments| && assignments[j] == Assignment(od, Some(nodeId))
  {
    if assignments != [] {
      var init := assignments[..|assignments| - 1];
      MappedToMembers(init, nodeId, od);
      assert forall j :: 0 <= j < |init| ==> init[j] == assignments[j];
    }
  }

  /** One reverse dictionary of lines 378-386: `reverse.setdefault(str(node), []).append(od)`. */
  method ReverseAssignments(assignments: seq<Assignment>) returns (reverse: map<string, seq<string>>)
    ensures forall n :: n in reverse <==> MappedTo(assignments, n) != []
    ensures forall n :: n in reverse ==> reverse[n] == MappedTo(assignments, n)
  {
    reverse := map[];
    for i := 0 to |assignments|
      invariant forall n :: n in reverse <==> MappedTo(assignments[..i], n) != []
      invariant forall n :: n in reverse ==> reverse[n] == MappedTo(assignments[..i], n)
    {
      assert assignments[..i + 1][..i] == assignments[..i];
      var a := assignments[i];
      if a.node.Some? && a.node.value != "" {
        var key := a.node.value;
        var existing := if key in reverse then reverse[key] else [];
        reverse := reverse[key := existing + [a.od]];
      }
    }
    assert assignments[..|assignments|] == assignments;
  }

  /** `reverse.get(node_id, [])`. */
  function Get(reverse: map<string, seq<string>>, nodeId: string): seq<string> {
    if nodeId in reverse then reverse[nodeId] else []
  }

  // ---------------------------------------------------------------------------
  // Joined id fields

  /** `";".join(parts)`. */
  function Join(parts: seq<string>): string {
    if |parts| == 0 then ""
    else if |parts| == 1 then parts[0]
    else Join(parts[..|parts| - 1]) + ";" + parts[|parts| - 1]
  }

  /** `s.split(";")`, as a reader of the written file would apply it. */
  function Split(s: string): (r: seq<string>)
    ensures |r| >= 1
  {
    if s == [] then [""]
    else
      var init := Split(s[..|s| - 1]);
      var c := s[|s| - 1];
      if c == ';' then init + [""] else init[..|init| - 1] + [init[|init| - 1] + [c]]
  }

  predicate NoSeparator(s: string) {
    forall k :: 0 <= k < |s| ==> s[k] != ';'
  }

  /** Splitting text that ends in a separator-free part gives that part last. */
  lemma {:induction false} SplitLast(a: string, x: string)
    requires NoSeparator(x)
    ensures Split(a + ";" + x) == Split(a) + [x]
    ensures a == [] ==> Split(x) == [x]
    decreases |x|
  {
    if x == [] {
      assert (a + ";" + x)[..|a + ";" + x| - 1] == a;
      if a == [] {
        assert Split(x) == [""];
      }
    } else {
      var xi := x[..|x| - 1];
      var c := x[|x| - 1];
      assert (a + ";" + x)[..|a + ";" + x| - 1] == a + ";" + xi;
      SplitLast(a, xi);
      assert xi + [c] == x;
      if a == [] {
        assert x[..|x| - 1] == xi;
      }
    }
  }

  /** A reader splitting a joined field gets the ids back, provided none contains `;`. */
  lemma {:induction false} SplitJoin(parts: seq<string>)
    requires |parts| >= 1
    requires forall k :: 0 <= k < |parts| ==> NoSeparator(parts[k])
    ensures Split(Join(parts)) == parts
  {
    if |parts| == 1 {
      SplitLast([], parts[0]);
    } else {
      var init := parts[..|parts| - 1];
      SplitJoin(init);
      SplitLast(Join(init), parts[|parts| - 1]);
      assert init + [parts[|parts| - 1]] == parts;
    }
  }

  /** An inserted field: the joined point ids, or the integer 0 when there are none. */
  datatype OdField = Joined(ids: string) | Zero

  function Field(parts: seq<string>): OdField {
    if parts == [] then Zero else Joined(Join(parts))
  }

  /** A node row with the three inserted fields before its links. */
  datatype FlaggedNode = FlaggedNode(id: string, weight: real, x: real, y: real,
                                     originSa1: OdField, originSa2: OdField, destination: OdField,
                                     links: seq<Link>)

  function Annotate(n: Node, sa1: seq<Assignment>, sa2: seq<Assignment>, dest: seq<Assignment>): FlaggedNode {
    FlaggedNode(n.id, n.weight, n.x, n.y,
                Field(MappedTo(sa1, n.id)), Field(MappedTo(sa2, n.id)), Field(MappedTo(dest, n.id)), n.links)
  }

  /** The rows `add_od_flags_to_grouped` returns. */
  function Annotated(rows: seq<Node>, sa1: seq<Assignment>, sa2: seq<Assignment>, dest: seq<Assignment>): (r: seq<FlaggedNode>)
    ensures |r| == |rows|
  {
    seq(|rows|, i requires 0 <= i < |rows| => Annotate(rows[i], sa1, sa2, dest))
  }

  /** Lines 377-398: build the three reverse dictionaries, then a new row for every row. */
  method AddOdFlags(rows: seq<Node>, sa1: seq<Assignment>, sa2: seq<Assignment>, dest: seq<Assignment>)
    returns (updated: seq<FlaggedNode>)
    ensures updated == Annotated(rows, sa1, sa2, dest)
  {
    var reverseSa1 := ReverseAssignments(sa1);
    var reverseSa2 := ReverseAssignments(sa2);
    var reverseDest := ReverseAssignments(dest);
    updated := [];
    for i := 0 to |rows|
      invariant updated == Annotated(rows[..i], sa1, sa2, dest)
    {
      var row := rows[i];
      var sa1List := Get(reverseSa1, row.id);
      var sa2List := Get(reverseSa2, row.id);
      var dznList := Get(reverseDest, row.id);
      var newRow := FlaggedNode(row.id, row.weight, row.x, row.y,
                                if sa1List != [] then Joined(Join(sa1List)) else Zero,
                                if sa2List != [] then Joined(Join(sa2List)) else Zero,
                                if dznList != [] then Joined(Join(dznList)) else Zero,
                                row.links);
      updated := updated + [newRow];
    }
    assert rows[..|rows|] == rows;
  }

  /** One inserted field is 0 exactly when no point was matched to the node, and otherwise
      splits back into the matched point ids in matching order. */
  lemma FieldSplits(asg: seq<Assignment>, node: string)
    requires forall j :: 0 <= j < |asg| ==> NoSeparator(asg[j].od)
    ensures Field(MappedTo(asg, node)) == Zero <==> MappedTo(asg, node) == []
    ensures Field(MappedTo(asg, node)).Joined? ==> Split(Field(MappedTo(asg, node)).ids) == MappedTo(asg, node)
  {
    var ids := MappedTo(asg, node);
    forall k | 0 <= k < |ids| ensures NoSeparator(ids[k]) {
      MappedToMembers(asg, node, ids[k]);
    }
    if ids != [] {
      SplitJoin(ids);
    }
  }

  /** The annotation keeps the row count, the order, the first four fields and the links; each
      field is 0 exactly when no point was matched to the node, and otherwise splits back into the
      matched point ids in matching order (when no id contains `;`). */
  lemma AnnotatedProperties(rows: seq<Node>, sa1: seq<Assignment>, sa2: seq<Assignment>, dest: seq<Assignment>, i: nat)
    requires i < |rows|
    requires forall j :: 0 <= j < |sa1| ==> NoSeparator(sa1[j].od)
    requires forall j :: 0 <= j < |sa2| ==> NoSeparator(sa2[j].od)
    requires forall j :: 0 <= j < |dest| ==> NoSeparator(dest[j].od)
    ensures var r := Annotated(rows, sa1, sa2, dest)[i];
      && (r.id, r.weight, r.x, r.y) == Header(rows[i]) && r.links == rows[i].links
      && (r.originSa1 == Zero <==> MappedTo(sa1, rows[i].id) == [])
      && (r.originSa1.Joined? ==> Split(r.originSa1.ids) == MappedTo(sa1, rows[i].id))
      && (r.originSa2 == Zero <==> MappedTo(sa2, rows[i].id) == [])
      && (r.originSa2.Joined? ==> Split(r.originSa2.ids) == MappedTo(sa2, rows[i].id))
      && (r.destination == Zero <==> MappedTo(dest, rows[i].id) == [])
      && (r.destination.Joined? ==> Split(r.destination.ids) == MappedTo(dest, rows[i].id))
  {
    FieldSplits(sa1, rows[i].id);
    FieldSplits(sa2, rows[i].id);
    FieldSplits(dest, rows[i].id);
  }

  /** With distinct point ids and node ids, a point matched to a node with a non-empty id is
      filed under that node's row and no other. */
  lemma MatchedOnce(rows: seq<Node>, ods: seq<Point>, i: nat, j: nat)
    requires DistinctIds(rows)
    requires forall a, b :: 0 <= a < b < |ods| ==> ods[a].id != ods[b].id
    requires i < |ods| && j < |rows|
    ensures ods[i].id in MappedTo(Assigned(rows, ods), rows[j].id) <==>
            NearestId(rows, ods[i]) == Some(rows[j].id) && rows[j].id != ""
  {
    var asg := Assigned(rows, ods);
    MappedToMembers(asg, rows[j].id, ods[i].id);
    assert asg[i] == Assignment(ods[i].id, NearestId(rows, ods[i]));
  }
}
