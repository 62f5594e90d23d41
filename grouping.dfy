/** The graph builder: folds flat link rows into one node row per distinct from-node
    (`group_by_node_id`). */
module Grouping {
  import opened Wrappers
  import opened Network

  /** One input link record: `PFI`, `FROM_UFI`, `TO_UFI`, and the parse results of
      `float(length)` and `float(weight)` (None when the parse raised `ValueError`). */
  datatype LinkRow = LinkRow(pfi: string, fromUfi: string, toUfi: string,
                             length: Option<real>, weight: Option<real>)

  /** The node lookup's value: `(x, y, node_weight)`. */
  datatype NodeInfo = NodeInfo(x: real, y: real, weight: real)

  /** `nodes.get(id, (0.0, 0.0, 0.0))`. */
  function Lookup(nodes: map<string, NodeInfo>, id: string): NodeInfo {
    if id in nodes then nodes[id] else NodeInfo(0.0, 0.0, 0.0)
  }

  /** `float(length) * float(weight)`, or 0.0 when either parse fails. */
  function LinkWeight(r: LinkRow): real {
    if r.length.Some? && r.weight.Some? then r.length.value * r.weight.value else 0.0
  }

  /** The link a row contributes to its from-node, with the target's looked-up coordinates. */
  function LinkOf(r: LinkRow, nodes: map<string, NodeInfo>): Link {
    var adj := Lookup(nodes, r.toUfi);
    Link(r.pfi, r.toUfi, LinkWeight(r), adj.x, adj.y)
  }

  /** Some row of `data` starts at `id`. */
  predicate StartsAt(data: seq<LinkRow>, id: string) {
    exists p :: 0 <= p < |data| && data[p].fromUfi == id
  }

  /** The distinct from-ids of `data` in order of first appearance. */
  function FromOrder(data: seq<LinkRow>): seq<string> {
    if data == [] then []
    else
      var prev := FromOrder(data[..|data| - 1]);
      var id := data[|data| - 1].fromUfi;
      if id in prev then prev else prev + [id]
  }

  /** The links of the rows of `data` that start at `id`, in input order. */
  function LinksFrom(data: seq<LinkRow>, nodes: map<string, NodeInfo>, id: string): seq<Link> {
    if data == [] then []
    else
      var prev := LinksFrom(data[..|data| - 1], nodes, id);
      if data[|data| - 1].fromUfi == id then prev + [LinkOf(data[|data| - 1], nodes)] else prev
  }

  /** The node row built for `id`. */
  function RowFor(data: seq<LinkRow>, nodes: map<string, NodeInfo>, id: string): Node {
    var info := Lookup(nodes, id);
    Node(id, info.weight, info.x, info.y, LinksFrom(data, nodes, id))
  }

  /** One row per id of `ids`, in that order. */
  function RowsFor(data: seq<LinkRow>, nodes: map<string, NodeInfo>, ids: seq<string>): seq<Node> {
    if ids == [] then []
    else RowsFor(data, nodes, ids[..|ids| - 1]) + [RowFor(data, nodes, ids[|ids| - 1])]
  }

  /** What `group_by_node_id(data, nodes)` returns. */
  function Grouped(data: seq<LinkRow>, nodes: map<string, NodeInfo>): seq<Node> {
    RowsFor(data, nodes, FromOrder(data))
  }

  /** Index of the first row of `data` that starts at `id`. */
  function FirstFrom(data: seq<LinkRow>, id: string): (p: nat)
    requires StartsAt(data, id)
    ensures p < |data| && data[p].fromUfi == id
    ensures forall q :: 0 <= q < p ==> data[q].fromUfi != id
  {
    var init := data[..|data| - 1];
    if StartsAt(init, id) then
      var p := FirstFrom(init, id);
      assert data[p] == init[p];
      p
    else
      assert forall q :: 0 <= q < |init| ==> data[q] == init[q];
      |data| - 1
  }

  /** The total number of links over all rows. */
  function TotalLinks(rows: seq<Node>): nat {
    if rows == [] then 0 else TotalLinks(rows[..|rows| - 1]) + |rows[|rows| - 1].links|
  }

  /** The `defaultdict` loop (lines 236-246), as an insertion-ordered pair of a key list and a
      map: every from-id gets the links of its rows, in input order. */
  method GroupLinks(data: seq<LinkRow>, nodes: map<string, NodeInfo>)
    returns (order: seq<string>, grouped: map<string, seq<Link>>)
    ensures order == FromOrder(data)
    ensures forall k :: k in grouped <==> k in order
    ensures forall k :: k in grouped ==> grouped[k] == LinksFrom(data, nodes, k)
  {
    order := [];
    grouped := map[];
    var i := 0;
    while i < |data|
      invariant 0 <= i <= |data|
      invariant order == FromOrder(data[..i])
      invariant forall k :: k in grouped <==> k in order
      invariant forall k :: k in grouped ==> grouped[k] == LinksFrom(data[..i], nodes, k)
    {
      var entry := data[i];
      var linkWeight := if entry.length.Some? && entry.weight.Some? then entry.length.value * entry.weight.value else 0.0;
      var adj := Lookup(nodes, entry.toUfi);
      var link := Link(entry.pfi, entry.toUfi, linkWeight, adj.x, adj.y);
      assert link == LinkOf(entry, nodes);
      PrefixStep(data, nodes, i);
      if entry.fromUfi in grouped {
        grouped := grouped[entry.fromUfi := grouped[entry.fromUfi] + [link]];
      } else {
        NotStartedNoLinks(data[..i], nodes, entry.fromUfi);
        order := order + [entry.fromUfi];
        grouped := grouped[entry.fromUfi := [link]];
      }
      i := i + 1;
    }
    assert data[..i] == data;
  }

  /** The undefined `data` and `nodes` of the script become parameters. */
  method GroupByNodeId(data: seq<LinkRow>, nodes: map<string, NodeInfo>) returns (result: seq<Node>)
    ensures result == Grouped(data, nodes)
  {
    var order, grouped := GroupLinks(data, nodes);
    result := [];
    var j := 0;
    while j < |order|
      invariant 0 <= j <= |order|
      invariant result == RowsFor(data, nodes, order[..j])
    {
      var id := order[j];
      var info := Lookup(nodes, id);
      assert order[..j + 1][..j] == order[..j];
      result := result + [Node(id, info.weight, info.x, info.y, grouped[id])];
      j := j + 1;
    }
    assert order[..j] == order;
  }

  /** How the key order and the per-key links grow when one more row is read. */
  lemma PrefixStep(data: seq<LinkRow>, nodes: map<string, NodeInfo>, i: nat)
    requires i < |data|
    ensures FromOrder(data[..i + 1]) ==
      if data[i].fromUfi in FromOrder(data[..i]) then FromOrder(data[..i]) else FromOrder(data[..i]) + [data[i].fromUfi]
    ensures forall k ::
              LinksFrom(data[..i + 1], nodes, k) ==
                if data[i].fromUfi == k then LinksFrom(data[..i], nodes, k) + [LinkOf(data[i], nodes)]
                else LinksFrom(data[..i], nodes, k)
  {
    assert data[..i + 1][..i] == data[..i];
  }

  // ---------------------------------------------------------------------------
  // Properties of the grouping

  /** An id is in the key order exactly when some row starts at it. */
  lemma {:induction false} FromOrderMembers(data: seq<LinkRow>, id: string)
    ensures id in FromOrder(data) <==> StartsAt(data, id)
  {
    if data != [] {
      var init := data[..|data| - 1];
      FromOrderMembers(init, id);
      assert forall q :: 0 <= q < |init| ==> data[q] == init[q];
      if StartsAt(init, id) {
        var p :| 0 <= p < |init| && init[p].fromUfi == id;
        assert data[p].fromUfi == id;
      }
    }
  }

  /** A key that no row starts at has no links (the `defaultdict`'s fresh empty list). */
  lemma {:induction false} NotStartedNoLinks(data: seq<LinkRow>, nodes: map<string, NodeInfo>, id: string)
    requires id !in FromOrder(data)
    ensures LinksFrom(data, nodes, id) == []
  {
    if data != [] {
      var init := data[..|data| - 1];
      assert id !in FromOrder(init);
      NotStartedNoLinks(init, nodes, id);
    }
  }

  /** The key order lists every id once. */
  lemma {:induction false} FromOrderDistinct(data: seq<LinkRow>)
    ensures forall a, b :: 0 <= a < b < |FromOrder(data)| ==> FromOrder(data)[a] != FromOrder(data)[b]
  {
    if data != [] {
      FromOrderDistinct(data[..|data| - 1]);
    }
  }

  /** The key order is the order of first appearance in `data`. */
  lemma {:induction false} FromOrderByFirstAppearance(data: seq<LinkRow>, a: nat, b: nat)
    requires a < b < |FromOrder(data)|
    ensures StartsAt(data, FromOrder(data)[a]) && StartsAt(data, FromOrder(data)[b])
    ensures FirstFrom(data, FromOrder(data)[a]) < FirstFrom(data, FromOrder(data)[b])
  {
    var order := FromOrder(data);
    FromOrderMembers(data, order[a]);
    FromOrderMembers(data, order[b]);
    var init := data[..|data| - 1];
    var prev := FromOrder(init);
    FromOrderMembers(init, order[a]);
    assert forall q :: 0 <= q < |init| ==> data[q] == init[q];
    if b < |prev| {
      FromOrderByFirstAppearance(init, a, b);
      FromOrderMembers(init, order[b]);
    } else {
      FromOrderMembers(init, order[b]);
    }
  }

  /** The rows built for a key list, one per key, with the key as id. */
  lemma {:induction false} RowsForShape(data: seq<LinkRow>, nodes: map<string, NodeInfo>, ids: seq<string>)
    ensures |RowsFor(data, nodes, ids)| == |ids|
    ensures forall i :: 0 <= i < |ids| ==> RowsFor(data, nodes, ids)[i] == RowFor(data, nodes, ids[i])
  {
    if ids != [] {
      RowsForShape(data, nodes, ids[..|ids| - 1]);
    }
  }

  /** One row per distinct from-id, in order of first appearance, each with the looked-up weight
      and coordinates ((0, 0, 0) for an unknown id) and the links of exactly its own rows. */
  lemma GroupedRows(data: seq<LinkRow>, nodes: map<string, NodeInfo>)
    ensures DistinctIds(Grouped(data, nodes))
    ensures Ids(Grouped(data, nodes)) == set p | 0 <= p < |data| :: data[p].fromUfi
    ensures forall i :: 0 <= i < |Grouped(data, nodes)| ==>
      var n := Grouped(data, nodes)[i];
      n.weight == Lookup(nodes, n.id).weight && n.x == Lookup(nodes, n.id).x && n.y == Lookup(nodes, n.id).y &&
      n.links == LinksFrom(data, nodes, n.id)
    ensures forall a, b :: 0 <= a < b < |Grouped(data, nodes)| ==>
      StartsAt(data, Grouped(data, nodes)[a].id) && StartsAt(data, Grouped(data, nodes)[b].id) &&
      FirstFrom(data, Grouped(data, nodes)[a].id) < FirstFrom(data, Grouped(data, nodes)[b].id)
  {
    var order := FromOrder(data);
    var g := Grouped(data, nodes);
    RowsForShape(data, nodes, order);
    FromOrderDistinct(data);
    forall id ensures id in Ids(g) <==> id in set p | 0 <= p < |data| :: data[p].fromUfi {
      FromOrderMembers(data, id);
      if id in Ids(g) {
        var i :| 0 <= i < |g| && g[i].id == id;
        assert order[i] == id;
      }
      if StartsAt(data, id) {
        var i :| 0 <= i < |order| && order[i] == id;
        assert g[i].id == id;
      }
    }
    forall a, b | 0 <= a < b < |g|
      ensures StartsAt(data, g[a].id) && StartsAt(data, g[b].id) && FirstFrom(data, g[a].id) < FirstFrom(data, g[b].id)
    {
      FromOrderByFirstAppearance(data, a, b);
    }
  }

  /** Every link of the row for `id` is the link of some input row that starts at `id`
      (in particular no reverse link is ever added)... */
  lemma {:induction false} LinksFromSound(data: seq<LinkRow>, nodes: map<string, NodeInfo>, id: string, k: nat)
    requires k < |LinksFrom(data, nodes, id)|
    ensures exists p :: 0 <= p < |data| && data[p].fromUfi == id && LinkOf(data[p], nodes) == LinksFrom(data, nodes, id)[k]
  {
    var init := data[..|data| - 1];
    var prev := LinksFrom(init, nodes, id);
    if k < |prev| {
      LinksFromSound(init, nodes, id, k);
      var p :| 0 <= p < |init| && init[p].fromUfi == id && LinkOf(init[p], nodes) == prev[k];
      assert data[p] == init[p];
    } else {
      assert data[|data| - 1].fromUfi == id;
    }
  }

  /** ... and every input row contributes its link to the row of its own from-id. */
  lemma {:induction false} LinksFromComplete(data: seq<LinkRow>, nodes: map<string, NodeInfo>, p: nat)
    requires p < |data|
    ensures LinkOf(data[p], nodes) in LinksFrom(data, nodes, data[p].fromUfi)
  {
    var init := data[..|data| - 1];
    if p < |init| {
      assert data[p] == init[p];
      LinksFromComplete(init, nodes, p);
    }
  }

  /** Each row counts once per input row that starts at its id. */
  function CountFrom(data: seq<LinkRow>, id: string): nat {
    if data == [] then 0
    else CountFrom(data[..|data| - 1], id) + (if data[|data| - 1].fromUfi == id then 1 else 0)
  }

  /** The sum of `CountFrom` over a key list. */
  function SumCounts(data: seq<LinkRow>, ids: seq<string>): nat {
    if ids == [] then 0 else SumCounts(data, ids[..|ids| - 1]) + CountFrom(data, ids[|ids| - 1])
  }

  lemma {:induction false} SumCountsSnoc(data: seq<LinkRow>, r: LinkRow, ids: seq<string>)
    requires forall a, b :: 0 <= a < b < |ids| ==> ids[a] != ids[b]
    ensures SumCounts(data + [r], ids) == SumCounts(data, ids) + (if r.fromUfi in ids then 1 else 0)
  {
    if ids != [] {
      var init := ids[..|ids| - 1];
      SumCountsSnoc(data, r, init);
      assert (data + [r])[..|data|] == data;
      assert r.fromUfi in ids <==> r.fromUfi in init || r.fromUfi == ids[|ids| - 1];
      assert r.fromUfi in init ==> r.fromUfi != ids[|ids| - 1];
    }
  }

  lemma {:induction false} LinksFromCount(data: seq<LinkRow>, nodes: map<string, NodeInfo>, id: string)
    ensures |LinksFrom(data, nodes, id)| == CountFrom(data, id)
  {
    if data != [] {
      LinksFromCount(data[..|data| - 1], nodes, id);
    }
  }

  lemma {:induction false} TotalLinksRowsFor(data: seq<LinkRow>, nodes: map<string, NodeInfo>, ids: seq<string>)
    ensures TotalLinks(RowsFor(data, nodes, ids)) == SumCounts(data, ids)
  {
    if ids != [] {
      var init := ids[..|ids| - 1];
      TotalLinksRowsFor(data, nodes, init);
      var rows := RowsFor(data, nodes, ids);
      assert rows[..|rows| - 1] == RowsFor(data, nodes, init);
      LinksFromCount(data, nodes, ids[|ids| - 1]);
    }
  }

  lemma {:induction false} SumCountsOrder(data: seq<LinkRow>)
    ensures SumCounts(data, FromOrder(data)) == |data|
  {
    if data != [] {
      var init := data[..|data| - 1];
      var r := data[|data| - 1];
      assert data == init + [r];
      SumCountsOrder(init);
      FromOrderDistinct(init);
      SumCountsSnoc(init, r, FromOrder(init));
      if r.fromUfi !in FromOrder(init) {
        FromOrderMembers(init, r.fromUfi);
        assert CountFrom(init, r.fromUfi) == 0 by { NoStartNoCount(init, r.fromUfi); }
      }
    }
  }

  lemma {:induction false} NoStartNoCount(data: seq<LinkRow>, id: string)
    requires !StartsAt(data, id)
    ensures CountFrom(data, id) == 0
  {
    if data != [] {
      var init := data[..|data| - 1];
      assert !StartsAt(init, id) by {
        forall q | 0 <= q < |init| ensures init[q].fromUfi != id { assert init[q] == data[q]; }
      }
      NoStartNoCount(init, id);
    }
  }

  /** Every input row adds exactly one link: the rows hold as many links as there are input rows. */
  lemma GroupedLinkCount(data: seq<LinkRow>, nodes: map<string, NodeInfo>)
    ensures TotalLinks(Grouped(data, nodes)) == |data|
  {
    TotalLinksRowsFor(data, nodes, FromOrder(data));
    SumCountsOrder(data);
  }
}
