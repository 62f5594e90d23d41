/** The row layout of the CSV export: a header with one 5-cell group per link slot, and every
    annotated node row padded to the same number of slots. */
module Export {
  import opened Wrappers
  import opened Network
  import opened OdMatch

  /** A CSV cell: text, a float, or the integer 0 that stands for an empty OD field. */
  datatype Cell = Text(s: string) | Num(r: real) | Int(n: int)

  /** `max()` over no rows raises; the export then fails. */
  datatype ExportError = EmptyNetwork

  datatype Table = Table(header: seq<string>, rows: seq<seq<Cell>>)

  const NodeColumns: seq<string> := ["Node ID", "Node Weight", "X", "Y", "Origin_SA1", "Origin_SA2", "Destination_DZN"]
  const LinkColumns: seq<string> := ["Link ID", "Adjacent Node", "Link Weight", "Adjacent X", "Adjacent Y"]

  /** The header for `m` link slots. */
  function HeaderFor(m: nat): seq<string> {
    if m == 0 then NodeColumns else HeaderFor(m - 1) + LinkColumns
  }

  function FieldCell(f: OdField): Cell {
    match f
    case Joined(s) => Text(s)
    case Zero => Int(0)
  }

  /** `row[:7]`: id, weight, coordinates and the three OD fields. */
  function NodeCells(n: FlaggedNode): seq<Cell> {
    [Text(n.id), Num(n.weight), Num(n.x), Num(n.y), FieldCell(n.originSa1), FieldCell(n.originSa2), FieldCell(n.destination)]
  }

  /** `(list(l) + ['', '', '', '', ''])[:5]`: a link has five fields, so this is the link itself. */
  function LinkCells(l: Link): seq<Cell> {
    [Text(l.id), Text(l.target), Num(l.weight), Num(l.targetX), Num(l.targetY)]
  }

  /** An empty link slot. */
  const Blank: seq<Cell> := [Text(""), Text(""), Text(""), Text(""), Text("")]

  function LinksCells(links: seq<Link>): seq<Cell> {
    if links == [] then [] else LinkCells(links[0]) + LinksCells(links[1..])
  }

  function Padding(count: nat): seq<Cell> {
    if count == 0 then [] else Blank + Padding(count - 1)
  }

  /** A data row for `m` link slots (`range` of a negative count runs no iteration). */
  function RowCells(n: FlaggedNode, m: nat): seq<Cell> {
    NodeCells(n) + LinksCells(n.links) + Padding(if |n.links| < m then m - |n.links| else 0)
  }

  /** The largest number of links of any row; 0 for no rows. */
  function MaxLinks(data: seq<FlaggedNode>): nat {
    if data == [] then 0
    else
      var prev := MaxLinks(data[..|data| - 1]);
      var n := |data[|data| - 1].links|;
      if n > prev then n else prev
  }

  /** The header and the data rows `write_to_csv` writes, or the error `max()` raises. */
  function Layout(data: seq<FlaggedNode>): Result<Table, ExportError> {
    if data == [] then Failure(EmptyNetwork)
    else
      var m := MaxLinks(data);
      Success(Table(HeaderFor(m), seq(|data|, i requires 0 <= i < |data| => RowCells(data[i], m))))
  }

  lemma {:induction false} LinksCellsSnoc(links: seq<Link>, l: Link)
    ensures LinksCells(links + [l]) == LinksCells(links) + LinkCells(l)
  {
    if links != [] {
      assert (links + [l])[1..] == links[1..] + [l];
      LinksCellsSnoc(links[1..], l);
    }
  }

  lemma {:induction false} PaddingSnoc(count: nat)
    ensures Padding(count + 1) == Padding(count) + Blank
  {
    if count > 0 {
      PaddingSnoc(count - 1);
    }
  }

  /** Lines 411-413 for one row: its seven fields, five cells per link, then empty slots. */
  method RowOut(n: FlaggedNode, maxLinks: nat) returns (out: seq<Cell>)
    ensures out == RowCells(n, maxLinks)
  {
    out := NodeCells(n);
    var links := n.links;
    for k := 0 to |links|
      invariant out == NodeCells(n) + LinksCells(links[..k])
    {
      LinksCellsSnoc(links[..k], links[k]);
      assert links[..k + 1] == links[..k] + [links[k]];
      out := out + LinkCells(links[k]);
    }
    assert links[..|links|] == links;
    var pad := if |links| < maxLinks then maxLinks - |links| else 0;
    for j := 0 to pad
      invariant out == NodeCells(n) + LinksCells(links) + Padding(j)
    {
      PaddingSnoc(j);
      out := out + Blank;
    }
  }

  /** Lines 401-413 without the file: the maximal out-degree, the header, then every row. */
  method LayoutRows(data: seq<FlaggedNode>) returns (r: Result<Table, ExportError>)
    ensures r == Layout(data)
  {
    if |data| == 0 {
      return Failure(EmptyNetwork);
    }
    var maxLinks := |data[0].links|;
    assert data[..1][..0] == [];
    for i := 1 to |data|
      invariant maxLinks == MaxLinks(data[..i])
    {
      assert data[..i + 1][..i] == data[..i];
      if |data[i].links| > maxLinks {
        maxLinks := |data[i].links|;
      }
    }
    assert data[..|data|] == data;
    var header := NodeColumns;
    for j := 0 to maxLinks
      invariant header == HeaderFor(j)
    {
      header := header + LinkColumns;
    }
    var rows: seq<seq<Cell>> := [];
    for i := 0 to |data|
      invariant |rows| == i
      invariant forall k :: 0 <= k < i ==> rows[k] == RowCells(data[k], maxLinks)
    {
      var out := RowOut(data[i], maxLinks);
      rows := rows + [out];
    }
    assert rows == Layout(data).value.rows;
    r := Success(Table(header, rows));
  }

  // ---------------------------------------------------------------------------
  // Shape of the layout

  /** The maximal out-degree bounds every row and is attained by one. */
  lemma {:induction false} MaxLinksProperties(data: seq<FlaggedNode>)
    ensures forall i :: 0 <= i < |data| ==> |data[i].links| <= MaxLinks(data)
    ensures data != [] ==> exists i :: 0 <= i < |data| && |data[i].links| == MaxLinks(data)
  {
    if data != [] {
      var init := data[..|data| - 1];
      var last := |data| - 1;
      MaxLinksProperties(init);
      assert forall i :: 0 <= i < |init| ==> init[i] == data[i];
      if |data[last].links| < MaxLinks(data) {
        assert MaxLinks(data) == MaxLinks(init) && init != [];
        var i :| 0 <= i < |init| && |init[i].links| == MaxLinks(init);
        assert |data[i].links| == MaxLinks(data);
      } else {
        assert |data[last].links| == MaxLinks(data);
      }
    }
  }

  /** The header has 7 + 5m cells: the node columns, then the link columns once per slot. */
  lemma {:induction false} HeaderShape(m: nat)
    ensures |HeaderFor(m)| == 7 + 5 * m
    ensures HeaderFor(m)[..7] == NodeColumns
    ensures forall k :: 0 <= k < m ==> HeaderFor(m)[7 + 5 * k .. 12 + 5 * k] == LinkColumns
  {
    if m > 0 {
      HeaderShape(m - 1);
      var h := HeaderFor(m - 1);
      assert HeaderFor(m)[..7] == h[..7];
      forall k | 0 <= k < m ensures HeaderFor(m)[7 + 5 * k .. 12 + 5 * k] == LinkColumns {
        if k < m - 1 {
          assert HeaderFor(m)[7 + 5 * k .. 12 + 5 * k] == h[7 + 5 * k .. 12 + 5 * k];
        }
      }
    }
  }

  /** Link `k` takes cells 5k to 5k + 4. */
  lemma {:induction false} LinksCellsShape(links: seq<Link>)
    ensures |LinksCells(links)| == 5 * |links|
    ensures forall k :: 0 <= k < |links| ==> LinksCells(links)[5 * k .. 5 * k + 5] == LinkCells(links[k])
  {
    if links != [] {
      var rest := links[1..];
      LinksCellsShape(rest);
      forall k | 0 <= k < |links| ensures LinksCells(links)[5 * k .. 5 * k + 5] == LinkCells(links[k]) {
        if k > 0 {
          assert LinksCells(links)[5 * k .. 5 * k + 5] == LinksCells(rest)[5 * (k - 1) .. 5 * (k - 1) + 5];
        }
      }
    }
  }

  /** Padding is made of empty cells, five per slot. */
  lemma {:induction false} PaddingShape(count: nat)
    ensures |Padding(count)| == 5 * count
    ensures forall k :: 0 <= k < |Padding(count)| ==> Padding(count)[k] == Text("")
  {
    if count > 0 {
      PaddingShape(count - 1);
    }
  }

  /** A row for `m` slots, with at most `m` links, has 7 + 5m cells: its seven fields, each link in
      its own 5-cell slot starting at cell 7 + 5k, and empty cells after the last link. */
  lemma RowShape(n: FlaggedNode, m: nat)
    requires |n.links| <= m
    ensures |RowCells(n, m)| == 7 + 5 * m
    ensures RowCells(n, m)[..7] == NodeCells(n)
    ensures forall k :: 0 <= k < |n.links| ==> RowCells(n, m)[7 + 5 * k .. 12 + 5 * k] == LinkCells(n.links[k])
    ensures forall c :: 7 + 5 * |n.links| <= c < 7 + 5 * m ==> RowCells(n, m)[c] == Text("")
  {
    var row := RowCells(n, m);
    var lc := LinksCells(n.links);
    LinksCellsShape(n.links);
    PaddingShape(m - |n.links|);
    forall k | 0 <= k < |n.links| ensures row[7 + 5 * k .. 12 + 5 * k] == LinkCells(n.links[k]) {
      assert row[7 + 5 * k .. 12 + 5 * k] == lc[5 * k .. 5 * k + 5];
    }
  }

  /** The export fails exactly on an empty network; otherwise it writes one row per node, each of
      the header's width 7 + 5m, where m is the largest out-degree. */
  lemma LayoutProperties(data: seq<FlaggedNode>)
    ensures Layout(data).Failure? <==> data == []
    ensures Layout(data).Success? ==>
      && |Layout(data).value.rows| == |data|
      && |Layout(data).value.header| == 7 + 5 * MaxLinks(data)
      && forall i :: 0 <= i < |data| ==> |Layout(data).value.rows[i]| == |Layout(data).value.header|
  {
    if data != [] {
      MaxLinksProperties(data);
      HeaderShape(MaxLinks(data));
      forall i | 0 <= i < |data| ensures |RowCells(data[i], MaxLinks(data))| == 7 + 5 * MaxLinks(data) {
        RowShape(data[i], MaxLinks(data));
      }
    }
  }

  // ---------------------------------------------------------------------------
  // Reading a row back

  function ReadField(c: Cell): Option<OdField> {
    match c
    case Text(s) => Some(Joined(s))
    case Int(v) => if v == 0 then Some(Zero) else None
    case Num(_) => None
  }

  function ReadLink(g: seq<Cell>): Option<Link>
    requires |g| == 5
  {
    if g[0].Text? && g[1].Text? && g[2].Num? && g[3].Num? && g[4].Num? then
      Some(Link(g[0].s, g[1].s, g[2].r, g[3].r, g[4].r))
    else None
  }

  predicate AllBlank(cells: seq<Cell>) {
    forall k :: 0 <= k < |cells| ==> cells[k] == Text("")
  }

  /** Link slots up to the first empty one; every cell after it must be empty too. */
  function ReadLinks(cells: seq<Cell>): Option<seq<Link>>
    decreases |cells|
  {
    if cells == [] then Some([])
    else if |cells| < 5 then None
    else if cells[..5] == Blank then (if AllBlank(cells[5..]) then Some([]) else None)
    else
      match ReadLink(cells[..5])
      case None => None
      case Some(l) =>
        match ReadLinks(cells[5..])
        case None => None
        case Some(ls) => Some([l] + ls)
  }

  /** The annotated node row a data row of the export stands for. */
  function ReadRow(cells: seq<Cell>): Option<FlaggedNode> {
    if |cells| < 7 || !cells[0].Text? || !cells[1].Num? || !cells[2].Num? || !cells[3].Num? then None
    else
      match (ReadField(cells[4]), ReadField(cells[5]), ReadField(cells[6]), ReadLinks(cells[7..]))
      case (Some(f1), Some(f2), Some(f3), Some(ls)) =>
        Some(FlaggedNode(cells[0].s, cells[1].r, cells[2].r, cells[3].r, f1, f2, f3, ls))
      case _ => None
  }

  /** Empty slots alone read back as no links. */
  lemma ReadPadding(count: nat)
    ensures ReadLinks(Padding(count)) == Some([])
  {
    if count > 0 {
      var cells := Padding(count);
      PaddingShape(count - 1);
      assert cells[..5] == Blank;
      assert cells[5..] == Padding(count - 1);
      assert AllBlank(cells[5..]);
    }
  }

  /** A filled slot in front of readable cells reads back as that link in front. */
  lemma ReadLinkFirst(l: Link, tail: seq<Cell>)
    ensures ReadLinks(LinkCells(l) + tail) == match ReadLinks(tail) case None => None case Some(ls) => Some([l] + ls)
  {
    var cells := LinkCells(l) + tail;
    assert cells[..5] == LinkCells(l);
    assert cells[5..] == tail;
    assert cells[2] == Num(l.weight);
  }

  lemma {:induction false} ReadLinksPadded(links: seq<Link>, count: nat)
    ensures ReadLinks(LinksCells(links) + Padding(count)) == Some(links)
  {
    if links == [] {
      assert LinksCells(links) + Padding(count) == Padding(count);
      ReadPadding(count);
    } else {
      var rest := links[1..];
      assert LinksCells(links) + Padding(count) == LinkCells(links[0]) + (LinksCells(rest) + Padding(count));
      ReadLinksPadded(rest, count);
      ReadLinkFirst(links[0], LinksCells(rest) + Padding(count));
      assert [links[0]] + rest == links;
    }
  }

  /** Every data row reads back as the node row it was written from. */
  lemma RowRoundTrip(n: FlaggedNode, m: nat)
    ensures ReadRow(RowCells(n, m)) == Some(n)
  {
    var row := RowCells(n, m);
    var pad := if |n.links| < m then m - |n.links| else 0;
    assert row[7..] == LinksCells(n.links) + Padding(pad);
    ReadLinksPadded(n.links, pad);
    match n.originSa1 { case Joined(_) => case Zero => }
    match n.originSa2 { case Joined(_) => case Zero => }
    match n.destination { case Joined(_) => case Zero => }
  }
}
