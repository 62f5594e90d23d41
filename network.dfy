/** The adjacency representation shared by the builder, the simplifier and the annotator. */
module Network {

  /** One outgoing link of a node row: `[link_id, adjacent_node, link_weight, adj_x, adj_y]`.
      `targetX`/`targetY` are a snapshot of the target's coordinates taken when the link was made. */
  datatype Link = Link(id: string, target: string, weight: real, targetX: real, targetY: real)

  /** A node row: `[node_id, node_weight, x, y, link...]`. */
  datatype Node = Node(id: string, weight: real, x: real, y: real, links: seq<Link>)

  /** The set of node ids of a list of rows. */
  function Ids(rows: seq<Node>): set<string> {
    set i | 0 <= i < |rows| :: rows[i].id
  }

  /** No two rows share an id (a dictionary keyed by id can then stand for the list). */
  predicate DistinctIds(rows: seq<Node>) {
    forall i, j :: 0 <= i < j < |rows| ==> rows[i].id != rows[j].id
  }

  /** Every link of every row points at an id in `ids`. */
  predicate TargetsIn(rows: seq<Node>, ids: set<string>) {
    forall i, k :: 0 <= i < |rows| && 0 <= k < |rows[i].links| ==> rows[i].links[k].target in ids
  }

  /** No link list holds two links to the same target. */
  predicate DistinctTargets(links: seq<Link>) {
    forall a, b :: 0 <= a < b < |links| ==> links[a].target != links[b].target
  }

  /** The part of a row that no stage changes: its id, weight and coordinates. */
  function Header(n: Node): (string, real, real, real) {
    (n.id, n.weight, n.x, n.y)
  }

  /** The headers of all rows. */
  function Headers(rows: seq<Node>): set<(string, real, real, real)> {
    set i | 0 <= i < |rows| :: Header(rows[i])
  }

  /** Python's `str.startswith`. */
  predicate StartsWith(s: string, prefix: string) {
    |prefix| <= |s| && s[..|prefix|] == prefix
  }

  /** `[n for n in rows if n[0] not in gone]`: the rows whose id is not in `gone`, in order. */
  function Without(rows: seq<Node>, gone: set<string>): (r: seq<Node>)
    ensures |r| <= |rows|
    ensures (exists i :: 0 <= i < |rows| && rows[i].id in gone) ==> |r| < |rows|
  {
    if rows == [] then []
    else
      var init := rows[..|rows| - 1];
      var last := rows[|rows| - 1];
      assert forall i :: 0 <= i < |init| ==> init[i] == rows[i];
      Without(init, gone) + (if last.id in gone then [] else [last])
  }

  /** `Without` keeps exactly the rows whose id is not removed, with their contents. */
  lemma {:induction false} WithoutMembers(rows: seq<Node>, gone: set<string>)
    ensures forall n :: n in Without(rows, gone) <==> n in rows && n.id !in gone
  {
    if rows != [] {
      var init := rows[..|rows| - 1];
      WithoutMembers(init, gone);
      assert rows == init + [rows[|rows| - 1]];
    }
  }

  /** Consequences of `WithoutMembers` on ids, headers and distinctness. */
  lemma WithoutProperties(rows: seq<Node>, gone: set<string>)
    ensures Ids(Without(rows, gone)) == Ids(rows) - gone
    ensures Headers(Without(rows, gone)) <= Headers(rows)
    ensures DistinctIds(rows) ==> DistinctIds(Without(rows, gone))
  {
    var r := Without(rows, gone);
    WithoutMembers(rows, gone);
    forall id ensures id in Ids(r) <==> id in Ids(rows) - gone {
      if id in Ids(r) {
        var i :| 0 <= i < |r| && r[i].id == id;
        assert r[i] in rows;
      }
      if id in Ids(rows) - gone {
        var i :| 0 <= i < |rows| && rows[i].id == id;
        assert rows[i] in r;
      }
    }
    forall h | h in Headers(r) ensures h in Headers(rows) {
      var i :| 0 <= i < |r| && Header(r[i]) == h;
      assert r[i] in rows;
    }
    if DistinctIds(rows) {
      WithoutDistinct(rows, gone);
    }
  }

  lemma {:induction false} WithoutDistinct(rows: seq<Node>, gone: set<string>)
    requires DistinctIds(rows)
    ensures DistinctIds(Without(rows, gone))
  {
    if rows != [] {
      var init := rows[..|rows| - 1];
      var last := rows[|rows| - 1];
      WithoutDistinct(init, gone);
      WithoutMembers(init, gone);
      if last.id !in gone {
        var w := Without(init, gone);
        forall i | 0 <= i < |w| ensures w[i].id != last.id {
          assert w[i] in init;
        }
      }
    }
  }
}
