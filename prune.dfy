/** Dead-end pruning, the first step of every simplification pass. */
module Prune {
  import opened Network

  /** The ids of the rows with at most one link: the pass's `to_remove`. */
  function DeadEnds(rows: seq<Node>): set<string> {
    set i | 0 <= i < |rows| && |rows[i].links| <= 1 :: rows[i].id
  }

  /** `[l for l in links if l[1] not in gone]`. */
  function DropLinksTo(links: seq<Link>, gone: set<string>): seq<Link> {
    if links == [] then []
    else
      var last := links[|links| - 1];
      DropLinksTo(links[..|links| - 1], gone) + (if last.target in gone then [] else [last])
  }

  /** Every row with its links to removed ids dropped. */
  function DropAll(rows: seq<Node>, gone: set<string>): (r: seq<Node>)
    ensures |r| == |rows|
  {
    seq(|rows|, i requires 0 <= i < |rows| => rows[i].(links := DropLinksTo(rows[i].links, gone)))
  }

  /** The rows left by the pruning step. */
  function Pruned(rows: seq<Node>): seq<Node> {
    var gone := DeadEnds(rows);
    DropAll(Without(rows, gone), gone)
  }

  /** The pruning step of a pass: collect the dead ends, then drop them and every link to them. */
  method PruneDeadEnds(rows: seq<Node>) returns (pruned: seq<Node>, changed: bool)
    ensures changed <==> DeadEnds(rows) != {}
    ensures pruned == Pruned(rows)
  {
    var toRemove: set<string> := {};
    changed := false;
    for i := 0 to |rows|
      invariant toRemove == set j | 0 <= j < i && |rows[j].links| <= 1 :: rows[j].id
      invariant changed <==> toRemove != {}
    {
      if |rows[i].links| <= 1 {
        toRemove := toRemove + {rows[i].id};
        changed := true;
      }
    }
    pruned := rows;
    if toRemove != {} {
      pruned := Without(rows, toRemove);
      for i := 0 to |pruned|
        invariant |pruned| == |Without(rows, toRemove)|
        invariant forall j :: 0 <= j < |pruned| ==>
                    pruned[j] == if j < i then DropAll(Without(rows, toRemove), toRemove)[j]
                                 else Without(rows, toRemove)[j]
      {
        pruned := pruned[i := pruned[i].(links := DropLinksTo(pruned[i].links, toRemove))];
      }
    } else {
      NothingToDrop(rows);
    }
  }

  lemma NothingToDrop(rows: seq<Node>)
    requires DeadEnds(rows) == {}
    ensures Pruned(rows) == rows
  {
    WithoutNothing(rows, {});
    forall i | 0 <= i < |rows| ensures DropLinksTo(rows[i].links, {}) == rows[i].links {
      DropNothing(rows[i].links, {});
    }
  }

  lemma {:induction false} WithoutNothing(rows: seq<Node>, gone: set<string>)
    requires forall i :: 0 <= i < |rows| ==> rows[i].id !in gone
    ensures Without(rows, gone) == rows
  {
    if rows != [] {
      WithoutNothing(rows[..|rows| - 1], gone);
    }
  }

  lemma {:induction false} DropNothing(links: seq<Link>, gone: set<string>)
    requires forall k :: 0 <= k < |links| ==> links[k].target !in gone
    ensures DropLinksTo(links, gone) == links
  {
    if links != [] {
      DropNothing(links[..|links| - 1], gone);
    }
  }

  // ---------------------------------------------------------------------------
  // Properties of pruning

  /** `DropLinksTo` keeps exactly the links whose target is not removed... */
  lemma {:induction false} DropLinksMembers(links: seq<Link>, gone: set<string>)
    ensures forall l :: l in DropLinksTo(links, gone) <==> l in links && l.target !in gone
  {
    if links != [] {
      var init := links[..|links| - 1];
      DropLinksMembers(init, gone);
      assert links == init + [links[|links| - 1]];
    }
  }

  /** Pruned row `i` is kept row `i` with its links to removed rows dropped. */
  lemma PrunedShape(rows: seq<Node>)
    ensures |Pruned(rows)| == |Without(rows, DeadEnds(rows))|
    ensures forall i :: 0 <= i < |Pruned(rows)| ==>
              Header(Pruned(rows)[i]) == Header(Without(rows, DeadEnds(rows))[i]) &&
              Pruned(rows)[i].links == DropLinksTo(Without(rows, DeadEnds(rows))[i].links, DeadEnds(rows))
  {
  }

  /** Pruning keeps ids, weights and coordinates: it removes rows and links, never renames. */
  lemma PrunedIds(rows: seq<Node>)
    ensures Ids(Pruned(rows)) == Ids(rows) - DeadEnds(rows)
    ensures Headers(Pruned(rows)) <= Headers(rows)
    ensures DistinctIds(rows) ==> DistinctIds(Pruned(rows))
  {
    var gone := DeadEnds(rows);
    var w := Without(rows, gone);
    var p := Pruned(rows);
    WithoutProperties(rows, gone);
    PrunedShape(rows);
    assert Ids(p) == Ids(w) by {
      forall id ensures id in Ids(p) <==> id in Ids(w) {
        if id in Ids(w) { var i :| 0 <= i < |w| && w[i].id == id; assert p[i].id == id; }
        if id in Ids(p) { var i :| 0 <= i < |p| && p[i].id == id; assert w[i].id == id; }
      }
    }
    assert Headers(p) == Headers(w) by {
      forall h ensures h in Headers(p) <==> h in Headers(w) {
        if h in Headers(w) { var i :| 0 <= i < |w| && Header(w[i]) == h; assert Header(p[i]) == h; }
        if h in Headers(p) { var i :| 0 <= i < |p| && Header(p[i]) == h; assert Header(w[i]) == h; }
      }
    }
  }

  /** With distinct ids, a row survives pruning exactly when it has more than one link. */
  lemma PrunedExactly(rows: seq<Node>)
    requires DistinctIds(rows)
    ensures forall i :: 0 <= i < |rows| ==> (rows[i].id in Ids(Pruned(rows)) <==> |rows[i].links| > 1)
  {
    var gone := DeadEnds(rows);
    PrunedIds(rows);
    forall i | 0 <= i < |rows| ensures rows[i].id in gone <==> |rows[i].links| <= 1 {
      if rows[i].id in gone {
        var j :| 0 <= j < |rows| && |rows[j].links| <= 1 && rows[j].id == rows[i].id;
        assert i == j;
      }
    }
  }

  /** After pruning no link points at a removed row. */
  lemma PrunedNoLinkToRemoved(rows: seq<Node>)
    ensures forall i, k :: 0 <= i < |Pruned(rows)| && 0 <= k < |Pruned(rows)[i].links| ==>
              Pruned(rows)[i].links[k].target !in DeadEnds(rows)
  {
    var gone := DeadEnds(rows);
    var w := Without(rows, gone);
    var p := Pruned(rows);
    forall i, k | 0 <= i < |p| && 0 <= k < |p[i].links| ensures p[i].links[k].target !in gone {
      DropLinksMembers(w[i].links, gone);
      assert p[i].links[k] in p[i].links;
    }
  }

  /** Every surviving row comes from an input row with more than one link, whose links it keeps
      apart from those to removed rows. */
  lemma PrunedFromInput(rows: seq<Node>)
    ensures forall n :: n in Pruned(rows) ==>
              exists m :: m in rows && Header(m) == Header(n) && |m.links| > 1 &&
                          n.links == DropLinksTo(m.links, DeadEnds(rows))
  {
    var gone := DeadEnds(rows);
    var w := Without(rows, gone);
    var p := Pruned(rows);
    WithoutMembers(rows, gone);
    forall n | n in p
      ensures exists m :: m in rows && Header(m) == Header(n) && |m.links| > 1 && n.links == DropLinksTo(m.links, gone)
    {
      var i :| 0 <= i < |p| && p[i] == n;
      var m := w[i];
      assert m in w;
      assert m in rows && m.id !in gone;
      assert |m.links| > 1;
    }
  }

  /** Every node of degree at most one is a dead end. */
  lemma DeadEndsMembers(rows: seq<Node>)
    ensures forall i :: 0 <= i < |rows| && |rows[i].links| <= 1 ==> rows[i].id in DeadEnds(rows)
  {
    forall i | 0 <= i < |rows| && |rows[i].links| <= 1 ensures rows[i].id in DeadEnds(rows) {
    }
  }
}
