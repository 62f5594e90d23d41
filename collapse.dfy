/** Degree-2 collapse, the second step of every simplification pass. */
module Collapse {
  import opened Network

  /** The pass's `node_dict`: each id mapped to the position of its row (a later row with the same
      id overrides an earlier one, as in the dict comprehension). Its values alias the rows of the
      list, so "update the row of `node_dict[n]`" becomes "update position `IndexOf(rows)[n]`". */
  function IndexOf(rows: seq<Node>): (d: map<string, nat>)
    ensures d.Keys == Ids(rows)
    ensures forall k :: k in d ==> d[k] < |rows| && rows[d[k]].id == k
  {
    if rows == [] then map[]
    else
      var init := rows[..|rows| - 1];
      var d := IndexOf(init);
      assert forall i :: 0 <= i < |init| ==> init[i] == rows[i];
      assert Ids(rows) == Ids(init) + {rows[|rows| - 1].id} by {
        forall id | id in Ids(rows) ensures id in Ids(init) + {rows[|rows| - 1].id} {
          var i :| 0 <= i < |rows| && rows[i].id == id;
          if i < |init| { assert init[i].id == id; }
        }
      }
      d[rows[|rows| - 1].id := |rows| - 1]
  }

  /** `link_origins.get(id, [id])`. */
  function Ancestry(origins: map<string, seq<string>>, id: string): seq<string> {
    if id in origins then origins[id] else [id]
  }

  /** `f"collapsed_{node}_{n1}_{n2}"`. */
  function CollapsedId(node: string, n1: string, n2: string): string {
    "collapsed_" + node + "_" + n1 + "_" + n2
  }

  /** A neighbour's links with every link to the collapsed node replaced by the new link. */
  function Rewired(links: seq<Link>, from: string, newLink: Link): (r: seq<Link>)
    ensures |r| == |links|
  {
    seq(|links|, k requires 0 <= k < |links| => if links[k].target == from then newLink else links[k])
  }

  /** Lines 321-327 for one neighbour: rebuild its link list, one link at a time. */
  method RewireLinks(links: seq<Link>, from: string, newLink: Link) returns (updated: seq<Link>)
    ensures updated == Rewired(links, from, newLink)
  {
    updated := [];
    for k := 0 to |links|
      invariant updated == Rewired(links[..k], from, newLink)
    {
      if links[k].target == from {
        updated := updated + [newLink];
      } else {
        updated := updated + [links[k]];
      }
    }
    assert links[..|links|] == links;
  }

  /** The state of the collapse loop: the rows the pass started from, as rewritten so far through
      `node_dict`, the ids marked for removal, `link_origins` and `collapsed_links_log`. */
  datatype Sweep = Sweep(rows: seq<Node>, removed: set<string>,
                         origins: map<string, seq<string>>, log: seq<seq<string>>)

  /** Every value of `d` is a position of a list of length `n`. */
  predicate WellIndexed(d: map<string, nat>, n: nat) {
    forall k :: k in d ==> d[k] < n
  }

  /** The row at position `p` with its links rewired. */
  function RewireAt(rows: seq<Node>, p: nat, from: string, newLink: Link): (r: seq<Node>)
    requires p < |rows|
    ensures |r| == |rows|
  {
    rows[p := rows[p].(links := Rewired(rows[p].links, from, newLink))]
  }

  /** The node at position `i` is collapsed: it has exactly two links, and both targets
      are keys of the pass's `node_dict` (even if already marked for removal). */
  predicate Collapses(node: Node, d: map<string, nat>) {
    |node.links| == 2 && node.links[0].target in d && node.links[1].target in d
  }

  /** One iteration of the collapse loop, on the node at position `i` as it is now. */
  function CollapseAt(s: Sweep, d: map<string, nat>, i: nat): (r: Sweep)
    requires i < |s.rows| && WellIndexed(d, |s.rows|)
    ensures |r.rows| == |s.rows|
  {
    var node := s.rows[i];
    if !Collapses(node, d) then s
    else
      var l1 := node.links[0];
      var l2 := node.links[1];
      var id := CollapsedId(node.id, l1.target, l2.target);
      var ancestry := Ancestry(s.origins, l1.id) + Ancestry(s.origins, l2.id);
      var w := l1.weight + l2.weight;
      var toN2 := Link(id, l2.target, w, l2.targetX, l2.targetY);
      var toN1 := Link(id, l1.target, w, l1.targetX, l1.targetY);
      var r1 := RewireAt(s.rows, d[l1.target], node.id, toN2);
      var r2 := RewireAt(r1, d[l2.target], node.id, toN1);
      Sweep(r2, s.removed + {node.id}, s.origins[id := ancestry], s.log + [[id] + ancestry])
  }

  /** The collapse loop from position `i` to the end. */
  function CollapseFrom(s: Sweep, d: map<string, nat>, i: nat): (r: Sweep)
    requires i <= |s.rows| && WellIndexed(d, |s.rows|)
    ensures |r.rows| == |s.rows|
    decreases |s.rows| - i
  {
    if i == |s.rows| then s else CollapseFrom(CollapseAt(s, d, i), d, i + 1)
  }

  /** The loop over the whole pass, before the marked rows are dropped. */
  function Swept(rows: seq<Node>, origins: map<string, seq<string>>, log: seq<seq<string>>): Sweep {
    CollapseFrom(Sweep(rows, {}, origins, log), IndexOf(rows), 0)
  }

  /** The collapse step of a pass: rows, `link_origins` and log after it, and whether it changed. */
  function Collapsed(rows: seq<Node>, origins: map<string, seq<string>>, log: seq<seq<string>>): (r: Sweep) {
    var s := Swept(rows, origins, log);
    s.(rows := Without(s.rows, s.removed))
  }

  /** Lines 292-335. Rows are values, so the in-place rewrite of a neighbour's row through
      `node_dict` is an update of the pass's row list at the neighbour's position; a later
      iteration reads the row as rewritten so far. */
  method CollapseDegreeTwo(rows: seq<Node>, origins: map<string, seq<string>>, log: seq<seq<string>>)
    returns (kept: seq<Node>, linkOrigins: map<string, seq<string>>, collapsedLog: seq<seq<string>>, changed: bool)
    ensures kept == Collapsed(rows, origins, log).rows
    ensures linkOrigins == Collapsed(rows, origins, log).origins
    ensures collapsedLog == Collapsed(rows, origins, log).log
    ensures changed <==> Collapsed(rows, origins, log).removed != {}
  {
    var nodeDict := IndexOf(rows);
    var current := rows;
    var toRemove: set<string> := {};
    linkOrigins, collapsedLog := origins, log;
    var i := 0;
    while i < |current|
      invariant 0 <= i <= |current| == |rows|
      invariant CollapseFrom(Sweep(current, toRemove, linkOrigins, collapsedLog), nodeDict, i) ==
                Swept(rows, origins, log)
    {
      ghost var before := Sweep(current, toRemove, linkOrigins, collapsedLog);
      var node := current[i];
      if |node.links| == 2 {
        var link1, link2 := node.links[0], node.links[1];
        var n1, w1, n2, w2 := link1.target, link1.weight, link2.target, link2.weight;
        if n1 in nodeDict && n2 in nodeDict {
          var newWeight := w1 + w2;
          var newLinkId := "collapsed_" + node.id + "_" + n1 + "_" + n2;
          var ancestry := Ancestry(linkOrigins, link1.id) + Ancestry(linkOrigins, link2.id);
          linkOrigins := linkOrigins[newLinkId := ancestry];
          collapsedLog := collapsedLog + [[newLinkId] + ancestry];
          var newLink1 := Link(newLinkId, n2, newWeight, link2.targetX, link2.targetY);
          var newLink2 := Link(newLinkId, n1, newWeight, link1.targetX, link1.targetY);
          var p1 := nodeDict[n1];
          var updated1 := RewireLinks(current[p1].links, node.id, newLink1);
          current := current[p1 := current[p1].(links := updated1)];
          var p2 := nodeDict[n2];
          var updated2 := RewireLinks(current[p2].links, node.id, newLink2);
          current := current[p2 := current[p2].(links := updated2)];
          toRemove := toRemove + {node.id};
        }
      }
      assert Sweep(current, toRemove, linkOrigins, collapsedLog) == CollapseAt(before, nodeDict, i);
      i := i + 1;
    }
    changed := toRemove != {};
    kept := Without(current, toRemove);
  }

  // ---------------------------------------------------------------------------
  // Properties of one collapse

  /** A collapse happens exactly when the node has two links whose targets are both in the
      pass's `node_dict`. It then marks the node, records the ancestry of the new link as the
      ancestry of the first link followed by that of the second, appends `[id] + ancestry` to the
      log, and touches no row but the two neighbours'. Without a self-loop on the node, the first
      neighbour's links to the node (all of them, in place, the others kept in order) become the
      new link to the second neighbour, with the weights added and the second neighbour's cached
      coordinates; symmetrically for the second neighbour when it is a different node. */
  lemma CollapseStep(s: Sweep, d: map<string, nat>, i: nat)
    requires i < |s.rows| && WellIndexed(d, |s.rows|)
    requires forall k :: k in d ==> s.rows[d[k]].id == k
    ensures !Collapses(s.rows[i], d) ==> CollapseAt(s, d, i) == s
    ensures Collapses(s.rows[i], d) ==>
      var node := s.rows[i];
      var l1 := node.links[0];
      var l2 := node.links[1];
      var id := CollapsedId(node.id, l1.target, l2.target);
      var w := l1.weight + l2.weight;
      var p1 := d[l1.target];
      var p2 := d[l2.target];
      var r := CollapseAt(s, d, i);
      && r.removed == s.removed + {node.id}
      && r.origins == s.origins[id := Ancestry(s.origins, l1.id) + Ancestry(s.origins, l2.id)]
      && r.log == s.log + [[id] + r.origins[id]]
      && (forall p :: 0 <= p < |s.rows| && p != p1 && p != p2 ==> r.rows[p] == s.rows[p])
      && Header(r.rows[p1]) == Header(s.rows[p1]) && Header(r.rows[p2]) == Header(s.rows[p2])
      && (l1.target != node.id && l2.target != node.id ==>
            && |r.rows[p1].links| == |s.rows[p1].links|
            && (forall k :: 0 <= k < |s.rows[p1].links| ==>
                  r.rows[p1].links[k] ==
                    if s.rows[p1].links[k].target == node.id
                    then Link(id, l2.target, w, l2.targetX, l2.targetY) else s.rows[p1].links[k])
            && (l1.target != l2.target ==>
                  && |r.rows[p2].links| == |s.rows[p2].links|
                  && forall k :: 0 <= k < |s.rows[p2].links| ==>
                       r.rows[p2].links[k] ==
                         if s.rows[p2].links[k].target == node.id
                         then Link(id, l1.target, w, l1.targetX, l1.targetY) else s.rows[p2].links[k]))
  {
    if Collapses(s.rows[i], d) {
      var node := s.rows[i];
      var l1 := node.links[0];
      var l2 := node.links[1];
      var p1 := d[l1.target];
      var p2 := d[l2.target];
      var id := CollapsedId(node.id, l1.target, l2.target);
      var w := l1.weight + l2.weight;
      var toN2 := Link(id, l2.target, w, l2.targetX, l2.targetY);
      var toN1 := Link(id, l1.target, w, l1.targetX, l1.targetY);
      var r1 := RewireAt(s.rows, p1, node.id, toN2);
      if l1.target == l2.target && l2.target != node.id {
        assert Rewired(r1[p1].links, node.id, toN1) == r1[p1].links;
      }
      if l1.target != l2.target {
        assert p1 != p2;
      }
    }
  }

  // ---------------------------------------------------------------------------
  // Provenance bookkeeping

  /** Every ancestry recorded in `link_origins` lists only ids from `orig`. */
  predicate AncestryWithin(origins: map<string, seq<string>>, orig: set<string>) {
    forall k, t :: k in origins && 0 <= t < |origins[k]| ==> origins[k][t] in orig
  }

  /** Every link of the rows has an entry in `link_origins`. */
  predicate LinksKnown(rows: seq<Node>, origins: map<string, seq<string>>) {
    forall i, k :: 0 <= i < |rows| && 0 <= k < |rows[i].links| ==> rows[i].links[k].id in origins
  }

  /** Every log row is a link id followed by ids from `orig`. */
  predicate LogWithin(log: seq<seq<string>>, orig: set<string>) {
    && (forall j :: 0 <= j < |log| ==> |log[j]| >= 1)
    && (forall j, t :: 0 <= j < |log| && 1 <= t < |log[j]| ==> log[j][t] in orig)
  }

  /** `log` extends `prefix` by rows that each name a synthetic `collapsed_` link. */
  predicate AppendsCollapsed(prefix: seq<seq<string>>, log: seq<seq<string>>) {
    && |prefix| <= |log| && log[..|prefix|] == prefix
    && forall j :: |prefix| <= j < |log| ==> |log[j]| >= 1 && StartsWith(log[j][0], "collapsed_")
  }

  /** Position-wise, the rows keep their ids, weights and coordinates. */
  predicate SameHeaders(a: seq<Node>, b: seq<Node>) {
    |a| == |b| && forall p :: 0 <= p < |a| ==> Header(a[p]) == Header(b[p])
  }

  lemma SameHeadersIds(a: seq<Node>, b: seq<Node>)
    requires SameHeaders(a, b)
    ensures Ids(a) == Ids(b) && Headers(a) == Headers(b)
    ensures DistinctIds(a) <==> DistinctIds(b)
  {
    forall id ensures id in Ids(a) <==> id in Ids(b) {
      if id in Ids(a) { var p :| 0 <= p < |a| && a[p].id == id; assert Header(b[p]).0 == id; }
      if id in Ids(b) { var p :| 0 <= p < |b| && b[p].id == id; assert Header(a[p]).0 == id; }
    }
    forall h ensures h in Headers(a) <==> h in Headers(b) {
      if h in Headers(a) { var p :| 0 <= p < |a| && Header(a[p]) == h; assert Header(b[p]) == h; }
      if h in Headers(b) { var p :| 0 <= p < |b| && Header(b[p]) == h; assert Header(a[p]) == h; }
    }
    assert forall p :: 0 <= p < |a| ==> a[p].id == Header(a[p]).0 && b[p].id == Header(b[p]).0;
  }

  lemma {:induction false} RewiredKnown(links: seq<Link>, from: string, newLink: Link, origins: map<string, seq<string>>)
    requires forall k :: 0 <= k < |links| ==> links[k].id in origins
    requires newLink.id in origins
    ensures forall k :: 0 <= k < |Rewired(links, from, newLink)| ==> Rewired(links, from, newLink)[k].id in origins
  {
  }

  /** One iteration keeps the provenance invariants, keeps every row's header, only appends
      `collapsed_` rows to the log and marks at most the current node. */
  lemma CollapseAtPreserves(s: Sweep, d: map<string, nat>, i: nat, orig: set<string>)
    requires i < |s.rows| && WellIndexed(d, |s.rows|)
    requires AncestryWithin(s.origins, orig) && LinksKnown(s.rows, s.origins) && LogWithin(s.log, orig)
    ensures AncestryWithin(CollapseAt(s, d, i).origins, orig)
    ensures LinksKnown(CollapseAt(s, d, i).rows, CollapseAt(s, d, i).origins)
    ensures LogWithin(CollapseAt(s, d, i).log, orig)
    ensures SameHeaders(CollapseAt(s, d, i).rows, s.rows)
    ensures AppendsCollapsed(s.log, CollapseAt(s, d, i).log)
    ensures CollapseAt(s, d, i).removed <= s.removed + {s.rows[i].id}
  {
    var r := CollapseAt(s, d, i);
    if Collapses(s.rows[i], d) {
      var node := s.rows[i];
      var l1 := node.links[0];
      var l2 := node.links[1];
      var id := CollapsedId(node.id, l1.target, l2.target);
      assert l1.id in s.origins && l2.id in s.origins by {
        assert s.rows[i].links[0].id in s.origins;
        assert s.rows[i].links[1].id in s.origins;
      }
      var ancestry := Ancestry(s.origins, l1.id) + Ancestry(s.origins, l2.id);
      assert forall t :: 0 <= t < |ancestry| ==> ancestry[t] in orig by {
        forall t | 0 <= t < |ancestry| ensures ancestry[t] in orig {
          if t < |s.origins[l1.id]| {
            assert ancestry[t] == s.origins[l1.id][t];
          } else {
            assert ancestry[t] == s.origins[l2.id][t - |s.origins[l1.id]|];
          }
        }
      }
      var o := s.origins[id := ancestry];
      assert LinksKnown(s.rows, o);
      var w := l1.weight + l2.weight;
      var toN2 := Link(id, l2.target, w, l2.targetX, l2.targetY);
      var toN1 := Link(id, l1.target, w, l1.targetX, l1.targetY);
      var r1 := RewireAt(s.rows, d[l1.target], node.id, toN2);
      RewiredKnown(s.rows[d[l1.target]].links, node.id, toN2, o);
      assert LinksKnown(r1, o);
      RewiredKnown(r1[d[l2.target]].links, node.id, toN1, o);
      assert LinksKnown(r.rows, o);
      assert StartsWith(id, "collapsed_") by {
        assert id == "collapsed_" + (node.id + "_" + l1.target + "_" + l2.target);
      }
      var row := [id] + ancestry;
      assert r.log == s.log + [row];
      assert forall t :: 1 <= t < |row| ==> row[t] == ancestry[t - 1];
    }
  }

  /** The collapse loop from position `i` on keeps the provenance invariants and the headers,
      only appends `collapsed_` rows to the log, and marks only ids of the rows. */
  lemma {:induction false} CollapseFromPreserves(s: Sweep, d: map<string, nat>, i: nat, orig: set<string>)
    requires i <= |s.rows| && WellIndexed(d, |s.rows|)
    requires AncestryWithin(s.origins, orig) && LinksKnown(s.rows, s.origins) && LogWithin(s.log, orig)
    ensures AncestryWithin(CollapseFrom(s, d, i).origins, orig)
    ensures LinksKnown(CollapseFrom(s, d, i).rows, CollapseFrom(s, d, i).origins)
    ensures LogWithin(CollapseFrom(s, d, i).log, orig)
    ensures SameHeaders(CollapseFrom(s, d, i).rows, s.rows)
    ensures AppendsCollapsed(s.log, CollapseFrom(s, d, i).log)
    ensures CollapseFrom(s, d, i).removed <= s.removed + Ids(s.rows)
    decreases |s.rows| - i
  {
    if i < |s.rows| {
      var s1 := CollapseAt(s, d, i);
      assert CollapseFrom(s, d, i) == CollapseFrom(s1, d, i + 1);
      CollapseAtPreserves(s, d, i, orig);
      CollapseFromPreserves(s1, d, i + 1, orig);
      var r := CollapseFrom(s1, d, i + 1);
      SameHeadersIds(s1.rows, s.rows);
      assert s.rows[i].id in Ids(s.rows);
      AppendsTrans(s.log, s1.log, r.log);
      SameHeadersTrans(r.rows, s1.rows, s.rows);
    }
  }

  lemma AppendsTrans(a: seq<seq<string>>, b: seq<seq<string>>, c: seq<seq<string>>)
    requires AppendsCollapsed(a, b) && AppendsCollapsed(b, c)
    ensures AppendsCollapsed(a, c)
  {
    assert c[..|a|] == c[..|b|][..|a|];
    forall j | |a| <= j < |c| ensures |c[j]| >= 1 && StartsWith(c[j][0], "collapsed_") {
      if j < |b| { assert c[j] == c[..|b|][j]; }
    }
  }

  lemma SameHeadersTrans(a: seq<Node>, b: seq<Node>, c: seq<Node>)
    requires SameHeaders(a, b) && SameHeaders(b, c)
    ensures SameHeaders(a, c)
  {
  }

  /** The collapse step keeps the provenance invariants; it changes the rows only by rewriting
      links and dropping marked rows (never renaming one), shrinks the row list exactly when it
      reports a change, and only appends `collapsed_` rows to the log. */
  lemma CollapsedProperties(rows: seq<Node>, origins: map<string, seq<string>>, log: seq<seq<string>>, orig: set<string>)
    requires AncestryWithin(origins, orig) && LinksKnown(rows, origins) && LogWithin(log, orig)
    ensures var c := Collapsed(rows, origins, log);
      && AncestryWithin(c.origins, orig) && LinksKnown(c.rows, c.origins) && LogWithin(c.log, orig)
      && AppendsCollapsed(log, c.log)
      && Ids(c.rows) == Ids(rows) - c.removed
      && Headers(c.rows) <= Headers(rows)
      && (DistinctIds(rows) ==> DistinctIds(c.rows))
      && |c.rows| <= |rows|
      && (c.removed != {} ==> |c.rows| < |rows|)
  {
    var s := Swept(rows, origins, log);
    var d := IndexOf(rows);
    CollapseFromPreserves(Sweep(rows, {}, origins, log), d, 0, orig);
    SameHeadersIds(s.rows, rows);
    WithoutProperties(s.rows, s.removed);
    WithoutMembers(s.rows, s.removed);
    var c := Collapsed(rows, origins, log);
    assert LinksKnown(c.rows, c.origins) by {
      forall i, k | 0 <= i < |c.rows| && 0 <= k < |c.rows[i].links| ensures c.rows[i].links[k].id in c.origins {
        assert c.rows[i] in s.rows;
        var j :| 0 <= j < |s.rows| && s.rows[j] == c.rows[i];
        assert s.rows[j].links[k].id in s.origins;
      }
    }
    if s.removed != {} {
      var x :| x in s.removed;
      assert x in Ids(s.rows);
      var j :| 0 <= j < |s.rows| && s.rows[j].id == x;
    }
  }

  // ---------------------------------------------------------------------------
  // Marking and termination

  /** One iteration keeps every row's header and marks at most the current node. */
  lemma CollapseAtMarks(s: Sweep, d: map<string, nat>, i: nat)
    requires i < |s.rows| && WellIndexed(d, |s.rows|)
    ensures SameHeaders(CollapseAt(s, d, i).rows, s.rows)
    ensures s.removed <= CollapseAt(s, d, i).removed <= s.removed + {s.rows[i].id}
    ensures Collapses(s.rows[i], d) ==> CollapseAt(s, d, i).removed == s.removed + {s.rows[i].id}
    ensures !Collapses(s.rows[i], d) ==> CollapseAt(s, d, i) == s
  {
  }

  /** The loop keeps every row's header, and marks only ids of rows, never unmarking one. */
  lemma {:induction false} CollapseFromMarks(s: Sweep, d: map<string, nat>, i: nat)
    requires i <= |s.rows| && WellIndexed(d, |s.rows|)
    ensures SameHeaders(CollapseFrom(s, d, i).rows, s.rows)
    ensures s.removed <= CollapseFrom(s, d, i).removed <= s.removed + Ids(s.rows)
    decreases |s.rows| - i
  {
    if i < |s.rows| {
      var s1 := CollapseAt(s, d, i);
      assert CollapseFrom(s, d, i) == CollapseFrom(s1, d, i + 1);
      CollapseAtMarks(s, d, i);
      CollapseFromMarks(s1, d, i + 1);
      SameHeadersIds(s1.rows, s.rows);
      assert s.rows[i].id in Ids(s.rows);
      SameHeadersTrans(CollapseFrom(s1, d, i + 1).rows, s1.rows, s.rows);
    }
  }

  /** A loop that marks nothing changes nothing. */
  lemma {:induction false} CollapseFromNone(s: Sweep, d: map<string, nat>, i: nat)
    requires i <= |s.rows| && WellIndexed(d, |s.rows|)
    requires s.removed == {} && CollapseFrom(s, d, i).removed == {}
    ensures CollapseFrom(s, d, i) == s
    decreases |s.rows| - i
  {
    if i < |s.rows| {
      var s1 := CollapseAt(s, d, i);
      assert CollapseFrom(s, d, i) == CollapseFrom(s1, d, i + 1);
      CollapseAtMarks(s, d, i);
      CollapseFromMarks(s1, d, i + 1);
      assert s1 == s;
      CollapseFromNone(s1, d, i + 1);
    }
  }

  /** The collapse step shrinks the row list exactly when it reports a change, and otherwise
      leaves everything as it was. */
  lemma CollapsedShrinks(rows: seq<Node>, origins: map<string, seq<string>>, log: seq<seq<string>>)
    ensures |Collapsed(rows, origins, log).rows| <= |rows|
    ensures Collapsed(rows, origins, log).removed != {} ==> |Collapsed(rows, origins, log).rows| < |rows|
    ensures Collapsed(rows, origins, log).removed == {} ==>
              Collapsed(rows, origins, log) == Sweep(rows, {}, origins, log)
  {
    var s := Swept(rows, origins, log);
    var d := IndexOf(rows);
    CollapseFromMarks(Sweep(rows, {}, origins, log), d, 0);
    SameHeadersIds(s.rows, rows);
    if s.removed != {} {
      var x :| x in s.removed;
      assert x in Ids(s.rows);
      var j :| 0 <= j < |s.rows| && s.rows[j].id == x;
    } else {
      CollapseFromNone(Sweep(rows, {}, origins, log), d, 0);
      assert Without(rows, {}) == rows by { WithoutEmpty(rows); }
    }
  }

  lemma {:induction false} WithoutEmpty(rows: seq<Node>)
    ensures Without(rows, {}) == rows
  {
    if rows != [] {
      WithoutEmpty(rows[..|rows| - 1]);
    }
  }

  /** If no node from position `i` on can collapse, the loop changes nothing. */
  lemma {:induction false} CollapseFromNoCandidates(s: Sweep, d: map<string, nat>, i: nat)
    requires i <= |s.rows| && WellIndexed(d, |s.rows|)
    requires forall j :: i <= j < |s.rows| ==> !Collapses(s.rows[j], d)
    ensures CollapseFrom(s, d, i) == s
    decreases |s.rows| - i
  {
    if i < |s.rows| {
      assert CollapseAt(s, d, i) == s;
      CollapseFromNoCandidates(s, d, i + 1);
    }
  }

  /** If a loop started with nothing marked ends with nothing marked, no node could collapse. */
  lemma {:induction false} CollapseFromNoneNoCandidate(s: Sweep, d: map<string, nat>, i: nat)
    requires i <= |s.rows| && WellIndexed(d, |s.rows|)
    requires s.removed == {} && CollapseFrom(s, d, i).removed == {}
    ensures forall j :: i <= j < |s.rows| ==> !Collapses(s.rows[j], d)
    decreases |s.rows| - i
  {
    if i < |s.rows| {
      var s1 := CollapseAt(s, d, i);
      assert CollapseFrom(s, d, i) == CollapseFrom(s1, d, i + 1);
      CollapseAtMarks(s, d, i);
      CollapseFromMarks(s1, d, i + 1);
      assert s1 == s;
      CollapseFromNoneNoCandidate(s1, d, i + 1);
    }
  }
}
