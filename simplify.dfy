/** The iterative simplifier: link provenance set-up, the while-changed loop over passes
    (prune, collapse, deduplicate) and the final backfill of the collapsed-link log. */
module Simplify {
  import opened Network
  import opened Prune
  import opened Collapse
  import opened Dedup

  // ---------------------------------------------------------------------------
  // Link provenance set-up

  /** The ids of all links of all rows. */
  function LinkIds(rows: seq<Node>): set<string> {
    set i, k | 0 <= i < |rows| && 0 <= k < |rows[i].links| :: rows[i].links[k].id
  }

  /** `link_origins` before the first pass: every link id maps to the list holding only itself. */
  function InitialOrigins(rows: seq<Node>): map<string, seq<string>> {
    map id | id in LinkIds(rows) :: [id]
  }

  /** Link `m` of row `j` comes before position (`i`, `k`) of the nested scan and has id `id`. */
  ghost predicate SeenBefore(rows: seq<Node>, i: int, k: int, id: string) {
    exists j, m :: 0 <= j < |rows| && 0 <= m < |rows[j].links| && (j < i || (j == i && m < k)) &&
                   rows[j].links[m].id == id
  }

  /** Lines 266-271: one entry per link id, inserted on its first occurrence. */
  method InitLinkOrigins(rows: seq<Node>) returns (origins: map<string, seq<string>>)
    ensures origins == InitialOrigins(rows)
  {
    origins := map[];
    for i := 0 to |rows|
      invariant forall id :: id in origins <==> SeenBefore(rows, i, 0, id)
      invariant forall id :: id in origins ==> origins[id] == [id]
    {
      for k := 0 to |rows[i].links|
        invariant forall id :: id in origins <==> SeenBefore(rows, i, k, id)
        invariant forall id :: id in origins ==> origins[id] == [id]
      {
        var linkId := rows[i].links[k].id;
        if linkId !in origins {
          origins := origins[linkId := [linkId]];
        }
      }
    }
    assert origins.Keys == InitialOrigins(rows).Keys;
  }

  /** The start state satisfies the provenance invariants for the input's own link ids. */
  lemma InitialTracked(rows: seq<Node>)
    ensures AncestryWithin(InitialOrigins(rows), LinkIds(rows))
    ensures LinksKnown(rows, InitialOrigins(rows))
  {
    forall i, k | 0 <= i < |rows| && 0 <= k < |rows[i].links| ensures rows[i].links[k].id in InitialOrigins(rows) {
      assert rows[i].links[k].id in LinkIds(rows);
    }
  }

  // ---------------------------------------------------------------------------
  // One pass and the loop

  /** What the loop carries from pass to pass. */
  datatype State = State(rows: seq<Node>, origins: map<string, seq<string>>, log: seq<seq<string>>)

  /** The state after one pass and the pass's `changed` flag. */
  datatype Round = Round(next: State, changed: bool)

  /** One pass of the `while changed` loop: prune dead ends, collapse degree-2 nodes, drop
      parallel links. Only pruning and collapsing set `changed`, and a pass that sets it has
      dropped at least one row. */
  function Pass(st: State): (r: Round)
    ensures |r.next.rows| <= |st.rows|
    ensures r.changed ==> |r.next.rows| < |st.rows|
  {
    var pruned := Pruned(st.rows);
    var c := Collapsed(pruned, st.origins, st.log);
    PrunedShape(st.rows);
    PrunedSmaller(st.rows);
    CollapsedShrinks(pruned, st.origins, st.log);
    Round(State(DedupAll(c.rows), c.origins, c.log), DeadEnds(st.rows) != {} || c.removed != {})
  }

  lemma PrunedSmaller(rows: seq<Node>)
    ensures DeadEnds(rows) != {} ==> |Without(rows, DeadEnds(rows))| < |rows|
  {
    if DeadEnds(rows) != {} {
      var x :| x in DeadEnds(rows);
      var i :| 0 <= i < |rows| && |rows[i].links| <= 1 && rows[i].id == x;
    }
  }

  /** Lines 275-349: the body of the loop, one step after another. */
  method RunPass(st: State) returns (next: State, changed: bool)
    ensures Round(next, changed) == Pass(st)
  {
    var pruned, pruneChanged := PruneDeadEnds(st.rows);
    var kept, origins, log, collapseChanged := CollapseDegreeTwo(pruned, st.origins, st.log);
    var deduped := RemoveDuplicates(kept);
    next := State(deduped, origins, log);
    changed := pruneChanged || collapseChanged;
  }

  /** The state when the loop ends: passes are repeated until one reports no change. */
  function Iterate(st: State): (r: State)
    ensures |r.rows| <= |st.rows|
    decreases |st.rows|
  {
    var p := Pass(st);
    if p.changed then Iterate(p.next) else p.next
  }

  /** How many passes the loop runs: never more than one per row, plus the final quiet pass
      (so no iteration cap is needed, a ring included). */
  function Rounds(st: State): (n: nat)
    ensures 1 <= n <= |st.rows| + 1
    decreases |st.rows|
  {
    var p := Pass(st);
    if p.changed then 1 + Rounds(p.next) else 1
  }

  /** Lines 273-349: the `while changed` loop; `passes` counts its iterations. */
  method RunToFixpoint(start: State) returns (fin: State, ghost passes: nat)
    ensures fin == Iterate(start)
    ensures passes == Rounds(start)
  {
    var cur := start;
    var changed := true;
    passes := 0;
    while changed
      invariant changed ==> Iterate(cur) == Iterate(start)
      invariant !changed ==> cur == Iterate(start)
      invariant changed ==> passes + Rounds(cur) == Rounds(start)
      invariant !changed ==> passes == Rounds(start)
      decreases |cur.rows| + (if changed then 1 else 0)
    {
      cur, changed := RunPass(cur);
      passes := passes + 1;
    }
    fin := cur;
  }

  // ---------------------------------------------------------------------------
  // Backfill of the collapsed-link log

  /** `{entry[0] for entry in collapsed_links_log}`. */
  function LoggedIds(log: seq<seq<string>>): set<string> {
    set j | 0 <= j < |log| && |log[j]| >= 1 :: log[j][0]
  }

  /** The log rows the backfill adds for one link list. */
  function BackfillLinks(links: seq<Link>, logged: set<string>, origins: map<string, seq<string>>): seq<seq<string>> {
    if links == [] then []
    else
      var id := links[|links| - 1].id;
      BackfillLinks(links[..|links| - 1], logged, origins) +
        (if StartsWith(id, "collapsed_") && id !in logged then [[id] + Ancestry(origins, id)] else [])
  }

  /** The log rows the backfill adds for all rows, in row order. */
  function BackfillRows(rows: seq<Node>, logged: set<string>, origins: map<string, seq<string>>): seq<seq<string>> {
    if rows == [] then []
    else BackfillRows(rows[..|rows| - 1], logged, origins) + BackfillLinks(rows[|rows| - 1].links, logged, origins)
  }

  /** The log after the backfill. The set of logged ids is taken once, before the scan. */
  function Backfilled(rows: seq<Node>, origins: map<string, seq<string>>, log: seq<seq<string>>): seq<seq<string>> {
    log + BackfillRows(rows, LoggedIds(log), origins)
  }

  /** The inner loop of lines 354-359: the rows one node's links add to the log. */
  method BackfillNode(links: seq<Link>, loggedIds: set<string>, origins: map<string, seq<string>>)
    returns (added: seq<seq<string>>)
    ensures added == BackfillLinks(links, loggedIds, origins)
  {
    added := [];
    for k := 0 to |links|
      invariant added == BackfillLinks(links[..k], loggedIds, origins)
    {
      assert links[..k + 1][..k] == links[..k];
      var linkId := links[k].id;
      if StartsWith(linkId, "collapsed_") && linkId !in loggedIds {
        var ancestry := Ancestry(origins, linkId);
        added := added + [[linkId] + ancestry];
      }
    }
    assert links[..|links|] == links;
  }

  /** Lines 352-359: one row per `collapsed_` link id not logged before the scan. */
  method BackfillLog(rows: seq<Node>, origins: map<string, seq<string>>, log: seq<seq<string>>)
    returns (newLog: seq<seq<string>>)
    ensures newLog == Backfilled(rows, origins, log)
  {
    var loggedIds := set j | 0 <= j < |log| && |log[j]| >= 1 :: log[j][0];
    assert loggedIds == LoggedIds(log);
    newLog := log;
    for i := 0 to |rows|
      invariant newLog == log + BackfillRows(rows[..i], loggedIds, origins)
    {
      assert rows[..i + 1][..i] == rows[..i];
      var added := BackfillNode(rows[i].links, loggedIds, origins);
      newLog := newLog + added;
    }
    assert rows[..|rows|] == rows;
  }

  // ---------------------------------------------------------------------------
  // The whole simplifier

  /** The rows and the log `simplify_network` returns. */
  function Simplified(rows: seq<Node>): (seq<Node>, seq<seq<string>>) {
    var fin := Iterate(State(rows, InitialOrigins(rows), []));
    (fin.rows, Backfilled(fin.rows, fin.origins, fin.log))
  }

  // ---------------------------------------------------------------------------
  // What a pass keeps

  /** The provenance invariants: ancestries and log rows name only ids from `orig`, and every
      link of the rows has an entry in `link_origins`. */
  predicate Tracked(st: State, orig: set<string>) {
    AncestryWithin(st.origins, orig) && LinksKnown(st.rows, st.origins) && LogWithin(st.log, orig)
  }

  /** Every link points at a row that exists, and no row has two links to the same node. */
  predicate Settled(rows: seq<Node>) {
    TargetsIn(rows, Ids(rows)) && forall i :: 0 <= i < |rows| ==> DistinctTargets(rows[i].links)
  }

  /** The deduplication step keeps every header and every known link. */
  lemma DedupAllKeeps(rows: seq<Node>, origins: map<string, seq<string>>)
    ensures Headers(DedupAll(rows)) == Headers(rows)
    ensures DistinctIds(DedupAll(rows)) <==> DistinctIds(rows)
    ensures Settled(DedupAll(rows))
    ensures LinksKnown(rows, origins) ==> LinksKnown(DedupAll(rows), origins)
  {
    var r := DedupAll(rows);
    DedupAllProperties(rows);
    assert SameHeaders(r, rows);
    SameHeadersIds(r, rows);
    if LinksKnown(rows, origins) {
      forall i, k | 0 <= i < |r| && 0 <= k < |r[i].links| ensures r[i].links[k].id in origins {
        assert r[i].links[k] in rows[i].links;
      }
    }
  }

  /** The pruning step keeps every known link. */
  lemma PrunedKnown(rows: seq<Node>, origins: map<string, seq<string>>)
    requires LinksKnown(rows, origins)
    ensures LinksKnown(Pruned(rows), origins)
  {
    var gone := DeadEnds(rows);
    var w := Without(rows, gone);
    var p := Pruned(rows);
    PrunedShape(rows);
    WithoutMembers(rows, gone);
    forall i, k | 0 <= i < |p| && 0 <= k < |p[i].links| ensures p[i].links[k].id in origins {
      DropLinksMembers(w[i].links, gone);
      assert p[i].links[k] in w[i].links;
      assert w[i] in rows;
    }
  }

  /** One pass keeps the provenance invariants, never adds or alters a row header, keeps ids
      distinct, only appends `collapsed_` rows to the log, and leaves the rows settled. */
  lemma PassProperties(st: State, orig: set<string>)
    requires Tracked(st, orig)
    ensures Tracked(Pass(st).next, orig)
    ensures Ids(Pass(st).next.rows) <= Ids(st.rows)
    ensures Headers(Pass(st).next.rows) <= Headers(st.rows)
    ensures DistinctIds(st.rows) ==> DistinctIds(Pass(st).next.rows)
    ensures AppendsCollapsed(st.log, Pass(st).next.log)
    ensures Settled(Pass(st).next.rows)
  {
    var pruned := Pruned(st.rows);
    PrunedIds(st.rows);
    PrunedKnown(st.rows, st.origins);
    CollapsedProperties(pruned, st.origins, st.log, orig);
    var c := Collapsed(pruned, st.origins, st.log);
    DedupAllKeeps(c.rows, c.origins);
    DedupAllProperties(c.rows);
  }

  /** The loop keeps what every pass keeps, and it ends on settled rows. */
  lemma {:induction false} IterateProperties(st: State, orig: set<string>)
    requires Tracked(st, orig)
    ensures Tracked(Iterate(st), orig)
    ensures Ids(Iterate(st).rows) <= Ids(st.rows)
    ensures Headers(Iterate(st).rows) <= Headers(st.rows)
    ensures DistinctIds(st.rows) ==> DistinctIds(Iterate(st).rows)
    ensures AppendsCollapsed(st.log, Iterate(st).log)
    ensures Settled(Iterate(st).rows)
    decreases |st.rows|
  {
    var p := Pass(st);
    PassProperties(st, orig);
    if p.changed {
      IterateProperties(p.next, orig);
      AppendsTrans(st.log, p.next.log, Iterate(p.next).log);
    }
  }

  // ---------------------------------------------------------------------------
  // What the backfill adds

  lemma {:induction false} BackfillLinksHas(links: seq<Link>, logged: set<string>, origins: map<string, seq<string>>, k: nat)
    requires k < |links| && StartsWith(links[k].id, "collapsed_") && links[k].id !in logged
    ensures [links[k].id] + Ancestry(origins, links[k].id) in BackfillLinks(links, logged, origins)
  {
    var init := links[..|links| - 1];
    if k < |init| {
      assert init[k] == links[k];
      BackfillLinksHas(init, logged, origins, k);
    }
  }

  lemma {:induction false} BackfillRowsHas(rows: seq<Node>, logged: set<string>, origins: map<string, seq<string>>, i: nat, k: nat)
    requires i < |rows| && k < |rows[i].links|
    requires StartsWith(rows[i].links[k].id, "collapsed_") && rows[i].links[k].id !in logged
    ensures [rows[i].links[k].id] + Ancestry(origins, rows[i].links[k].id) in BackfillRows(rows, logged, origins)
  {
    var init := rows[..|rows| - 1];
    if i < |init| {
      assert init[i] == rows[i];
      BackfillRowsHas(init, logged, origins, i, k);
    } else {
      BackfillLinksHas(rows[i].links, logged, origins, k);
    }
  }

  /** Each added row is a `collapsed_` link id followed by its ancestry. */
  lemma {:induction false} BackfillLinksShape(links: seq<Link>, logged: set<string>, origins: map<string, seq<string>>)
    ensures forall e :: e in BackfillLinks(links, logged, origins) ==>
              exists k :: 0 <= k < |links| && StartsWith(links[k].id, "collapsed_") && links[k].id !in logged &&
                          e == [links[k].id] + Ancestry(origins, links[k].id)
  {
    if links != [] {
      var init := links[..|links| - 1];
      BackfillLinksShape(init, logged, origins);
      assert forall k :: 0 <= k < |init| ==> init[k] == links[k];
    }
  }

  lemma {:induction false} BackfillRowsShape(rows: seq<Node>, logged: set<string>, origins: map<string, seq<string>>)
    ensures forall e :: e in BackfillRows(rows, logged, origins) ==>
              exists i, k :: 0 <= i < |rows| && 0 <= k < |rows[i].links| &&
                             StartsWith(rows[i].links[k].id, "collapsed_") && rows[i].links[k].id !in logged &&
                             e == [rows[i].links[k].id] + Ancestry(origins, rows[i].links[k].id)
  {
    if rows != [] {
      var init := rows[..|rows| - 1];
      var last := rows[|rows| - 1];
      BackfillRowsShape(init, logged, origins);
      BackfillLinksShape(last.links, logged, origins);
      assert forall i :: 0 <= i < |init| ==> init[i] == rows[i];
    }
  }

  /** After the backfill every `collapsed_` link of the rows has a log row. */
  lemma BackfillCovers(rows: seq<Node>, origins: map<string, seq<string>>, log: seq<seq<string>>)
    ensures forall i, k :: 0 <= i < |rows| && 0 <= k < |rows[i].links| && StartsWith(rows[i].links[k].id, "collapsed_") ==>
              rows[i].links[k].id in LoggedIds(Backfilled(rows, origins, log))
  {
    var logged := LoggedIds(log);
    var added := BackfillRows(rows, logged, origins);
    var b := Backfilled(rows, origins, log);
    forall i, k | 0 <= i < |rows| && 0 <= k < |rows[i].links| && StartsWith(rows[i].links[k].id, "collapsed_")
      ensures rows[i].links[k].id in LoggedIds(b)
    {
      var id := rows[i].links[k].id;
      if id in logged {
        var j :| 0 <= j < |log| && |log[j]| >= 1 && log[j][0] == id;
        assert b[j] == log[j];
      } else {
        BackfillRowsHas(rows, logged, origins, i, k);
        var e := [id] + Ancestry(origins, id);
        var j :| 0 <= j < |added| && added[j] == e;
        assert b[|log| + j] == e;
      }
    }
  }

  /** The backfill only appends, and only rows for `collapsed_` links that had none. */
  lemma BackfillAppends(rows: seq<Node>, origins: map<string, seq<string>>, log: seq<seq<string>>)
    ensures AppendsCollapsed(log, Backfilled(rows, origins, log))
    ensures forall j :: |log| <= j < |Backfilled(rows, origins, log)| ==>
              Backfilled(rows, origins, log)[j][0] !in LoggedIds(log)
  {
    var logged := LoggedIds(log);
    var added := BackfillRows(rows, logged, origins);
    var b := Backfilled(rows, origins, log);
    BackfillRowsShape(rows, logged, origins);
    assert b[..|log|] == log;
    forall j | |log| <= j < |b| ensures |b[j]| >= 1 && StartsWith(b[j][0], "collapsed_") && b[j][0] !in logged {
      assert b[j] == added[j - |log|];
      assert added[j - |log|] in added;
    }
  }

  /** The backfill keeps the log within the original link ids. */
  lemma BackfillWithin(rows: seq<Node>, origins: map<string, seq<string>>, log: seq<seq<string>>, orig: set<string>)
    requires AncestryWithin(origins, orig) && LinksKnown(rows, origins) && LogWithin(log, orig)
    ensures LogWithin(Backfilled(rows, origins, log), orig)
  {
    var logged := LoggedIds(log);
    var added := BackfillRows(rows, logged, origins);
    var b := Backfilled(rows, origins, log);
    BackfillRowsShape(rows, logged, origins);
    assert |b| == |log| + |added|;
    BackfillAppends(rows, origins, log);
    forall j, t | 0 <= j < |b| && 1 <= t < |b[j]| ensures b[j][t] in orig {
      if j < |log| {
        assert b[j] == log[j];
      } else {
        assert b[j] == added[j - |log|];
        assert added[j - |log|] in added;
        var i, k :| 0 <= i < |rows| && 0 <= k < |rows[i].links| && b[j] == [rows[i].links[k].id] + Ancestry(origins, rows[i].links[k].id);
        var id := rows[i].links[k].id;
        assert id in origins;
        assert Ancestry(origins, id) == origins[id];
        assert b[j][t] == origins[id][t - 1];
      }
    }
  }

  /** After the backfill every `collapsed_` link of the rows has a log row; the backfill only
      appends, only rows for `collapsed_` links that had none, and keeps the log within `orig`. */
  lemma BackfilledProperties(rows: seq<Node>, origins: map<string, seq<string>>, log: seq<seq<string>>, orig: set<string>)
    ensures forall i, k :: 0 <= i < |rows| && 0 <= k < |rows[i].links| && StartsWith(rows[i].links[k].id, "collapsed_") ==>
              rows[i].links[k].id in LoggedIds(Backfilled(rows, origins, log))
    ensures AppendsCollapsed(log, Backfilled(rows, origins, log))
    ensures forall j :: |log| <= j < |Backfilled(rows, origins, log)| ==>
              Backfilled(rows, origins, log)[j][0] !in LoggedIds(log)
    ensures AncestryWithin(origins, orig) && LinksKnown(rows, origins) && LogWithin(log, orig) ==>
              LogWithin(Backfilled(rows, origins, log), orig)
  {
    BackfillCovers(rows, origins, log);
    BackfillAppends(rows, origins, log);
    if AncestryWithin(origins, orig) && LinksKnown(rows, origins) && LogWithin(log, orig) {
      BackfillWithin(rows, origins, log, orig);
    }
  }

  // ---------------------------------------------------------------------------
  // The whole simplifier

  /** Lines 254-361. The input's ids must be distinct, as `group_by_node_id` makes them: the
      passes walk `node_dict`, which holds one row per id. The result keeps only input rows,
      unaltered in id, weight and coordinates; every link points at a surviving row; no row has
      two links to the same node; the log names, after each new link id, only input link ids;
      and every `collapsed_` link left has a log row. */
  method SimplifyNetwork(groupedData: seq<Node>) returns (rows: seq<Node>, log: seq<seq<string>>)
    requires DistinctIds(groupedData)
    ensures (rows, log) == Simplified(groupedData)
    ensures Ids(rows) <= Ids(groupedData) && Headers(rows) <= Headers(groupedData) && DistinctIds(rows)
    ensures Settled(rows)
    ensures LogWithin(log, LinkIds(groupedData))
    ensures forall i, k :: 0 <= i < |rows| && 0 <= k < |rows[i].links| && StartsWith(rows[i].links[k].id, "collapsed_") ==>
              rows[i].links[k].id in LoggedIds(log)
  {
    var origins := InitLinkOrigins(groupedData);
    var fin, passes := RunToFixpoint(State(groupedData, origins, []));
    log := BackfillLog(fin.rows, fin.origins, fin.log);
    rows := fin.rows;
    SimplifiedProperties(groupedData);
  }

  lemma SimplifiedProperties(input: seq<Node>)
    ensures var (rows, log) := Simplified(input);
      && Ids(rows) <= Ids(input) && Headers(rows) <= Headers(input)
      && (DistinctIds(input) ==> DistinctIds(rows))
      && Settled(rows)
      && LogWithin(log, LinkIds(input))
      && forall i, k :: 0 <= i < |rows| && 0 <= k < |rows[i].links| && StartsWith(rows[i].links[k].id, "collapsed_") ==>
           rows[i].links[k].id in LoggedIds(log)
  {
    var start := State(input, InitialOrigins(input), []);
    InitialTracked(input);
    IterateProperties(start, LinkIds(input));
    var fin := Iterate(start);
    BackfilledProperties(fin.rows, fin.origins, fin.log, LinkIds(input));
  }

  // ---------------------------------------------------------------------------
  // When the loop stops

  /** The rows after any pass are settled. */
  lemma PassSettles(st: State)
    ensures Settled(Pass(st).next.rows)
  {
    var c := Collapsed(Pruned(st.rows), st.origins, st.log);
    DedupAllKeeps(c.rows, c.origins);
  }

  /** A pass over settled rows that reports no change has changed nothing, and it has left only
      nodes of degree three or more: a degree-2 node over settled rows always collapses. */
  lemma QuietPass(st: State)
    requires Settled(st.rows) && !Pass(st).changed
    ensures Pass(st).next == st
    ensures Simple(st.rows)
  {
    var rows := st.rows;
    var d := IndexOf(rows);
    NothingToDrop(rows);
    assert Pruned(rows) == rows;
    CollapseFromNoneNoCandidate(Sweep(rows, {}, st.origins, st.log), d, 0);
    DeadEndsEmpty(rows);
    TwoLinksCollapse(rows);
    StableRows(st);
  }

  /** With no dead end, every node has degree two or more. */
  lemma DeadEndsEmpty(rows: seq<Node>)
    requires DeadEnds(rows) == {}
    ensures forall i :: 0 <= i < |rows| ==> |rows[i].links| >= 2
  {
    DeadEndsMembers(rows);
  }

  /** Over settled rows, every node of degree two is a collapse candidate. */
  lemma TwoLinksCollapse(rows: seq<Node>)
    requires Settled(rows)
    ensures forall i :: 0 <= i < |rows| && |rows[i].links| == 2 ==> Collapses(rows[i], IndexOf(rows))
  {
  }

  /** Settled rows whose nodes all have degree three or more are a fixed point of the loop. */
  lemma StableRows(st: State)
    requires Simple(st.rows)
    ensures Pass(st) == Round(st, false)
    ensures Iterate(st) == st && Rounds(st) == 1
  {
    StableCandidates(st);
    DedupSettled(st.rows);
  }

  /** The rows a simplifier should leave: settled, with every node of degree three or more. */
  predicate Simple(rows: seq<Node>) {
    Settled(rows) && forall i :: 0 <= i < |rows| ==> |rows[i].links| >= 3
  }

  /** Deduplication leaves settled rows as they are. */
  lemma DedupSettled(rows: seq<Node>)
    requires Settled(rows)
    ensures DedupAll(rows) == rows
  {
    forall i | 0 <= i < |rows| ensures DedupAll(rows)[i] == rows[i] {
      DedupedClean(rows[i].links, Ids(rows));
    }
  }

  /** Rows with no node of degree one or less have nothing to prune. */
  lemma NoDeadEnds(rows: seq<Node>)
    requires forall i :: 0 <= i < |rows| ==> |rows[i].links| >= 2
    ensures DeadEnds(rows) == {}
  {
  }

  /** Once the rows are settled, the loop ends with every node of degree three or more. */
  lemma {:induction false} SettledIterate(st: State)
    requires Settled(st.rows)
    ensures Simple(Iterate(st).rows)
    decreases |st.rows|
  {
    var p := Pass(st);
    if p.changed {
      PassSettles(st);
      SettledIterate(p.next);
    } else {
      QuietPass(st);
    }
  }

  /** A loop that runs two passes or more ends with every node of degree three or more. */
  lemma TwoPassesSettle(st: State)
    requires Rounds(st) >= 2
    ensures Simple(Iterate(st).rows)
  {
    PassSettles(st);
    SettledIterate(Pass(st).next);
  }

  // ---------------------------------------------------------------------------
  // A loop that stops too early

  /** Two nodes with three links each: `A` has two parallel links to `B` and one to a node `Z`
      that has no row; `B` has three parallel links to `A`. */
  function ParallelPair(): seq<Node> {
    [ Node("A", 0.0, 0.0, 0.0, [Link("a1", "B", 5.0, 1.0, 0.0), Link("a2", "B", 3.0, 1.0, 0.0), Link("a3", "Z", 1.0, 2.0, 0.0)]),
      Node("B", 0.0, 1.0, 0.0, [Link("b1", "A", 1.0, 0.0, 0.0), Link("b2", "A", 1.0, 0.0, 0.0), Link("b3", "A", 1.0, 0.0, 0.0)]) ]
  }

  /** On `ParallelPair` the first pass prunes and collapses nothing, so the loop stops after it,
      although its deduplication has just left both nodes with a single link: the result holds
      two dead ends, which the pruning step exists to remove. */
  lemma QuietFirstPassLeavesDeadEnds()
    ensures var st := State(ParallelPair(), InitialOrigins(ParallelPair()), []);
      && Rounds(st) == 1
      && Iterate(st).rows == [ Node("A", 0.0, 0.0, 0.0, [Link("a2", "B", 3.0, 1.0, 0.0)]),
                               Node("B", 0.0, 1.0, 0.0, [Link("b1", "A", 1.0, 0.0, 0.0)]) ]
  {
    var rows := ParallelPair();
    var st := State(rows, InitialOrigins(rows), []);
    StableCandidates(st);
    var valid := Ids(rows);
    assert valid == {"A", "B"} by {
      assert rows[0].id in valid && rows[1].id in valid;
    }
    DedupA(rows[0].links, valid);
    DedupB(rows[1].links, valid);
  }

  lemma DedupA(links: seq<Link>, valid: set<string>)
    requires links == ParallelPair()[0].links && valid == {"A", "B"}
    ensures Deduped(links, valid) == [Link("a2", "B", 3.0, 1.0, 0.0)]
  {
    assert links[..2][..1] == links[..1];
    assert links[..2] == links[..3][..2];
    assert links[..3] == links;
    assert FirstTargets(links[..1], valid) == ["B"];
    assert FirstTargets(links, valid) == ["B"];
    var tail := links[1..];
    assert HasTarget(tail, "B") by { assert tail[0].target == "B"; }
    assert !HasTarget(tail[1..], "B");
    assert FirstMin(tail, "B") == links[1];
  }

  lemma DedupB(links: seq<Link>, valid: set<string>)
    requires links == ParallelPair()[1].links && valid == {"A", "B"}
    ensures Deduped(links, valid) == [Link("b1", "A", 1.0, 0.0, 0.0)]
  {
    assert links[..2][..1] == links[..1];
    assert links[..2] == links[..3][..2];
    assert links[..3] == links;
    assert FirstTargets(links[..1], valid) == ["A"];
    assert FirstTargets(links, valid) == ["A"];
    var tail := links[1..];
    assert HasTarget(tail, "A") by { assert tail[0].target == "A"; }
    assert HasTarget(tail[1..], "A") by { assert tail[1..][0].target == "A"; }
    assert !HasTarget(tail[1..][1..], "A");
    assert FirstMin(tail, "A") == links[2] || FirstMin(tail, "A") == links[1];
  }

  /** A pass over rows of degree three or more changes nothing but the deduplication. */
  lemma StableCandidates(st: State)
    requires forall i :: 0 <= i < |st.rows| ==> |st.rows[i].links| >= 3
    ensures Pass(st) == Round(st.(rows := DedupAll(st.rows)), false)
  {
    var rows := st.rows;
    NoDeadEnds(rows);
    NothingToDrop(rows);
    CollapseFromNoCandidates(Sweep(rows, {}, st.origins, st.log), IndexOf(rows), 0);
    WithoutEmpty(rows);
  }

  // ---------------------------------------------------------------------------
  // The simplifier with one deduplication before the loop

  /** The simplifier with the links deduplicated once before the first pass, so that a first pass
      that prunes and collapses nothing starts from settled rows. */
  function SimplifiedCorrected(rows: seq<Node>): (seq<Node>, seq<seq<string>>) {
    var fin := Iterate(State(DedupAll(rows), InitialOrigins(rows), []));
    (fin.rows, Backfilled(fin.rows, fin.origins, fin.log))
  }

  /** `simplify_network` with a deduplication of every row before the loop. Besides what
      `SimplifyNetwork` keeps, every node left has degree three or more, and the result is a
      fixed point of the simplifier. */
  method SimplifyNetworkCorrected(groupedData: seq<Node>) returns (rows: seq<Node>, log: seq<seq<string>>)
    requires DistinctIds(groupedData)
    ensures (rows, log) == SimplifiedCorrected(groupedData)
    ensures Ids(rows) <= Ids(groupedData) && Headers(rows) <= Headers(groupedData) && DistinctIds(rows)
    ensures Simple(rows)
    ensures LogWithin(log, LinkIds(groupedData))
    ensures forall i, k :: 0 <= i < |rows| && 0 <= k < |rows[i].links| && StartsWith(rows[i].links[k].id, "collapsed_") ==>
              rows[i].links[k].id in LoggedIds(log)
    ensures SimplifiedCorrected(rows).0 == rows
  {
    var origins := InitLinkOrigins(groupedData);
    var deduped := RemoveDuplicates(groupedData);
    var fin, passes := RunToFixpoint(State(deduped, origins, []));
    log := BackfillLog(fin.rows, fin.origins, fin.log);
    rows := fin.rows;
    CorrectedProperties(groupedData);
    CorrectedIdempotent(groupedData);
  }

  lemma CorrectedProperties(input: seq<Node>)
    ensures var (rows, log) := SimplifiedCorrected(input);
      && Ids(rows) <= Ids(input) && Headers(rows) <= Headers(input)
      && (DistinctIds(input) ==> DistinctIds(rows))
      && Simple(rows)
      && LogWithin(log, LinkIds(input))
      && forall i, k :: 0 <= i < |rows| && 0 <= k < |rows[i].links| && StartsWith(rows[i].links[k].id, "collapsed_") ==>
           rows[i].links[k].id in LoggedIds(log)
  {
    var start := State(DedupAll(input), InitialOrigins(input), []);
    InitialTracked(input);
    DedupAllKeeps(input, InitialOrigins(input));
    DedupAllProperties(input);
    IterateProperties(start, LinkIds(input));
    SettledIterate(start);
    var fin := Iterate(start);
    BackfilledProperties(fin.rows, fin.origins, fin.log, LinkIds(input));
  }

  /** The corrected simplifier leaves simple rows, and simple rows are its fixed points. */
  lemma CorrectedSimple(input: seq<Node>)
    ensures Simple(SimplifiedCorrected(input).0)
    ensures Simple(input) ==> SimplifiedCorrected(input).0 == input
  {
    var start := State(DedupAll(input), InitialOrigins(input), []);
    DedupAllKeeps(input, InitialOrigins(input));
    SettledIterate(start);
    if Simple(input) {
      DedupSettled(input);
      StableRows(start);
    }
  }

  /** Simplifying the corrected simplifier's output again returns the same rows. */
  lemma CorrectedIdempotent(input: seq<Node>)
    ensures SimplifiedCorrected(SimplifiedCorrected(input).0).0 == SimplifiedCorrected(input).0
  {
    CorrectedSimple(input);
    CorrectedSimple(SimplifiedCorrected(input).0);
  }
}
