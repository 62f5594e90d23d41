/** Parallel-link deduplication, the last step of every simplification pass. */
module Dedup {
  import opened Network

  /** Some link of `links` points at `t`. */
  predicate HasTarget(links: seq<Link>, t: string) {
    exists k :: 0 <= k < |links| && links[k].target == t
  }

  /** `links[p]` has minimal weight among the links to its target, and every earlier link to
      that target is strictly heavier. */
  predicate IsFirstMinimal(links: seq<Link>, p: int) {
    && 0 <= p < |links|
    && (forall q :: 0 <= q < |links| && links[q].target == links[p].target ==> links[p].weight <= links[q].weight)
    && (forall q :: 0 <= q < p && links[q].target == links[p].target ==> links[q].weight > links[p].weight)
  }

  lemma HasTargetSnoc(xs: seq<Link>, l: Link, t: string)
    ensures HasTarget(xs + [l], t) <==> HasTarget(xs, t) || l.target == t
  {
    var ys := xs + [l];
    if HasTarget(xs, t) {
      var k :| 0 <= k < |xs| && xs[k].target == t;
      assert ys[k] == xs[k];
    }
    if HasTarget(ys, t) && l.target != t {
      var k :| 0 <= k < |ys| && ys[k].target == t;
      assert k < |xs| && xs[k] == ys[k];
    }
    assert ys[|xs|] == l;
  }

  /** The distinct targets of `links` that lie in `valid`, in order of first occurrence. */
  function FirstTargets(links: seq<Link>, valid: set<string>): (ts: seq<string>)
    ensures forall k :: 0 <= k < |ts| ==> ts[k] in valid && HasTarget(links, ts[k])
  {
    if links == [] then []
    else
      var init := links[..|links| - 1];
      var prev := FirstTargets(init, valid);
      var t := links[|links| - 1].target;
      assert forall k :: 0 <= k < |init| ==> init[k] == links[k];
      if t in valid && t !in prev then prev + [t] else prev
  }

  /** The first link to `t` whose weight is minimal among the links to `t`. */
  function FirstMin(links: seq<Link>, t: string): (r: Link)
    requires HasTarget(links, t)
    ensures r.target == t
  {
    if links[0].target != t then
      assert HasTarget(links[1..], t) by {
        var k :| 0 <= k < |links| && links[k].target == t;
        assert links[1..][k - 1] == links[k];
      }
      FirstMin(links[1..], t)
    else if !HasTarget(links[1..], t) then links[0]
    else
      var rest := FirstMin(links[1..], t);
      if links[0].weight <= rest.weight then links[0] else rest
  }

  /** What the deduplication keeps of one row's links: for every valid target, in order of first
      occurrence, the first link to it of minimal weight. */
  function Deduped(links: seq<Link>, valid: set<string>): (r: seq<Link>) {
    var ts := FirstTargets(links, valid);
    seq(|ts|, k requires 0 <= k < |ts| => FirstMin(links, ts[k]))
  }

  /** Lines 340-349 for one row: an insertion-ordered dictionary from target to the link kept,
      replaced only by a strictly lighter link; links to vanished nodes are skipped. */
  method DedupLinks(links: seq<Link>, valid: set<string>) returns (kept: seq<Link>)
    ensures kept == Deduped(links, valid)
  {
    var order: seq<string> := [];
    var unique: map<string, Link> := map[];
    for k := 0 to |links|
      invariant order == FirstTargets(links[..k], valid)
      invariant forall t :: t in unique <==> t in order
      invariant forall t :: t in unique ==> HasTarget(links[..k], t) && unique[t] == FirstMin(links[..k], t)
    {
      var link := links[k];
      var neighbor, weight := link.target, link.weight;
      assert links[..k + 1] == links[..k] + [link];
      assert links[..k + 1][..k] == links[..k];
      forall t | t in unique ensures HasTarget(links[..k + 1], t) && FirstMin(links[..k + 1], t) ==
        if link.target != t then FirstMin(links[..k], t)
        else if weight < FirstMin(links[..k], t).weight then link else FirstMin(links[..k], t)
      {
        HasTargetSnoc(links[..k], link, t);
        FirstMinSnoc(links[..k], link, t);
      }
      if neighbor in valid {
        if neighbor !in unique || weight < unique[neighbor].weight {
          if neighbor !in unique {
            FirstTargetsMembers(links[..k], valid, neighbor);
            order := order + [neighbor];
            HasTargetSnoc(links[..k], link, neighbor);
            FirstMinSnoc(links[..k], link, neighbor);
          }
          unique := unique[neighbor := link];
        }
      }
    }
    assert links[..|links|] == links;
    kept := seq(|order|, i requires 0 <= i < |order| => unique[order[i]]);
  }

  /** Every row with its links deduplicated against the ids of the rows (`valid_nodes`). */
  function DedupAll(rows: seq<Node>): (r: seq<Node>)
    ensures |r| == |rows|
  {
    seq(|rows|, i requires 0 <= i < |rows| => rows[i].(links := Deduped(rows[i].links, Ids(rows))))
  }

  /** Lines 337-349: rewrite every row's links in place. */
  method RemoveDuplicates(rows: seq<Node>) returns (deduped: seq<Node>)
    ensures deduped == DedupAll(rows)
  {
    var validNodes := Ids(rows);
    deduped := rows;
    for i := 0 to |rows|
      invariant |deduped| == |rows|
      invariant forall j :: 0 <= j < |rows| ==> deduped[j] == if j < i then DedupAll(rows)[j] else rows[j]
    {
      var uniqueLinks := DedupLinks(deduped[i].links, validNodes);
      deduped := deduped[i := deduped[i].(links := uniqueLinks)];
    }
  }

  // ---------------------------------------------------------------------------
  // Properties of the deduplication

  /** Reading one more link: the strict `<` test keeps the earlier of two equally light links. */
  lemma {:induction false} FirstMinSnoc(xs: seq<Link>, l: Link, t: string)
    requires HasTarget(xs + [l], t)
    ensures l.target != t ==> HasTarget(xs, t)
    ensures FirstMin(xs + [l], t) ==
      if l.target != t then FirstMin(xs, t)
      else if !HasTarget(xs, t) then l
      else if l.weight < FirstMin(xs, t).weight then l else FirstMin(xs, t)
    decreases |xs|
  {
    var ys := xs + [l];
    if l.target != t {
      var k :| 0 <= k < |ys| && ys[k].target == t;
      assert xs[k] == ys[k];
    }
    if xs == [] {
      assert ys == [l];
      assert !HasTarget(ys[1..], t);
    } else {
      var x := xs[0];
      var zs := xs[1..];
      assert ys[1..] == zs + [l];
      assert ys[0] == x;
      assert HasTarget(xs, t) <==> x.target == t || HasTarget(zs, t) by {
        if HasTarget(xs, t) && x.target != t {
          var k :| 0 <= k < |xs| && xs[k].target == t;
          assert zs[k - 1] == xs[k];
        }
        if HasTarget(zs, t) {
          var k :| 0 <= k < |zs| && zs[k].target == t;
          assert xs[k + 1] == zs[k];
        }
      }
      assert HasTarget(zs + [l], t) <==> l.target == t || HasTarget(zs, t) by {
        if HasTarget(zs + [l], t) && l.target != t {
          var k :| 0 <= k < |zs + [l]| && (zs + [l])[k].target == t;
          assert zs[k] == (zs + [l])[k];
        }
        if HasTarget(zs, t) {
          var k :| 0 <= k < |zs| && zs[k].target == t;
          assert (zs + [l])[k] == zs[k];
        }
        if l.target == t {
          assert (zs + [l])[|zs|] == l;
        }
      }
      if HasTarget(zs + [l], t) {
        FirstMinSnoc(zs, l, t);
      }
    }
  }

  /** `FirstMin` picks a link of `links`: the first one, among those to `t`, whose weight is minimal. */
  lemma {:induction false} FirstMinIsFirstMinimal(links: seq<Link>, t: string)
    requires HasTarget(links, t)
    ensures exists p :: IsFirstMinimal(links, p) && links[p] == FirstMin(links, t)
  {
    var r := FirstMin(links, t);
    var rest := links[1..];
    assert forall q :: 1 <= q < |links| ==> links[q] == rest[q - 1];
    if links[0].target != t {
      assert HasTarget(rest, t) by {
        var k :| 0 <= k < |links| && links[k].target == t;
        assert rest[k - 1] == links[k];
      }
      FirstMinIsFirstMinimal(rest, t);
      var p :| IsFirstMinimal(rest, p) && rest[p] == r;
      assert links[p + 1] == r;
      assert IsFirstMinimal(links, p + 1);
    } else if !HasTarget(rest, t) {
      assert forall q :: 1 <= q < |links| ==> links[q].target != t by {
        forall q | 1 <= q < |links| ensures links[q].target != t { assert links[q] == rest[q - 1]; }
      }
      assert links[0] == r;
      assert IsFirstMinimal(links, 0);
    } else {
      FirstMinIsFirstMinimal(rest, t);
      var m := FirstMin(rest, t);
      var p :| IsFirstMinimal(rest, p) && rest[p] == m;
      if links[0].weight <= m.weight {
        assert links[0] == r;
        assert IsFirstMinimal(links, 0);
      } else {
        assert r == m;
        assert links[p + 1] == r;
        assert IsFirstMinimal(links, p + 1);
      }
    }
  }

  /** Membership in the first-occurrence list. */
  lemma {:induction false} FirstTargetsMembers(links: seq<Link>, valid: set<string>, t: string)
    ensures t in FirstTargets(links, valid) <==> t in valid && HasTarget(links, t)
  {
    if links != [] {
      var init := links[..|links| - 1];
      FirstTargetsMembers(init, valid, t);
      assert links == init + [links[|links| - 1]];
      HasTargetSnoc(init, links[|links| - 1], t);
    }
  }

  /** The first-occurrence list has no repetition. */
  lemma {:induction false} FirstTargetsDistinct(links: seq<Link>, valid: set<string>)
    ensures forall a, b :: 0 <= a < b < |FirstTargets(links, valid)| ==>
              FirstTargets(links, valid)[a] != FirstTargets(links, valid)[b]
  {
    if links != [] {
      FirstTargetsDistinct(links[..|links| - 1], valid);
    }
  }

  /** Index of the first link to `t`. */
  function FirstIndex(links: seq<Link>, t: string): (p: nat)
    requires HasTarget(links, t)
    ensures p < |links| && links[p].target == t
    ensures forall q :: 0 <= q < p ==> links[q].target != t
  {
    var init := links[..|links| - 1];
    if HasTarget(init, t) then
      var p := FirstIndex(init, t);
      assert links[p] == init[p];
      p
    else
      assert forall q :: 0 <= q < |init| ==> links[q] == init[q];
      |links| - 1
  }

  /** The first-occurrence list is ordered by first occurrence. */
  lemma {:induction false} FirstTargetsOrdered(links: seq<Link>, valid: set<string>, a: nat, b: nat)
    requires a < b < |FirstTargets(links, valid)|
    ensures FirstIndex(links, FirstTargets(links, valid)[a]) < FirstIndex(links, FirstTargets(links, valid)[b])
  {
    var ts := FirstTargets(links, valid);
    var init := links[..|links| - 1];
    var prev := FirstTargets(init, valid);
    FirstTargetsMembers(init, valid, ts[a]);
    if b < |prev| {
      FirstTargetsOrdered(init, valid, a, b);
      FirstTargetsMembers(init, valid, ts[b]);
    } else {
      FirstTargetsMembers(init, valid, ts[b]);
    }
  }

  /** Deduplication leaves at most one link per target, only links to `valid` targets, a link for
      every valid target of the input, in order of first occurrence; each link kept is a link of
      the input of minimal weight among the links to its target, and the first such one. */
  lemma DedupedProperties(links: seq<Link>, valid: set<string>)
    ensures DistinctTargets(Deduped(links, valid))
    ensures forall k :: 0 <= k < |Deduped(links, valid)| ==> Deduped(links, valid)[k].target in valid
    ensures forall t :: (exists k :: 0 <= k < |Deduped(links, valid)| && Deduped(links, valid)[k].target == t) <==>
                        t in valid && HasTarget(links, t)
    ensures forall a, b :: 0 <= a < b < |Deduped(links, valid)| ==>
              HasTarget(links, Deduped(links, valid)[a].target) && HasTarget(links, Deduped(links, valid)[b].target) &&
              FirstIndex(links, Deduped(links, valid)[a].target) < FirstIndex(links, Deduped(links, valid)[b].target)
    ensures forall k :: 0 <= k < |Deduped(links, valid)| ==>
              exists p :: IsFirstMinimal(links, p) && links[p] == Deduped(links, valid)[k]
  {
    var ts := FirstTargets(links, valid);
    var r := Deduped(links, valid);
    FirstTargetsDistinct(links, valid);
    forall t ensures (exists k :: 0 <= k < |r| && r[k].target == t) <==> t in valid && HasTarget(links, t) {
      FirstTargetsMembers(links, valid, t);
      if t in valid && HasTarget(links, t) {
        var k :| 0 <= k < |ts| && ts[k] == t;
        assert r[k].target == t;
      }
    }
    forall a, b | 0 <= a < b < |r|
      ensures FirstIndex(links, r[a].target) < FirstIndex(links, r[b].target)
    {
      FirstTargetsOrdered(links, valid, a, b);
    }
    forall k | 0 <= k < |r|
      ensures exists p :: IsFirstMinimal(links, p) && links[p] == r[k]
    {
      FirstMinIsFirstMinimal(links, ts[k]);
    }
  }

  /** On links that already have distinct, valid targets, deduplication changes nothing. */
  lemma {:induction false} DedupedClean(links: seq<Link>, valid: set<string>)
    requires DistinctTargets(links)
    requires forall k :: 0 <= k < |links| ==> links[k].target in valid
    ensures Deduped(links, valid) == links
  {
    CleanFirstTargets(links, valid);
    forall k | 0 <= k < |links| ensures FirstMin(links, links[k].target) == links[k] {
      CleanFirstMin(links, k);
    }
  }

  lemma {:induction false} CleanFirstTargets(links: seq<Link>, valid: set<string>)
    requires DistinctTargets(links)
    requires forall k :: 0 <= k < |links| ==> links[k].target in valid
    ensures |FirstTargets(links, valid)| == |links|
    ensures forall k :: 0 <= k < |links| ==> FirstTargets(links, valid)[k] == links[k].target
  {
    if links != [] {
      var init := links[..|links| - 1];
      var last := links[|links| - 1];
      assert forall k :: 0 <= k < |init| ==> init[k] == links[k];
      CleanFirstTargets(init, valid);
      FirstTargetsMembers(init, valid, last.target);
    }
  }

  lemma {:induction false} CleanFirstMin(links: seq<Link>, k: nat)
    requires DistinctTargets(links) && k < |links|
    ensures HasTarget(links, links[k].target) && FirstMin(links, links[k].target) == links[k]
  {
    var t := links[k].target;
    var rest := links[1..];
    assert forall q :: 1 <= q < |links| ==> links[q] == rest[q - 1];
    if k == 0 {
      assert !HasTarget(rest, t) by {
        forall q | 0 <= q < |rest| ensures rest[q].target != t { assert rest[q] == links[q + 1]; }
      }
    } else {
      assert links[0].target != t;
      CleanFirstMin(rest, k - 1);
    }
  }

  /** Deduplication is idempotent. */
  lemma DedupedIdempotent(links: seq<Link>, valid: set<string>)
    ensures Deduped(Deduped(links, valid), valid) == Deduped(links, valid)
  {
    DedupedProperties(links, valid);
    DedupedClean(Deduped(links, valid), valid);
  }

  /** Every kept link is a link of the input. */
  lemma DedupedSubset(links: seq<Link>, valid: set<string>)
    ensures forall l :: l in Deduped(links, valid) ==> l in links
  {
    DedupedProperties(links, valid);
    forall l | l in Deduped(links, valid) ensures l in links {
      var k :| 0 <= k < |Deduped(links, valid)| && Deduped(links, valid)[k] == l;
    }
  }

  /** After the deduplication step every link of every row points at a row, no row has two links
      to the same target, and the rows keep their ids, weights and coordinates. */
  lemma DedupAllProperties(rows: seq<Node>)
    ensures forall i :: 0 <= i < |rows| ==> Header(DedupAll(rows)[i]) == Header(rows[i])
    ensures Ids(DedupAll(rows)) == Ids(rows)
    ensures TargetsIn(DedupAll(rows), Ids(DedupAll(rows)))
    ensures forall i :: 0 <= i < |rows| ==> DistinctTargets(DedupAll(rows)[i].links)
    ensures forall i, l :: 0 <= i < |rows| && l in DedupAll(rows)[i].links ==> l in rows[i].links
  {
    var r := DedupAll(rows);
    assert Ids(r) == Ids(rows) by {
      forall id ensures id in Ids(r) <==> id in Ids(rows) {
        if id in Ids(r) { var i :| 0 <= i < |r| && r[i].id == id; assert rows[i].id == id; }
        if id in Ids(rows) { var i :| 0 <= i < |rows| && rows[i].id == id; assert r[i].id == id; }
      }
    }
    forall i | 0 <= i < |rows| ensures DistinctTargets(r[i].links) && forall k :: 0 <= k < |r[i].links| ==> r[i].links[k].target in Ids(rows) {
      DedupedProperties(rows[i].links, Ids(rows));
    }
    forall i | 0 <= i < |rows| ensures forall l :: l in r[i].links ==> l in rows[i].links {
      DedupedSubset(rows[i].links, Ids(rows));
    }
  }
}
