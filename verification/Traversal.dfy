/** The traversal report. */
module Traversal {
  import opened Coalesce
  import opened Sequences

  // The report of cinst/scripts/RT_query.py: rows grouped by holder, coalesced, and
  // back-to-back traversals tallied by their pair of call sites.

  // --------------------------------------------------------------- grouping

  /** One holder's rows, in the order of the query. */
  function OfHolder(rows: seq<OpRow>, hid: int): seq<OpRow> {
    if rows == [] then []
    else
      var k := |rows| - 1;
      OfHolder(rows[..k], hid) + if rows[k].hid == hid then [rows[k]] else []
  }

  function IsOf(rows: seq<OpRow>, hid: int): (marks: seq<bool>)
    ensures |marks| == |rows|
    ensures forall p {:trigger marks[p]} :: 0 <= p < |rows| ==> marks[p] == (rows[p].hid == hid)
  {
    seq(|rows|, p requires 0 <= p < |rows| => rows[p].hid == hid)
  }

  /** The group is what `rows` reads off at exactly the positions of the holder's rows, in order. */
  ghost predicate GroupAt(rows: seq<OpRow>, hid: int, ps: seq<nat>, group: seq<OpRow>) {
    Marked(IsOf(rows, hid), ps) && ReadsOff(rows, ps, group)
  }

  ghost predicate IsGroup(rows: seq<OpRow>, hid: int, group: seq<OpRow>) {
    exists ps :: GroupAt(rows, hid, ps, group)
  }

  /** Grouping keeps a holder's rows, all of them and in their order. */
  lemma {:induction false} OfHolderIsGroup(rows: seq<OpRow>, hid: int) returns (ps: seq<nat>)
    ensures GroupAt(rows, hid, ps, OfHolder(rows, hid))
  {
    if rows == [] {
      ps := [];
    } else {
      var k := |rows| - 1;
      var front, mine := rows[..k], rows[k].hid == hid;
      ps := OfHolderIsGroup(front, hid);
      MarkedLast(IsOf(front, hid), ps, mine);
      ReadsOffLast(front, ps, OfHolder(front, hid), rows[k]);
      assert IsOf(rows, hid) == IsOf(front, hid) + [mine] && rows == front + [rows[k]];
      if mine { ps := ps + [k]; }
    }
  }

  /** The groups, one per holder that occurs, each with its rows in the order of the query. */
  ghost predicate Grouped(rows: seq<OpRow>, groups: map<int, seq<OpRow>>) {
    forall h :: (h in groups <==> OfHolder(rows, h) != []) && (h in groups ==> groups[h] == OfHolder(rows, h))
  }

  lemma {:induction false} GroupedKeepsOrder(rows: seq<OpRow>, groups: map<int, seq<OpRow>>, h: int)
    requires Grouped(rows, groups)
    ensures h in groups <==> exists p :: 0 <= p < |rows| && rows[p].hid == h
    ensures h in groups ==> IsGroup(rows, h, groups[h])
  {
    var ps := OfHolderIsGroup(rows, h);
    if p :| 0 <= p < |rows| && rows[p].hid == h { assert p in ps; }
    if ps != [] { assert ps[0] in ps; }
  }

  ghost predicate Distinct<T>(xs: seq<T>) { forall i, j :: 0 <= i < j < |xs| ==> xs[i] != xs[j] }

  /** The groups, and the holders in the order they first appear. */
  method GroupByHolder(rows: seq<OpRow>) returns (groups: map<int, seq<OpRow>>, holders: seq<int>)
    ensures Distinct(holders) && forall h :: h in groups <==> h in holders
    ensures Grouped(rows, groups)
    ensures forall h :: h in groups <==> exists p :: 0 <= p < |rows| && rows[p].hid == h
    ensures forall h :: h in groups ==> IsGroup(rows, h, groups[h])
  {
    groups, holders := CollectGroups(rows);
    forall h
      ensures h in groups <==> exists p :: 0 <= p < |rows| && rows[p].hid == h
      ensures h in groups ==> IsGroup(rows, h, groups[h])
    {
      GroupedKeepsOrder(rows, groups, h);
    }
  }

  /** The loop. */
  method CollectGroups(rows: seq<OpRow>) returns (groups: map<int, seq<OpRow>>, holders: seq<int>)
    ensures Distinct(holders) && forall h :: h in groups <==> h in holders
    ensures Grouped(rows, groups)
  {
    groups, holders := map[], [];
    for i := 0 to |rows|
      invariant Distinct(holders)
      invariant forall h :: h in groups <==> h in holders
      invariant Grouped(rows[..i], groups)
    {
      var l := rows[i];
      assert rows[..i + 1][..i] == rows[..i];
      if l.hid !in groups {
        groups, holders := groups[l.hid := []], holders + [l.hid];
      }
      groups := groups[l.hid := groups[l.hid] + [l]];
    }
    assert rows[..|rows|] == rows;
  }

  // ------------------------------------------------------- the traversal pass

  /** A call site; the script writes it `classname:line`. */
  datatype Site = Site(classname: string, line: int)

  datatype Key = Key(first: Site, second: Site)

  datatype TraverseInfo = TraverseInfo(prevCount: int, nextCount: int, loopCount: int)

  datatype Hit = Hit(key: Key, prev: int, next: int)

  function Pos(e: Entry): Site { Site(e.classname, e.line) }

  predicate IsTraversal(getOp: int, last: Entry, op: Entry) {
    IsConst(getOp, last) && IsConst(getOp, op) && last.count > 5 && op.count > 5
  }

  function HitOf(last: Entry, op: Entry): Hit { Hit(Key(Pos(last), Pos(op)), last.count, op.count) }

  /** The neighbours that count, in order. */
  function Hits(getOp: int, es: seq<Entry>): seq<Hit> {
    if |es| < 2 then []
    else
      var k := |es| - 1;
      Hits(getOp, es[..k]) + if IsTraversal(getOp, es[k - 1], es[k]) then [HitOf(es[k - 1], es[k])] else []
  }

  function AllHits(getOp: int, groups: seq<seq<Entry>>): seq<Hit> {
    if groups == [] then []
    else AllHits(getOp, groups[..|groups| - 1]) + Hits(getOp, groups[|groups| - 1])
  }

  /** What a key's record holds: sums over that key's hits. */
  function Tally(key: Key, hits: seq<Hit>): TraverseInfo {
    if hits == [] then TraverseInfo(0, 0, 0)
    else
      var before, h := Tally(key, hits[..|hits| - 1]), hits[|hits| - 1];
      if h.key == key then
        TraverseInfo(before.prevCount + h.prev, before.nextCount + h.next, before.loopCount + 1)
      else before
  }

  predicate Counted(key: Key, hits: seq<Hit>) { exists i :: 0 <= i < |hits| && hits[i].key == key }

  /** A table of records that agrees with the hits so far. */
  ghost predicate Tallies(res: map<Key, TraverseInfo>, hits: seq<Hit>) {
    forall k :: (k in res <==> Counted(k, hits)) && (k in res ==> res[k] == Tally(k, hits))
  }

  lemma {:induction false} TallyNone(key: Key, hits: seq<Hit>)
    requires !Counted(key, hits)
    ensures Tally(key, hits) == TraverseInfo(0, 0, 0)
  {
    if hits != [] {
      var k := |hits| - 1;
      assert forall i :: 0 <= i < k ==> hits[..k][i] == hits[i];
      TallyNone(key, hits[..k]);
    }
  }

  lemma {:induction false} TallyLast(key: Key, hits: seq<Hit>, h: Hit)
    ensures Counted(key, hits + [h]) <==> Counted(key, hits) || h.key == key
    ensures Tally(key, hits + [h]) ==
            var t := Tally(key, hits);
            if h.key == key then TraverseInfo(t.prevCount + h.prev, t.nextCount + h.next, t.loopCount + 1) else t
  {
    assert (hits + [h])[..|hits|] == hits;
    if Counted(key, hits) {
      var i :| 0 <= i < |hits| && hits[i].key == key;
      assert (hits + [h])[i].key == key;
    }
    assert (hits + [h])[|hits|] == h;
  }

  /** `setdefault`, then the three increments. */
  method Bump(res: map<Key, TraverseInfo>, h: Hit, ghost hits: seq<Hit>) returns (res': map<Key, TraverseInfo>)
    requires Tallies(res, hits)
    ensures Tallies(res', hits + [h])
  {
    res' := res;
    if h.key !in res' {
      res' := res'[h.key := TraverseInfo(0, 0, 0)];
      TallyNone(h.key, hits);
    }
    var info := res'[h.key];
    res' := res'[h.key := TraverseInfo(info.prevCount + h.prev, info.nextCount + h.next, info.loopCount + 1)];
    forall k
      ensures (k in res' <==> Counted(k, hits + [h])) && (k in res' ==> res'[k] == Tally(k, hits + [h]))
    {
      TallyLast(k, hits, h);
    }
  }

  /** The pass over one holder's coalesced operations. */
  method CountGroup(getOp: int, group: seq<ContainerOp>, res0: map<Key, TraverseInfo>, ghost hits: seq<Hit>)
    returns (res: map<Key, TraverseInfo>)
    requires Tallies(res0, hits)
    ensures Tallies(res, hits + Hits(getOp, Values(group)))
  {
    var last: ContainerOp? := null;
    res := res0;
    ghost var es, seen := Values(group), [];
    assert hits + [] == hits;
    for i := 0 to |group|
      invariant if i == 0 then last == null else last == group[i - 1]
      invariant seen == Hits(getOp, es[..i]) && Tallies(res, hits + seen)
    {
      var op := group[i];
      assert es[..i + 1][..i] == es[..i];
      if last == null {
        last := op;
        continue;
      }
      if IsTraversal(getOp, last.Value(), op.Value()) {
        var h := HitOf(last.Value(), op.Value());
        res := Bump(res, h, hits + seen);
        assert (hits + seen) + [h] == hits + (seen + [h]);
        seen := seen + [h];
      }
      last := op;
    }
    assert es[..|group|] == es;
  }

  // ------------------------------------------------------------- the script

  /** The coalesced operations of the holders, group by group. */
  function CoalescedGroups(getOp: int, rows: seq<OpRow>, holders: seq<int>): (groups: seq<seq<Entry>>)
    requires forall h :: h in holders ==> OfHolder(rows, h) != []
    ensures |groups| == |holders|
    ensures forall i :: 0 <= i < |holders| ==> groups[i] == Coalesced(getOp, OfHolder(rows, holders[i]))
  {
    seq(|holders|, i requires 0 <= i < |holders| => Coalesced(getOp, OfHolder(rows, holders[i])))
  }

  /** The holders of the rows, each once. */
  ghost predicate Holders(rows: seq<OpRow>, holders: seq<int>) {
    Distinct(holders) && forall h :: h in holders <==> OfHolder(rows, h) != []
  }

  /** The first pass: every group coalesced. */
  method CoalesceAll(getOp: int, rows: seq<OpRow>, groups: map<int, seq<OpRow>>, holders: seq<int>)
    returns (out: seq<seq<ContainerOp>>)
    requires forall h :: h in holders ==> OfHolder(rows, h) != [] && h in groups && groups[h] == OfHolder(rows, h)
    ensures AreValues(out, CoalescedGroups(getOp, rows, holders))
  {
    out := [];
    for i := 0 to |holders|
      invariant |out| == i
      invariant forall j :: 0 <= j < i ==> Values(out[j]) == Coalesced(getOp, OfHolder(rows, holders[j]))
    {
      var hid := holders[i];
      assert hid in holders;
      var ops := CoalesceGroup(getOp, groups[hid]);
      out := out + [ops];
    }
  }

  ghost predicate AreValues(out: seq<seq<ContainerOp>>, es: seq<seq<Entry>>)
    reads set i, j | 0 <= i < |out| && 0 <= j < |out[i]| :: out[i][j]
  {
    |out| == |es| && forall i :: 0 <= i < |out| ==> Values(out[i]) == es[i]
  }

  /** The second pass: every group counted. */
  method CountAll(getOp: int, groups: seq<seq<ContainerOp>>, ghost es: seq<seq<Entry>>) returns (res: map<Key, TraverseInfo>)
    requires AreValues(groups, es)
    ensures Tallies(res, AllHits(getOp, es))
  {
    res := map[];
    for i := 0 to |groups|
      invariant Tallies(res, AllHits(getOp, es[..i]))
    {
      assert es[..i + 1][..i] == es[..i];
      res := CountGroup(getOp, groups[i], res, AllHits(getOp, es[..i]));
    }
    assert es[..|groups|] == es;
  }

  /** From the query's rows to the records of the report. */
  method FindTraversals(getOp: int, rows: seq<OpRow>) returns (res: map<Key, TraverseInfo>, holders: seq<int>)
    ensures Holders(rows, holders)
    ensures Tallies(res, AllHits(getOp, CoalescedGroups(getOp, rows, holders)))
  {
    var groups: map<int, seq<OpRow>>;
    groups, holders := GroupByHolder(rows);
    var out := CoalesceAll(getOp, rows, groups, holders);
    res := CountAll(getOp, out, CoalescedGroups(getOp, rows, holders));
  }
}
