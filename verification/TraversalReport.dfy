/** What the records of the traversal report mean, and that no get is counted twice. */
module TraversalReport {
  import opened Coalesce
  import opened Loops
  import opened Stretch
  import opened Traversal
  import opened Sequences

  // ---------------------------------------------------------- what a hit is

  /** A hit comes from two neighbouring entries. */
  lemma {:induction false} HitPlace(getOp: int, es: seq<Entry>, n: nat) returns (k: nat)
    requires n < |Hits(getOp, es)|
    ensures 0 < k < |es| && IsTraversal(getOp, es[k - 1], es[k])
    ensures Hits(getOp, es)[n] == HitOf(es[k - 1], es[k])
  {
    var z := |es| - 1;
    if n < |Hits(getOp, es[..z])| {
      k := HitPlace(getOp, es[..z], n);
    } else {
      k := z;
    }
  }

  /** A get, or a loop of gets, that stands for more than five. */
  predicate LongGets(getOp: int, e: Entry) { (e.copid == -2 || e.copid == getOp) && e.count > 5 }

  /** Where both an entry and the one before it are such. */
  function LongPairs(getOp: int, es: seq<Entry>): (marks: seq<bool>)
    ensures |marks| == |es|
    ensures forall k {:trigger marks[k]} :: 0 <= k < |es| ==> marks[k] == (k > 0 && LongGets(getOp, es[k - 1]) && LongGets(getOp, es[k]))
  {
    seq(|es|, k requires 0 <= k < |es| => k > 0 && LongGets(getOp, es[k - 1]) && LongGets(getOp, es[k]))
  }

  /** Hit `h` carries the call sites and counts of the two entries. */
  predicate HitFor(h: Hit, x: Entry, y: Entry) {
    && h.key.first.classname == x.classname && h.key.first.line == x.line && h.prev == x.count
    && h.key.second.classname == y.classname && h.key.second.line == y.line && h.next == y.count
  }

  ghost predicate HitsFor(hits: seq<Hit>, es: seq<Entry>, ks: seq<nat>) {
    |hits| == |ks| && forall n {:trigger hits[n]} :: 0 <= n < |ks| ==> 0 < ks[n] < |es| && HitFor(hits[n], es[ks[n] - 1], es[ks[n]])
  }

  lemma {:induction false} HitsForLonger(hits: seq<Hit>, es: seq<Entry>, ks: seq<nat>, e: Entry)
    requires HitsFor(hits, es, ks)
    ensures HitsFor(hits, es + [e], ks)
    ensures es != [] ==>
              var x := es[|es| - 1];
              HitsFor(hits + [HitOf(x, e)], es + [e], ks + [|es|])
  {
    forall n | 0 <= n < |ks| ensures 0 < ks[n] < |es + [e]| && HitFor(hits[n], (es + [e])[ks[n] - 1], (es + [e])[ks[n]]) {
      assert HitFor(hits[n], es[ks[n] - 1], es[ks[n]]);
    }
    if es != [] {
      var more, qs := hits + [HitOf(es[|es| - 1], e)], ks + [|es|];
      assert forall n :: 0 <= n < |ks| ==> more[n] == hits[n] && qs[n] == ks[n];
    }
  }

  lemma {:induction false} LongPairsLonger(getOp: int, es: seq<Entry>, e: Entry)
    requires es != []
    ensures LongPairs(getOp, es + [e]) ==
            LongPairs(getOp, es) + [LongGets(getOp, es[|es| - 1]) && LongGets(getOp, e)]
  {
  }

  /** The hits are all neighbours of more than five gets each, in order, with their own call sites and counts. */
  lemma {:induction false} HitsExactly(getOp: int, es: seq<Entry>) returns (ks: seq<nat>)
    ensures Marked(LongPairs(getOp, es), ks) && HitsFor(Hits(getOp, es), es, ks)
  {
    if |es| < 2 {
      ks := [];
    } else {
      var z := |es| - 1;
      var front, e := es[..z], es[z];
      var now := LongGets(getOp, es[z - 1]) && LongGets(getOp, e);
      ks := HitsExactly(getOp, front);
      MarkedLast(LongPairs(getOp, front), ks, now);
      LongPairsLonger(getOp, front, e);
      HitsForLonger(Hits(getOp, front), front, ks, e);
      assert es == front + [e];
      if now {
        ks := ks + [z];
        assert Hits(getOp, es) == Hits(getOp, front) + [HitOf(es[z - 1], e)];
      } else {
        assert Hits(getOp, es) == Hits(getOp, front);
      }
    }
  }

  /** All groups' hits, one group after the other. */
  lemma {:induction false} AllHitsAreAll(getOp: int, groups: seq<seq<Entry>>)
    ensures AllHits(getOp, groups) == Concat(seq(|groups|, i requires 0 <= i < |groups| => Hits(getOp, groups[i])))
  {
    if groups != [] {
      var k := |groups| - 1;
      var each := seq(|groups|, i requires 0 <= i < |groups| => Hits(getOp, groups[i]));
      AllHitsAreAll(getOp, groups[..k]);
      assert each[..k] == seq(k, i requires 0 <= i < k => Hits(getOp, groups[..k][i]));
    }
  }

  lemma {:induction false} BlockAt(getOp: int, es: seq<Entry>, k: nat)
    requires k < |es|
    ensures Blocks(getOp, es)[k] == BlockOf(getOp, es[k])
  {
    if k < |es| - 1 { BlockAt(getOp, es[..|es| - 1], k); }
  }

  lemma {:induction false} TwoParts(parts: seq<seq<OpRow>>, k: nat)
    requires 0 < k < |parts|
    ensures Concat(parts) == Concat(parts[..k - 1]) + parts[k - 1] + parts[k] + Concat(parts[k + 1..])
  {
    ConcatSplit(parts[..k + 1], parts[k + 1..]);
    assert parts == parts[..k + 1] + parts[k + 1..];
    assert parts[..k + 1][..k] == parts[..k] && parts[..k][..k - 1] == parts[..k - 1];
  }

  /** Gets only, at consecutive indices up to `last`, all from one call site. */
  ghost predicate IsPass(getOp: int, rows: seq<OpRow>, site: Site, last: int) {
    forall i :: 0 <= i < |rows| ==> ItemOf(getOp, rows[i]) == Get(last - |rows| + 1 + i, site.classname, site.line)
  }

  /**
   Every counted pair is two passes of more than five gets each, directly one after
   the other on the same holder: no recorded operation lies between them.
   */
  lemma {:induction false} HitsAreBackToBackPasses(getOp: int, rows: seq<OpRow>, n: nat)
    returns (before: seq<OpRow>, first: seq<OpRow>, second: seq<OpRow>, after: seq<OpRow>, last: int, last': int)
    requires rows != [] && n < |Hits(getOp, Coalesced(getOp, rows))|
    ensures rows == before + first + second + after
    ensures var h := Hits(getOp, Coalesced(getOp, rows))[n];
            && h.prev == |first| > 5 && IsPass(getOp, first, h.key.first, last)
            && h.next == |second| > 5 && IsPass(getOp, second, h.key.second, last')
  {
    var es := Coalesced(getOp, rows);
    var parts := EntriesAreStretches(getOp, rows);
    var k := HitPlace(getOp, es, n);
    TwoParts(parts, k);
    before, first, second, after := Concat(parts[..k - 1]), parts[k - 1], parts[k], Concat(parts[k + 1..]);
    last, last' := es[k - 1].v1, es[k].v1;
    LoopIsPass(getOp, first, es[k - 1]);
    LoopIsPass(getOp, second, es[k]);
  }

  lemma {:induction false} LoopIsPass(getOp: int, part: seq<OpRow>, e: Entry)
    requires StandsFor(getOp, part, e) && e.count > 1
    ensures |part| == e.count && IsPass(getOp, part, Pos(e), e.v1)
  {
    assert LoopFor(getOp, part, e);
    assert part[|part| - 1].v1 == part[0].v1 + |part| - 1;
  }

  /** The hit that the last block of a list makes with the one before it, if any. */
  function LastHit(bs: seq<Block>): (more: seq<Hit>)
    requires |bs| >= 2
    ensures var x, y := bs[|bs| - 2], bs[|bs| - 1];
            && |more| <= 1
            && (more != [] ==> x.Gets? && y.Gets? && more[0].prev == x.count && more[0].next == y.count)
  {
    var x, y := bs[|bs| - 2], bs[|bs| - 1];
    if x.Gets? && y.Gets? && x.count > 5 && y.count > 5 then
      [Hit(Key(Site(x.classname, x.line), Site(y.classname, y.line)), x.count, y.count)]
    else []
  }

  /** The neighbouring blocks of more than five gets each. */
  function BlockHits(bs: seq<Block>): seq<Hit> {
    if |bs| < 2 then [] else BlockHits(bs[..|bs| - 1]) + LastHit(bs)
  }

  lemma {:induction false} HitsOnBlocks(getOp: int, es: seq<Entry>)
    ensures Hits(getOp, es) == BlockHits(Blocks(getOp, es))
  {
    if |es| >= 2 {
      var k := |es| - 1;
      HitsOnBlocks(getOp, es[..k]);
      BlockAt(getOp, es, k - 1);
      assert Blocks(getOp, es)[..k] == Blocks(getOp, es[..k]);
    }
  }

  /** None is missed either: whatever canonical blocks describe the history, their long neighbours are the hits. */
  lemma {:induction false} HitsAreOfTheHistory(getOp: int, rows: seq<OpRow>, bs: seq<Block>)
    requires rows != [] && Canonical(bs) && Expand(bs) == Reduced(getOp, rows)
    ensures Hits(getOp, Coalesced(getOp, rows)) == BlockHits(bs)
  {
    CoalescedIsTheCompression(getOp, rows, bs);
    HitsOnBlocks(getOp, Coalesced(getOp, rows));
  }

  // ---------------------------------------------------------- sums over keys

  function Sum<K>(keys: seq<K>, f: K -> int): int {
    if keys == [] then 0 else Sum(keys[..|keys| - 1], f) + f(keys[|keys| - 1])
  }

  /** Raising one key's share raises the sum, if that key is summed at all. */
  lemma {:induction false} SumRaised<K>(keys: seq<K>, f: K -> int, g: K -> int, k0: K, d: int)
    requires Distinct(keys)
    requires forall k :: k in keys ==> g(k) == f(k) + if k == k0 then d else 0
    ensures Sum(keys, g) == Sum(keys, f) + if k0 in keys then d else 0
  {
    if keys != [] {
      var z := |keys| - 1;
      SumRaised(keys[..z], f, g, k0, d);
      assert keys[z] in keys;
      assert keys == keys[..z] + [keys[z]];
      assert k0 == keys[z] ==> k0 !in keys[..z];
    }
  }

  lemma {:induction false} SumZero<K>(keys: seq<K>, f: K -> int)
    requires forall k :: k in keys ==> f(k) == 0
    ensures Sum(keys, f) == 0
  {
    if keys != [] {
      SumZero(keys[..|keys| - 1], f);
      assert keys[|keys| - 1] in keys;
    }
  }

  function PrevTotal(hits: seq<Hit>): int {
    if hits == [] then 0 else PrevTotal(hits[..|hits| - 1]) + hits[|hits| - 1].prev
  }

  function NextTotal(hits: seq<Hit>): int {
    if hits == [] then 0 else NextTotal(hits[..|hits| - 1]) + hits[|hits| - 1].next
  }

  function IsUnder(key: Key, hits: seq<Hit>): (marks: seq<bool>)
    ensures |marks| == |hits|
    ensures forall p {:trigger marks[p]} :: 0 <= p < |hits| ==> marks[p] == (hits[p].key == key)
  {
    seq(|hits|, p requires 0 <= p < |hits| => hits[p].key == key)
  }

  ghost predicate Sums(key: Key, hits: seq<Hit>, ps: seq<nat>, picked: seq<Hit>) {
    && Marked(IsUnder(key, hits), ps) && ReadsOff(hits, ps, picked)
    && Tally(key, hits) == TraverseInfo(PrevTotal(picked), NextTotal(picked), |picked|)
  }

  lemma {:induction false} SumsLast(key: Key, hits: seq<Hit>, ps: seq<nat>, picked: seq<Hit>, h: Hit)
    requires Sums(key, hits, ps, picked)
    ensures if h.key == key then Sums(key, hits + [h], ps + [|hits|], picked + [h]) else Sums(key, hits + [h], ps, picked)
  {
    MarkedLast(IsUnder(key, hits), ps, h.key == key);
    assert IsUnder(key, hits + [h]) == IsUnder(key, hits) + [h.key == key];
    ReadsOffLast(hits, ps, picked, h);
    TallyLast(key, hits, h);
    assert (picked + [h])[..|picked|] == picked;
  }

  /** A record sums up its key's hits, each once: their first counts, their second counts, and how many they are. */
  lemma {:induction false} TallySumsItsHits(key: Key, hits: seq<Hit>) returns (ps: seq<nat>, picked: seq<Hit>)
    ensures Sums(key, hits, ps, picked)
  {
    if hits == [] {
      ps, picked := [], [];
    } else {
      var z := |hits| - 1;
      ps, picked := TallySumsItsHits(key, hits[..z]);
      SumsLast(key, hits[..z], ps, picked, hits[z]);
      assert hits == hits[..z] + [hits[z]];
      if hits[z].key == key { ps, picked := ps + [z], picked + [hits[z]]; }
    }
  }

  ghost predicate Long(hits: seq<Hit>) { forall i :: 0 <= i < |hits| ==> hits[i].prev > 5 && hits[i].next > 5 }

  lemma {:induction false} HitsAreLong(getOp: int, es: seq<Entry>)
    ensures Long(Hits(getOp, es))
  {
    forall n | 0 <= n < |Hits(getOp, es)| ensures Hits(getOp, es)[n].prev > 5 && Hits(getOp, es)[n].next > 5 {
      var k := HitPlace(getOp, es, n);
    }
  }

  lemma {:induction false} AllHitsAreLong(getOp: int, groups: seq<seq<Entry>>)
    ensures Long(AllHits(getOp, groups))
  {
    if groups != [] {
      AllHitsAreLong(getOp, groups[..|groups| - 1]);
      HitsAreLong(getOp, groups[|groups| - 1]);
    }
  }

  /** Every record's counts are at least six times its loop count. */
  lemma {:induction false} TallyAtLeastSixfold(key: Key, hits: seq<Hit>)
    requires Long(hits)
    ensures var t := Tally(key, hits); t.prevCount >= 6 * t.loopCount >= 0 && t.nextCount >= 6 * t.loopCount
    ensures Counted(key, hits) ==> Tally(key, hits).loopCount >= 1
  {
    if hits != [] {
      var z := |hits| - 1;
      assert forall i :: 0 <= i < z ==> hits[..z][i] == hits[i];
      TallyAtLeastSixfold(key, hits[..z]);
      if Counted(key, hits) && hits[z].key != key {
        var i :| 0 <= i < |hits| && hits[i].key == key;
        assert hits[..z][i].key == key;
      }
    }
  }

  /** Summed over any keys, the records hold no more than the hits; over all of them, exactly that. */
  lemma {:induction false} KeysShareTheHits(keys: seq<Key>, hits: seq<Hit>)
    requires Distinct(keys) && Long(hits)
    ensures Sum(keys, k => Tally(k, hits).prevCount) <= PrevTotal(hits)
    ensures Sum(keys, k => Tally(k, hits).nextCount) <= NextTotal(hits)
    ensures (forall i :: 0 <= i < |hits| ==> hits[i].key in keys) ==>
              Sum(keys, k => Tally(k, hits).prevCount) == PrevTotal(hits)
              && Sum(keys, k => Tally(k, hits).nextCount) == NextTotal(hits)
  {
    var prev, next := k => Tally(k, hits).prevCount, k => Tally(k, hits).nextCount;
    if hits == [] {
      SumZero(keys, prev);
      SumZero(keys, next);
    } else {
      var z := |hits| - 1;
      var h, front := hits[z], hits[..z];
      assert forall i :: 0 <= i < z ==> front[i] == hits[i];
      KeysShareTheHits(keys, front);
      SumRaised(keys, k => Tally(k, front).prevCount, prev, h.key, h.prev);
      SumRaised(keys, k => Tally(k, front).nextCount, next, h.key, h.next);
    }
  }

  // ------------------------------------------------------------ conservation

  lemma {:induction false} TotalsAppend(xs: seq<Hit>, ys: seq<Hit>)
    ensures PrevTotal(xs + ys) == PrevTotal(xs) + PrevTotal(ys)
    ensures NextTotal(xs + ys) == NextTotal(xs) + NextTotal(ys)
  {
    if ys == [] {
      assert xs + ys == xs;
    } else {
      var z := |ys| - 1;
      TotalsAppend(xs, ys[..z]);
      assert (xs + ys)[..|xs| + z] == xs + ys[..z];
    }
  }

  /** An entry is the earlier half of at most one hit, and the later half of at most one. */
  lemma {:induction false} EntriesHitOnce(bs: seq<Block>)
    requires bs != [] && forall i :: 0 <= i < |bs| ==> Proper(bs[i])
    ensures PrevTotal(BlockHits(bs)) + CountOf(bs[|bs| - 1]) <= SumCounts(bs)
    ensures NextTotal(BlockHits(bs)) <= SumCounts(bs)
  {
    var z := |bs| - 1;
    SumLast(bs[..z], bs[z]);
    assert bs == bs[..z] + [bs[z]];
    if z == 0 {
      assert SumCounts(bs[..0]) == 0;
    } else {
      assert forall i :: 0 <= i < z ==> bs[..z][i] == bs[i];
      EntriesHitOnce(bs[..z]);
      LastHitShare(BlockHits(bs[..z]), bs);
    }
  }

  lemma {:induction false} LastHitShare(hits: seq<Hit>, bs: seq<Block>)
    requires |bs| >= 2 && Proper(bs[|bs| - 2]) && Proper(bs[|bs| - 1])
    ensures PrevTotal(hits + LastHit(bs)) <= PrevTotal(hits) + CountOf(bs[|bs| - 2])
    ensures NextTotal(hits + LastHit(bs)) <= NextTotal(hits) + CountOf(bs[|bs| - 1])
  {
    TotalsAppend(hits, LastHit(bs));
    OneOrNone(LastHit(bs));
  }

  lemma {:induction false} OneOrNone(hits: seq<Hit>)
    requires |hits| <= 1
    ensures PrevTotal(hits) == if hits == [] then 0 else hits[0].prev
    ensures NextTotal(hits) == if hits == [] then 0 else hits[0].next
  {
    if hits != [] { assert hits[..0] == []; }
  }

  /** On one holder, each side of the hits stays within the gets. */
  lemma {:induction false} HolderConserves(getOp: int, rows: seq<OpRow>)
    requires rows != []
    ensures PrevTotal(Hits(getOp, Coalesced(getOp, rows))) <= GetsIn(getOp, rows)
    ensures NextTotal(Hits(getOp, Coalesced(getOp, rows))) <= GetsIn(getOp, rows)
  {
    var bs := Blocks(getOp, Coalesced(getOp, rows));
    CoalescedIsCanonical(getOp, rows);
    EntriesHitOnce(bs);
    CountsAreGets(getOp, rows);
    HitsOnBlocks(getOp, Coalesced(getOp, rows));
    assert Proper(bs[|bs| - 1]);
  }

  lemma {:induction false} GetsAppend(getOp: int, rows: seq<OpRow>, r: OpRow)
    ensures GetsIn(getOp, rows + [r]) == GetsIn(getOp, rows) + if r.copid == getOp then 1 else 0
  {
    assert (rows + [r])[..|rows|] == rows;
  }

  /** Grouping neither loses nor repeats a get. */
  lemma {:induction false} GroupsShareTheGets(getOp: int, rows: seq<OpRow>, holders: seq<int>)
    requires Distinct(holders)
    ensures Sum(holders, h => GetsIn(getOp, OfHolder(rows, h))) <= GetsIn(getOp, rows)
    ensures (forall i :: 0 <= i < |rows| ==> rows[i].hid in holders) ==>
              Sum(holders, h => GetsIn(getOp, OfHolder(rows, h))) == GetsIn(getOp, rows)
  {
    var now := h => GetsIn(getOp, OfHolder(rows, h));
    if rows == [] {
      SumZero(holders, now);
    } else {
      var z := |rows| - 1;
      var r, front := rows[z], rows[..z];
      assert forall i :: 0 <= i < z ==> front[i] == rows[i];
      GroupsShareTheGets(getOp, front, holders);
      forall h | h in holders
        ensures now(h) == GetsIn(getOp, OfHolder(front, h)) + if h == r.hid then (if r.copid == getOp then 1 else 0) else 0
      {
        if h == r.hid {
          GetsAppend(getOp, OfHolder(front, h), r);
        } else {
          assert OfHolder(rows, h) == OfHolder(front, h);
        }
      }
      SumRaised(holders, h => GetsIn(getOp, OfHolder(front, h)), now, r.hid, if r.copid == getOp then 1 else 0);
    }
  }

  lemma {:induction false} GroupsConserve(getOp: int, rows: seq<OpRow>, holders: seq<int>)
    requires forall h :: h in holders ==> OfHolder(rows, h) != []
    ensures var hits := AllHits(getOp, CoalescedGroups(getOp, rows, holders));
            && PrevTotal(hits) <= Sum(holders, h => GetsIn(getOp, OfHolder(rows, h)))
            && NextTotal(hits) <= Sum(holders, h => GetsIn(getOp, OfHolder(rows, h)))
  {
    if holders != [] {
      var z := |holders| - 1;
      var groups := CoalescedGroups(getOp, rows, holders);
      assert holders[z] in holders;
      GroupsConserve(getOp, rows, holders[..z]);
      assert groups[..z] == CoalescedGroups(getOp, rows, holders[..z]);
      HolderConserves(getOp, OfHolder(rows, holders[z]));
      TotalsAppend(AllHits(getOp, groups[..z]), Hits(getOp, groups[z]));
    }
  }

  /**
   Conservation: over any keys, so also over the whole report or the part it shows,
   the first counts add up to no more than the gets recorded, and so do the second.
   */
  lemma {:induction false} ReportConservesGets(getOp: int, rows: seq<OpRow>, holders: seq<int>, keys: seq<Key>)
    requires Holders(rows, holders) && Distinct(keys)
    ensures var hits := AllHits(getOp, CoalescedGroups(getOp, rows, holders));
            && Sum(keys, k => Tally(k, hits).prevCount) <= GetsIn(getOp, rows)
            && Sum(keys, k => Tally(k, hits).nextCount) <= GetsIn(getOp, rows)
  {
    var groups := CoalescedGroups(getOp, rows, holders);
    AllHitsAreLong(getOp, groups);
    KeysShareTheHits(keys, AllHits(getOp, groups));
    GroupsConserve(getOp, rows, holders);
    GroupsShareTheGets(getOp, rows, holders);
  }

  /** For each key of the report, both counts are at least six times its loop count. */
  lemma {:induction false} ReportCountsLongLoops(
    getOp: int, rows: seq<OpRow>, holders: seq<int>, res: map<Key, TraverseInfo>, key: Key)
    requires Holders(rows, holders) && Tallies(res, AllHits(getOp, CoalescedGroups(getOp, rows, holders))) && key in res
    ensures res[key].loopCount >= 1
    ensures res[key].prevCount >= 6 * res[key].loopCount && res[key].nextCount >= 6 * res[key].loopCount
  {
    var hits := AllHits(getOp, CoalescedGroups(getOp, rows, holders));
    AllHitsAreLong(getOp, CoalescedGroups(getOp, rows, holders));
    TallyAtLeastSixfold(key, hits);
    assert Counted(key, hits) && res[key] == Tally(key, hits);
  }
}
