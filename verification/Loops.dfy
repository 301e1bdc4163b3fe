/** What coalescing keeps: it can be undone, its output is canonical, and it accounts for every get. */
module Loops {
  import opened Coalesce

  /** One thing that happened to a holder: a get at an index from a call site, or a mutation. */
  datatype Item = Get(index: int, classname: string, line: int) | Mutation(entry: Entry)

  function ItemOf(getOp: int, r: OpRow): Item {
    if r.copid == getOp then Get(r.v1, r.classname, r.line) else Mutation(FromRow(r))
  }

  /** What is recoverable of a history: every get, and of each maximal run of mutations the last. */
  function Reduced(getOp: int, rows: seq<OpRow>): seq<Item> {
    if rows == [] then []
    else
      var k := |rows| - 1;
      Extend(Reduced(getOp, rows[..k]), ItemOf(getOp, rows[k]))
  }

  function Extend(items: seq<Item>, x: Item): seq<Item> {
    if x.Mutation? && items != [] && items[|items| - 1].Mutation? then items[..|items| - 1] + [x] else items + [x]
  }

  // ------------------------------------------------------------ decompression

  /** An output entry read as a block: `count` gets up to index `last`, or one mutation. */
  datatype Block = Gets(last: int, count: int, classname: string, line: int) | Change(entry: Entry)

  function BlockOf(getOp: int, e: Entry): Block {
    if IsConst(getOp, e) then Gets(e.v1, e.count, e.classname, e.line) else Change(e)
  }

  function GetsUpTo(last: int, count: int, classname: string, line: int): seq<Item>
    decreases count
  {
    if count <= 0 then [] else GetsUpTo(last - 1, count - 1, classname, line) + [Get(last, classname, line)]
  }

  function ItemsOf(b: Block): seq<Item> {
    match b
    case Gets(last, count, classname, line) => GetsUpTo(last, count, classname, line)
    case Change(e) => [Mutation(e)]
  }

  function Expand(bs: seq<Block>): seq<Item> {
    if bs == [] then [] else Expand(bs[..|bs| - 1]) + ItemsOf(bs[|bs| - 1])
  }

  function Blocks(getOp: int, es: seq<Entry>): (bs: seq<Block>)
    ensures |bs| == |es|
  {
    if es == [] then [] else Blocks(getOp, es[..|es| - 1]) + [BlockOf(getOp, es[|es| - 1])]
  }

  function BlocksOf(getOp: int, p: Progress): seq<Block> { Blocks(getOp, p.out) + [BlockOf(getOp, p.last)] }

  lemma {:induction false} BlocksAppend(getOp: int, es: seq<Entry>, e: Entry)
    ensures Blocks(getOp, es + [e]) == Blocks(getOp, es) + [BlockOf(getOp, e)]
  {
    assert (es + [e])[..|es|] == es;
  }

  lemma {:induction false} ExpandAppend(bs: seq<Block>, b: Block)
    ensures Expand(bs + [b]) == Expand(bs) + ItemsOf(b)
  {
    assert (bs + [b])[..|bs|] == bs;
  }

  /** A block stands for something. */
  predicate Proper(b: Block) { b.Gets? ==> b.count >= 1 }

  /** The last entry of the pass, when it is a get or a loop. */
  lemma {:induction false} LastIsProper(getOp: int, rows: seq<OpRow>)
    requires rows != []
    ensures Proper(BlockOf(getOp, After(getOp, rows).last))
  {
    if |rows| > 1 { LastIsProper(getOp, rows[..|rows| - 1]); }
  }

  lemma {:induction false} SingleItems(getOp: int, r: OpRow)
    ensures ItemsOf(BlockOf(getOp, FromRow(r))) == [ItemOf(getOp, r)]
  {
    assert GetsUpTo(r.v1 - 1, 0, r.classname, r.line) == [];
  }

  /** One more get at the end of a block. */
  lemma {:induction false} GetsGrow(head: seq<Block>, b: Block)
    requires b.Gets? && Proper(b)
    ensures var grown := b.(last := b.last + 1, count := b.count + 1);
            Expand(head + [grown]) == Expand(head + [b]) + [Get(b.last + 1, b.classname, b.line)]
  {
    ExpandAppend(head, b);
    ExpandAppend(head, b.(last := b.last + 1, count := b.count + 1));
  }

  lemma {:induction false} ChangeReplaced(head: seq<Block>, e: Entry, e': Entry)
    ensures Expand(head + [Change(e')]) == Extend(Expand(head + [Change(e)]), Mutation(e'))
  {
    ExpandAppend(head, Change(e));
    ExpandAppend(head, Change(e'));
  }

  /** A proper block ends with a get or with its mutation. */
  lemma {:induction false} LastItem(head: seq<Block>, b: Block)
    requires Proper(b)
    ensures var items := Expand(head + [b]);
            items != [] && items[|items| - 1] ==
              match b case Gets(last, _, c, l) => Get(last, c, l) case Change(e) => Mutation(e)
  {
    ExpandAppend(head, b);
  }

  /** A step of the pass, on blocks. */
  function NextBlocks(head: seq<Block>, last: Block, b: Block): seq<Block> {
    if last.Gets? && b.Gets? && last.last + 1 == b.last && last.classname == b.classname && last.line == b.line then
      head + [last.(last := b.last, count := last.count + 1)]
    else if last.Gets? || b.Gets? then (head + [last]) + [b]
    else head + [b]
  }

  lemma {:induction false} AdvanceOnBlocks(getOp: int, p: Progress, r: OpRow)
    ensures BlocksOf(getOp, Advance(getOp, p, FromRow(r))) ==
            NextBlocks(Blocks(getOp, p.out), BlockOf(getOp, p.last), BlockOf(getOp, FromRow(r)))
  {
    BlocksAppend(getOp, p.out, p.last);
  }

  /** One step of the pass adds what the new row did. */
  lemma {:induction false} AdvanceExpands(getOp: int, head: seq<Block>, last: Block, r: OpRow)
    requires Proper(last)
    ensures Expand(NextBlocks(head, last, BlockOf(getOp, FromRow(r)))) == Extend(Expand(head + [last]), ItemOf(getOp, r))
  {
    var b := BlockOf(getOp, FromRow(r));
    if last.Gets? && b.Gets? && last.last + 1 == b.last && last.classname == b.classname && last.line == b.line {
      GetsGrow(head, last);
    } else if last.Gets? || b.Gets? {
      NewBlock(getOp, head, last, r);
    } else {
      ChangeReplaced(head, last.entry, FromRow(r));
    }
  }

  lemma {:induction false} NewBlock(getOp: int, head: seq<Block>, last: Block, r: OpRow)
    requires Proper(last) && (last.Gets? || r.copid == getOp)
    ensures Expand((head + [last]) + [BlockOf(getOp, FromRow(r))]) == Extend(Expand(head + [last]), ItemOf(getOp, r))
  {
    LastItem(head, last);
    SingleItems(getOp, r);
    ExpandAppend(head + [last], BlockOf(getOp, FromRow(r)));
  }

  /**
   Decompression: expanding each entry with last index v1 and count n into gets at
   v1-n+1..v1 gives the holder's history back, with each run of mutations reduced
   to its last.
   */
  lemma {:induction false} CoalescingIsInvertible(getOp: int, rows: seq<OpRow>)
    requires rows != []
    ensures Expand(Blocks(getOp, Coalesced(getOp, rows))) == Reduced(getOp, rows)
  {
    var k, p := |rows| - 1, After(getOp, rows);
    BlocksAppend(getOp, p.out, p.last);
    if k == 0 {
      assert rows[..0] == [];
      SingleItems(getOp, rows[0]);
      ExpandAppend([], BlockOf(getOp, p.last));
    } else {
      var before := After(getOp, rows[..k]);
      CoalescingIsInvertible(getOp, rows[..k]);
      BlocksAppend(getOp, before.out, before.last);
      LastIsProper(getOp, rows[..k]);
      AdvanceOnBlocks(getOp, before, rows[k]);
      AdvanceExpands(getOp, Blocks(getOp, before.out), BlockOf(getOp, before.last), rows[k]);
    }
  }

  // --------------------------------------------------------------- canonicity

  /** Two neighbours that a better pass would have made one. */
  predicate Mergeable(x: Block, y: Block) {
    match (x, y)
    case (Gets(last, _, c, l), Gets(last', count', c', l')) => last + 1 == last' - count' + 1 && c == c' && l == l'
    case (Change(_), Change(_)) => true
    case _ => false
  }

  ghost predicate Canonical(bs: seq<Block>) {
    && (forall i :: 0 <= i < |bs| ==> Proper(bs[i]))
    && (forall i :: 0 < i < |bs| ==> !Mergeable(bs[i - 1], bs[i]))
  }

  lemma {:induction false} AdvanceKeepsCanonical(getOp: int, p: Progress, r: OpRow)
    requires Canonical(BlocksOf(getOp, p))
    ensures Canonical(BlocksOf(getOp, Advance(getOp, p, FromRow(r))))
  {
    var q, n := Advance(getOp, p, FromRow(r)), |p.out|;
    var bs, cs := BlocksOf(getOp, p), BlocksOf(getOp, q);
    BlocksAppend(getOp, p.out, p.last);
    assert bs[n] == BlockOf(getOp, p.last);
    if |q.out| == n {
      assert cs == bs[..n] + [BlockOf(getOp, q.last)];
      assert n > 0 ==> !Mergeable(bs[n - 1], bs[n]);
    } else {
      assert cs == bs + [BlockOf(getOp, q.last)];
    }
  }

  /** No two neighbouring gets could be merged, and no two neighbours are both mutations. */
  lemma {:induction false} CoalescedIsCanonical(getOp: int, rows: seq<OpRow>)
    requires rows != []
    ensures Canonical(Blocks(getOp, Coalesced(getOp, rows)))
  {
    var k, p := |rows| - 1, After(getOp, rows);
    BlocksAppend(getOp, p.out, p.last);
    if k > 0 {
      var before := After(getOp, rows[..k]);
      CoalescedIsCanonical(getOp, rows[..k]);
      BlocksAppend(getOp, before.out, before.last);
      AdvanceKeepsCanonical(getOp, before, rows[k]);
    }
  }

  // --------------------------------------------------------------- uniqueness

  /** Where a block's gets begin. */
  function FirstItem(b: Block): Item {
    match b case Gets(last, count, c, l) => Get(last - count + 1, c, l) case Change(e) => Mutation(e)
  }

  lemma {:induction false} GetsAt(last: int, count: int, c: string, l: int, n: nat)
    requires n < count
    ensures |GetsUpTo(last, count, c, l)| == count
    ensures GetsUpTo(last, count, c, l)[n] == Get(last - count + 1 + n, c, l)
    decreases count
  {
    if count == 1 {
      assert GetsUpTo(last - 1, 0, c, l) == [];
    } else {
      GetsAt(last - 1, count - 1, c, l, if n < count - 1 then n else 0);
    }
  }

  lemma {:induction false} ExpandFirst(bs: seq<Block>)
    requires bs != []
    ensures Expand(bs) == ItemsOf(bs[0]) + Expand(bs[1..])
  {
    var k := |bs| - 1;
    if k == 0 {
      assert Expand(bs[..0]) == [] && Expand(bs[1..]) == [];
    } else {
      var mid := bs[1..][..k - 1];
      ExpandFirst(bs[..k]);
      assert bs[..k][1..] == mid && bs[..k][0] == bs[0] && bs[1..][k - 1] == bs[k];
      assert Expand(bs[1..]) == Expand(mid) + ItemsOf(bs[k]);
      assert (ItemsOf(bs[0]) + Expand(mid)) + ItemsOf(bs[k]) == ItemsOf(bs[0]) + (Expand(mid) + ItemsOf(bs[k]));
    }
  }

  lemma {:induction false} BlockStarts(bs: seq<Block>)
    requires bs != [] && Proper(bs[0])
    ensures Expand(bs) != [] && Expand(bs)[0] == FirstItem(bs[0])
    ensures bs[0].Gets? ==> |ItemsOf(bs[0])| == bs[0].count
  {
    ExpandFirst(bs);
    if bs[0].Gets? { GetsAt(bs[0].last, bs[0].count, bs[0].classname, bs[0].line, 0); }
  }

  /** A canonical list whose first gets run shorter than another's does not expand alike. */
  lemma {:induction false} ShorterDiffers(xs: seq<Block>, ys: seq<Block>)
    requires Canonical(xs) && Canonical(ys) && xs != [] && ys != []
    requires xs[0].Gets? && ys[0].Gets? && FirstItem(xs[0]) == FirstItem(ys[0]) && xs[0].count < ys[0].count
    ensures Expand(xs) != Expand(ys)
  {
    var x, y := xs[0], ys[0];
    ExpandFirst(xs);
    ExpandFirst(ys);
    BlockStarts(xs);
    BlockStarts(ys);
    GetsAt(y.last, y.count, y.classname, y.line, x.count);
    assert Expand(ys)[x.count] == Get(x.last + 1, x.classname, x.line);
    if |xs| == 1 {
      assert Expand(xs[1..]) == [];
    } else {
      assert xs[1..][0] == xs[1] && Proper(xs[1]) && !Mergeable(xs[0], xs[1]);
      BlockStarts(xs[1..]);
      assert |Expand(xs)| > x.count && Expand(xs)[x.count] == FirstItem(xs[1]);
    }
  }

  /** Canonical lists with the same expansion are the same: index ranges, counts, positions and mutations. */
  lemma {:induction false} CanonicalIsUnique(xs: seq<Block>, ys: seq<Block>)
    requires Canonical(xs) && Canonical(ys) && Expand(xs) == Expand(ys)
    ensures xs == ys
  {
    if xs == [] || ys == [] {
      if xs != [] { BlockStarts(xs); }
      if ys != [] { BlockStarts(ys); }
    } else {
      BlockStarts(xs);
      BlockStarts(ys);
      FirstBlocksAgree(xs, ys);
      ExpandFirst(xs);
      ExpandFirst(ys);
      SameTails(ItemsOf(xs[0]), Expand(xs[1..]), Expand(ys[1..]));
      TailCanonical(xs);
      TailCanonical(ys);
      CanonicalIsUnique(xs[1..], ys[1..]);
      assert xs == [xs[0]] + xs[1..] && ys == [ys[0]] + ys[1..];
    }
  }

  lemma {:induction false} FirstBlocksAgree(xs: seq<Block>, ys: seq<Block>)
    requires Canonical(xs) && Canonical(ys) && xs != [] && ys != [] && Expand(xs) == Expand(ys)
    requires FirstItem(xs[0]) == FirstItem(ys[0])
    ensures xs[0] == ys[0]
  {
    if xs[0].Gets? && xs[0].count < ys[0].count { ShorterDiffers(xs, ys); }
    if xs[0].Gets? && ys[0].count < xs[0].count { ShorterDiffers(ys, xs); }
  }

  lemma {:induction false} SameTails(a: seq<Item>, x: seq<Item>, y: seq<Item>)
    requires a + x == a + y
    ensures x == y
  {
    assert (a + x)[|a|..] == x && (a + y)[|a|..] == y;
  }

  lemma {:induction false} TailCanonical(bs: seq<Block>)
    requires bs != [] && Canonical(bs)
    ensures Canonical(bs[1..])
  {
    forall i | 0 < i < |bs[1..]| ensures !Mergeable(bs[1..][i - 1], bs[1..][i]) {
      assert !Mergeable(bs[i], bs[i + 1]);
    }
  }

  /** So the pass computes the one canonical compression of the history. */
  lemma {:induction false} CoalescedIsTheCompression(getOp: int, rows: seq<OpRow>, bs: seq<Block>)
    requires rows != [] && Canonical(bs) && Expand(bs) == Reduced(getOp, rows)
    ensures bs == Blocks(getOp, Coalesced(getOp, rows))
  {
    CoalescingIsInvertible(getOp, rows);
    CoalescedIsCanonical(getOp, rows);
    CanonicalIsUnique(bs, Blocks(getOp, Coalesced(getOp, rows)));
  }
}
