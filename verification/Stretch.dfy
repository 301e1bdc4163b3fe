/** What a coalesced entry stands for: one stretch of the holder's rows, and every get exactly once. */
module Stretch {
  import opened Coalesce
  import opened Loops
  import opened Sequences

  // --------------------------------------------- what an entry stands for

  /** All eight columns of the row, once. */
  predicate SameFields(r: OpRow, e: Entry) {
    && e.hid == r.hid && e.cid == r.cid && e.copid == r.copid && e.size == r.size
    && e.v1 == r.v1 && e.v2 == r.v2 && e.classname == r.classname && e.line == r.line && e.count == 1
  }

  /** Gets from one call site, at consecutive indices. */
  ghost predicate Run(getOp: int, part: seq<OpRow>) {
    forall i {:trigger part[i]} :: 0 <= i < |part| ==>
      && part[i].copid == getOp && part[i].v1 == part[0].v1 + i
      && part[i].classname == part[0].classname && part[i].line == part[0].line
  }

  /** Two or more gets: a loop entry, marked -2, up to the last get's index, otherwise with the first get's columns. */
  ghost predicate LoopFor(getOp: int, part: seq<OpRow>, e: Entry) {
    && |part| >= 2 && Run(getOp, part)
    && e.copid == -2 && e.count == |part| && e.v1 == part[|part| - 1].v1
    && e.hid == part[0].hid && e.cid == part[0].cid && e.size == part[0].size && e.v2 == part[0].v2
    && e.classname == part[0].classname && e.line == part[0].line
  }

  ghost predicate Mutations(getOp: int, part: seq<OpRow>) {
    part != [] && forall i {:trigger part[i]} :: 0 <= i < |part| ==> part[i].copid != getOp
  }

  /** The rows behind an entry: a run of gets, one get, or mutations of which it is the last. */
  ghost predicate StandsFor(getOp: int, part: seq<OpRow>, e: Entry) {
    || LoopFor(getOp, part, e)
    || (|part| == 1 && part[0].copid == getOp && SameFields(part[0], e))
    || (Mutations(getOp, part) && SameFields(part[|part| - 1], e))
  }

  /** The rows, cut into one consecutive stretch per entry. */
  ghost predicate Stretches(getOp: int, rows: seq<OpRow>, es: seq<Entry>, parts: seq<seq<OpRow>>) {
    && |parts| == |es| && Concat(parts) == rows
    && forall i :: 0 <= i < |es| ==> StandsFor(getOp, parts[i], es[i])
  }

  lemma {:induction false} GetJoins(getOp: int, part: seq<OpRow>, last: Entry, r: OpRow)
    requires StandsFor(getOp, part, last) && IsConst(getOp, last) && IsPrevGet(getOp, last, FromRow(r))
    ensures StandsFor(getOp, part + [r], Absorb(last, FromRow(r)))
  {
    var more := part + [r];
    assert part != [] && more[0] == part[0] && more[|more| - 1] == r;
    assert part[0].copid == getOp;
    assert LoopFor(getOp, more, Absorb(last, FromRow(r)));
  }

  lemma {:induction false} MutationReplaces(getOp: int, part: seq<OpRow>, last: Entry, r: OpRow)
    requires StandsFor(getOp, part, last) && !IsConst(getOp, last) && r.copid != getOp
    ensures StandsFor(getOp, part + [r], FromRow(r))
  {
    var more := part + [r];
    assert Mutations(getOp, part) && more[|more| - 1] == r;
  }

  lemma {:induction false} StretchesAppend(getOp: int, rows: seq<OpRow>, es: seq<Entry>, parts: seq<seq<OpRow>>, part: seq<OpRow>, e: Entry)
    requires Stretches(getOp, rows, es, parts) && StandsFor(getOp, part, e)
    ensures Stretches(getOp, rows + part, es + [e], parts + [part])
  {
    ConcatLast(parts, part);
  }

  /** Where the pass stands: the stretches of what is emitted, and the rows the pending entry stands for. */
  ghost predicate Standing(getOp: int, rows: seq<OpRow>, p: Progress, parts: seq<seq<OpRow>>, part: seq<OpRow>) {
    Stretches(getOp, Concat(parts), p.out, parts) && StandsFor(getOp, part, p.last) && rows == Concat(parts) + part
  }

  lemma {:induction false} EntryEnds(getOp: int, rows: seq<OpRow>, p: Progress, parts: seq<seq<OpRow>>, part: seq<OpRow>, r: OpRow)
    requires Standing(getOp, rows, p, parts, part)
    ensures Standing(getOp, rows + [r], Progress(p.out + [p.last], FromRow(r)), parts + [part], [r])
  {
    StretchesAppend(getOp, Concat(parts), p.out, parts, part, p.last);
    ConcatLast(parts, part);
  }

  lemma {:induction false} StandingStep(getOp: int, rows: seq<OpRow>, p: Progress, parts: seq<seq<OpRow>>, part: seq<OpRow>, r: OpRow)
    returns (parts': seq<seq<OpRow>>, part': seq<OpRow>)
    requires Standing(getOp, rows, p, parts, part)
    ensures Standing(getOp, rows + [r], Advance(getOp, p, FromRow(r)), parts', part')
  {
    assert Concat(parts) + (part + [r]) == rows + [r];
    if IsConst(getOp, p.last) && r.copid == getOp && IsPrevGet(getOp, p.last, FromRow(r)) {
      GetJoins(getOp, part, p.last, r);
      parts', part' := parts, part + [r];
    } else if IsConst(getOp, p.last) || r.copid == getOp {
      EntryEnds(getOp, rows, p, parts, part, r);
      parts', part' := parts + [part], [r];
    } else {
      MutationReplaces(getOp, part, p.last, r);
      parts', part' := parts, part + [r];
    }
  }

  lemma {:induction false} PassStands(getOp: int, rows: seq<OpRow>) returns (parts: seq<seq<OpRow>>, part: seq<OpRow>)
    requires rows != []
    ensures Standing(getOp, rows, After(getOp, rows), parts, part)
  {
    var k := |rows| - 1;
    if k == 0 {
      parts, part := [], rows;
    } else {
      parts, part := PassStands(getOp, rows[..k]);
      parts, part := StandingStep(getOp, rows[..k], After(getOp, rows[..k]), parts, part, rows[k]);
      assert rows[..k] + [rows[k]] == rows;
    }
  }

  /**
   Every entry stands for one consecutive stretch of the group, the stretches are the
   group, and each of the entry's fields is what that stretch gives it.
   */
  lemma {:induction false} EntriesAreStretches(getOp: int, rows: seq<OpRow>) returns (parts: seq<seq<OpRow>>)
    requires rows != []
    ensures Stretches(getOp, rows, Coalesced(getOp, rows), parts)
  {
    var part;
    parts, part := PassStands(getOp, rows);
    var p := After(getOp, rows);
    StretchesAppend(getOp, Concat(parts), p.out, parts, part, p.last);
    parts := parts + [part];
  }

  // ------------------------------------------------------------ conservation

  function GetsIn(getOp: int, rows: seq<OpRow>): nat {
    if rows == [] then 0 else GetsIn(getOp, rows[..|rows| - 1]) + if rows[|rows| - 1].copid == getOp then 1 else 0
  }

  function CountOf(b: Block): int { if b.Gets? then b.count else 0 }

  function SumCounts(bs: seq<Block>): int {
    if bs == [] then 0 else SumCounts(bs[..|bs| - 1]) + CountOf(bs[|bs| - 1])
  }

  lemma {:induction false} SumLast(bs: seq<Block>, b: Block)
    ensures SumCounts(bs + [b]) == SumCounts(bs) + CountOf(b)
  {
    assert (bs + [b])[..|bs|] == bs;
  }

  /** The counts of get entries add up to the number of gets. */
  lemma {:induction false} CountsAreGets(getOp: int, rows: seq<OpRow>)
    requires rows != []
    ensures SumCounts(Blocks(getOp, Coalesced(getOp, rows))) == GetsIn(getOp, rows)
  {
    var k, p := |rows| - 1, After(getOp, rows);
    BlocksAppend(getOp, p.out, p.last);
    if k == 0 {
      SumLast([], BlockOf(getOp, p.last));
      assert rows[..0] == [];
    } else {
      var before := After(getOp, rows[..k]);
      CountsAreGets(getOp, rows[..k]);
      BlocksAppend(getOp, before.out, before.last);
      AdvanceOnBlocks(getOp, before, rows[k]);
      CountStep(getOp, Blocks(getOp, before.out), BlockOf(getOp, before.last), rows[k]);
    }
  }

  lemma {:induction false} CountStep(getOp: int, head: seq<Block>, last: Block, r: OpRow)
    ensures SumCounts(NextBlocks(head, last, BlockOf(getOp, FromRow(r)))) ==
            SumCounts(head + [last]) + if r.copid == getOp then 1 else 0
  {
    var b := BlockOf(getOp, FromRow(r));
    SumLast(head, last);
    if last.Gets? && b.Gets? && last.last + 1 == b.last && last.classname == b.classname && last.line == b.line {
      SumLast(head, last.(last := b.last, count := last.count + 1));
    } else if last.Gets? || b.Gets? {
      SumLast(head + [last], b);
    } else {
      SumLast(head, b);
    }
  }
}
