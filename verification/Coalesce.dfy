/**
 The loop coalescer of cinst/scripts/RT_query.py: within one holder's operations it
 folds consecutive `get`s into loop entries and each run of mutations into its last.
 */
module Coalesce {
  /** A row of the query, with the holder's operation id as stored (a 16-bit number). */
  datatype OpRow = OpRow(hid: int, cid: int, copid: nat, size: int, v1: int, v2: int, classname: string, line: int)

  const LOOP_GET_OP: int := -2

  datatype Entry = Entry(
    hid: int, cid: int, copid: int, size: int, v1: int, v2: int, classname: string, line: int, count: int)

  function FromRow(r: OpRow): Entry { Entry(r.hid, r.cid, r.copid, r.size, r.v1, r.v2, r.classname, r.line, 1) }

  // ------------------------------------------------------------- the object

  class ContainerOp {
    const hid: int
    const cid: int
    const copid: int
    const size: int
    var v1: int
    const v2: int
    const classname: string
    const line: int
    var count: int

    constructor (hid: int, cid: int, copid: int, size: int, v1: int, v2: int, classname: string, line: int, count: int)
      ensures Value() == Entry(hid, cid, copid, size, v1, v2, classname, line, count)
    {
      this.hid, this.cid, this.copid, this.size := hid, cid, copid, size;
      this.v1, this.v2, this.classname, this.line, this.count := v1, v2, classname, line, count;
    }

    function Value(): Entry
      reads this
    {
      Entry(hid, cid, copid, size, v1, v2, classname, line, count)
    }

    /** Extends a get, or a loop of gets, by the next get: a loop in place, a get by a new loop that leaves it alone. */
    method AddOpForLoop(getOp: int, op: ContainerOp) returns (res: ContainerOp)
      requires IsConst(getOp, Value()) && IsPrevGet(getOp, Value(), op.Value()) && op != this
      modifies this
      ensures res.Value() == Absorb(old(Value()), old(op.Value()))
      ensures res.copid == -2 && res.count == old(count) + old(op.count) && res.v1 == old(v1) + 1
      ensures res.hid == hid && res.cid == cid && res.size == size && res.v2 == v2
      ensures res.classname == classname && res.line == line
      ensures copid == LOOP_GET_OP ==> res == this
      ensures copid != LOOP_GET_OP ==> fresh(res) && Value() == old(Value())
      decreases copid != LOOP_GET_OP
    {
      if copid == LOOP_GET_OP {
        count := count + op.count;
        v1 := v1 + 1;
        return this;
      }
      res := CreateLoopOp();
      res := res.AddOpForLoop(getOp, op);
    }

    method CreateLoopOp() returns (loop: ContainerOp)
      ensures fresh(loop) && loop.Value() == Value().(copid := LOOP_GET_OP)
    {
      loop := new ContainerOp(hid, cid, LOOP_GET_OP, size, v1, v2, classname, line, count);
    }
  }

  predicate IsConst(getOp: int, e: Entry) { e.copid == LOOP_GET_OP || e.copid == getOp }

  predicate IsPrevGet(getOp: int, last: Entry, op: Entry) {
    last.v1 + 1 == op.v1 && op.copid == getOp && last.classname == op.classname && last.line == op.line
  }

  function Absorb(last: Entry, op: Entry): Entry {
    last.(copid := LOOP_GET_OP, count := last.count + op.count, v1 := last.v1 + 1)
  }

  // --------------------------------------------------------------- the pass

  datatype Progress = Progress(out: seq<Entry>, last: Entry)

  /** Where the pass stands after a non-empty prefix of the group. */
  function After(getOp: int, rows: seq<OpRow>): Progress
    requires rows != []
  {
    var k := |rows| - 1;
    var op := FromRow(rows[k]);
    if k == 0 then Progress([], op) else Advance(getOp, After(getOp, rows[..k]), op)
  }

  function Advance(getOp: int, p: Progress, op: Entry): Progress {
    if IsConst(getOp, p.last) && op.copid == getOp && IsPrevGet(getOp, p.last, op) then
      Progress(p.out, Absorb(p.last, op))
    else if IsConst(getOp, p.last) || op.copid == getOp then Progress(p.out + [p.last], op)
    else Progress(p.out, op)
  }

  function Coalesced(getOp: int, rows: seq<OpRow>): seq<Entry>
    requires rows != []
  {
    var p := After(getOp, rows);
    p.out + [p.last]
  }

  ghost function Values(ops: seq<ContainerOp>): seq<Entry>
    reads ops
  {
    seq(|ops|, i requires 0 <= i < |ops| reads ops => ops[i].Value())
  }

  /** The pass over one holder's rows, in time order. */
  method CoalesceGroup(getOp: int, rows: seq<OpRow>) returns (out: seq<ContainerOp>)
    requires rows != []
    ensures forall i :: 0 <= i < |out| ==> fresh(out[i])
    ensures Values(out) == Coalesced(getOp, rows)
  {
    var last: ContainerOp? := null;
    out := [];
    for i := 0 to |rows|
      invariant i == 0 <==> last == null
      invariant forall j :: 0 <= j < |out| ==> fresh(out[j])
      invariant last != null ==> fresh(last) && last !in out
      invariant i == 0 ==> out == []
      invariant i > 0 ==> Progress(Values(out), last.Value()) == After(getOp, rows[..i])
    {
      var l := rows[i];
      var op := new ContainerOp(l.hid, l.cid, l.copid, l.size, l.v1, l.v2, l.classname, l.line, 1);
      assert rows[..i + 1][..i] == rows[..i];
      ghost var emitted := Values(out);
      if last != null && IsConst(getOp, last.Value()) && op.copid == getOp {
        if IsPrevGet(getOp, last.Value(), op.Value()) {
          last := last.AddOpForLoop(getOp, op);
          assert Values(out) == emitted;
          continue;
        } else {
          out := out + [last];
        }
      } else if last != null && !IsConst(getOp, last.Value()) && op.copid == getOp {
        out := out + [last];
      } else if last != null && IsConst(getOp, last.Value()) && op.copid != getOp {
        out := out + [last];
      }
      assert Values(out) == emitted || (last != null && Values(out) == emitted + [last.Value()]);
      last := op;
    }
    assert rows[..|rows|] == rows;
    out := out + [last];
  }
}
