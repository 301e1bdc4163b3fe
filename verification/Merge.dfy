/** The two operation streams of a thread, merged by time. */
module Merge {
  import opened Machine
  import opened Layout
  import opened Records

  // `ContainerBuffer` and `ContainerBufferSelector` of
  // cinst/scripts/build_container_db.py.

  function Time(r: OpRecord): U64 { r.br.time }

  /** What reading the selector to exhaustion returns: the earlier head first, the first stream's on a tie. */
  function Merged(xs: seq<OpRecord>, ys: seq<OpRecord>): seq<OpRecord>
    decreases |xs| + |ys|
  {
    if xs == [] then ys
    else if ys == [] then xs
    else if Time(ys[0]) < Time(xs[0]) then [ys[0]] + Merged(xs, ys[1..])
    else [xs[0]] + Merged(xs[1..], ys)
  }

  // ------------------------------------------------------ the merge is the merge

  function OfKind(kind: OpKind, rs: seq<OpRecord>): seq<OpRecord> {
    if rs == [] then []
    else (if KindOf(rs[0]) == kind then [rs[0]] else []) + OfKind(kind, rs[1..])
  }

  ghost predicate All(kind: OpKind, rs: seq<OpRecord>) {
    forall i :: 0 <= i < |rs| ==> KindOf(rs[i]) == kind
  }

  ghost predicate Sorted(rs: seq<OpRecord>) {
    forall i, j :: 0 <= i < j < |rs| ==> Time(rs[i]) <= Time(rs[j])
  }

  /** Of two records with the same time the list record comes first. */
  ghost predicate ListFirst(rs: seq<OpRecord>) {
    forall i, j :: 0 <= i < j < |rs| && rs[i].MapOp? && rs[j].ListOp? ==> Time(rs[i]) != Time(rs[j])
  }

  lemma {:induction false} OfKindAll(kind: OpKind, rs: seq<OpRecord>)
    requires All(kind, rs)
    ensures OfKind(kind, rs) == rs
    ensures forall other :: other != kind ==> OfKind(other, rs) == []
  {
    if rs != [] {
      OfKindAll(kind, rs[1..]);
      assert rs == [rs[0]] + rs[1..];
    }
  }

  lemma {:induction false} OfKindCons(r: OpRecord, rs: seq<OpRecord>)
    ensures OfKind(LIST, [r] + rs) == (if r.ListOp? then [r] else []) + OfKind(LIST, rs)
    ensures OfKind(MAP, [r] + rs) == (if r.MapOp? then [r] else []) + OfKind(MAP, rs)
  {
    assert ([r] + rs)[1..] == rs;
  }

  /** Every record of both streams comes out exactly once, in its own stream's order. */
  lemma {:induction false} MergeConserves(xs: seq<OpRecord>, ys: seq<OpRecord>)
    requires All(LIST, xs) && All(MAP, ys)
    ensures OfKind(LIST, Merged(xs, ys)) == xs && OfKind(MAP, Merged(xs, ys)) == ys
    decreases |xs| + |ys|
  {
    if xs == [] || ys == [] {
      OfKindAll(LIST, xs);
      OfKindAll(MAP, ys);
    } else if Time(ys[0]) < Time(xs[0]) {
      var rest := ys[1..];
      assert All(MAP, rest) && ys == [ys[0]] + rest && KindOf(ys[0]) == MAP;
      MergeConserves(xs, rest);
      OfKindCons(ys[0], Merged(xs, rest));
    } else {
      var rest := xs[1..];
      assert All(LIST, rest) && xs == [xs[0]] + rest && KindOf(xs[0]) == LIST;
      MergeConserves(rest, ys);
      OfKindCons(xs[0], Merged(rest, ys));
    }
  }

  lemma {:induction false} MergeMembers(xs: seq<OpRecord>, ys: seq<OpRecord>, r: OpRecord)
    requires r in Merged(xs, ys)
    ensures r in xs || r in ys
    decreases |xs| + |ys|
  {
    if xs != [] && ys != [] {
      if Time(ys[0]) < Time(xs[0]) {
        if r != ys[0] { MergeMembers(xs, ys[1..], r); }
      } else {
        if r != xs[0] { MergeMembers(xs[1..], ys, r); }
      }
    }
  }

  lemma {:induction false} SortedCons(r: OpRecord, rs: seq<OpRecord>)
    requires Sorted(rs) && ListFirst(rs)
    requires forall x :: x in rs ==> Time(r) <= Time(x)
    requires forall x :: x in rs && r.MapOp? && x.ListOp? ==> Time(r) < Time(x)
    ensures Sorted([r] + rs) && ListFirst([r] + rs)
  {
  }

  /** Sorted streams merge into a sorted one, list records first on ties. */
  lemma {:induction false} MergeSorts(xs: seq<OpRecord>, ys: seq<OpRecord>)
    requires All(LIST, xs) && All(MAP, ys) && Sorted(xs) && Sorted(ys)
    ensures Sorted(Merged(xs, ys)) && ListFirst(Merged(xs, ys))
    decreases |xs| + |ys|
  {
    if xs != [] && ys != [] {
      if Time(ys[0]) < Time(xs[0]) {
        MergeSorts(xs, ys[1..]);
        forall x | x in Merged(xs, ys[1..])
          ensures Time(ys[0]) <= Time(x) && (x.ListOp? ==> Time(ys[0]) < Time(x))
        {
          MergeMembers(xs, ys[1..], x);
        }
        SortedCons(ys[0], Merged(xs, ys[1..]));
      } else {
        MergeSorts(xs[1..], ys);
        forall x | x in Merged(xs[1..], ys)
          ensures Time(xs[0]) <= Time(x)
        {
          MergeMembers(xs[1..], ys, x);
        }
        SortedCons(xs[0], Merged(xs[1..], ys));
      }
    }
  }

  lemma {:induction false} OfKindMembers(kind: OpKind, rs: seq<OpRecord>, r: OpRecord)
    ensures r in OfKind(kind, rs) <==> r in rs && KindOf(r) == kind
  {
    if rs != [] { OfKindMembers(kind, rs[1..], r); }
  }

  lemma {:induction false} FirstOfKindLater(kind: OpKind, rs: seq<OpRecord>)
    requires Sorted(rs) && ListFirst(rs) && rs != [] && OfKind(kind, rs[1..]) != []
    ensures var r, x := rs[0], OfKind(kind, rs[1..])[0];
            KindOf(x) == kind && Time(r) <= Time(x) && (r.MapOp? && x.ListOp? ==> Time(r) < Time(x))
  {
    var x := OfKind(kind, rs[1..])[0];
    OfKindMembers(kind, rs[1..], x);
    var j :| 0 <= j < |rs[1..]| && rs[1..][j] == x;
    assert rs[j + 1] == x;
  }

  lemma {:induction false} MergedStep(r: OpRecord, xs: seq<OpRecord>, ys: seq<OpRecord>)
    ensures (ys == [] || Time(r) <= Time(ys[0])) ==> Merged([r] + xs, ys) == [r] + Merged(xs, ys)
    ensures (xs == [] || Time(r) < Time(xs[0])) ==> Merged(xs, [r] + ys) == [r] + Merged(xs, ys)
  {
    assert ([r] + xs)[1..] == xs && ([r] + ys)[1..] == ys;
  }

  /** No other sequence will do: these properties pin the merge down. */
  lemma {:induction false} MergeUnique(rs: seq<OpRecord>)
    requires Sorted(rs) && ListFirst(rs)
    ensures rs == Merged(OfKind(LIST, rs), OfKind(MAP, rs))
  {
    if rs != [] {
      var r, tail := rs[0], rs[1..];
      MergeUnique(tail);
      var xs, ys := OfKind(LIST, tail), OfKind(MAP, tail);
      assert rs == [r] + tail;
      if r.ListOp? {
        if ys != [] { FirstOfKindLater(MAP, rs); }
        MergedStep(r, xs, ys);
        assert OfKind(LIST, rs) == [r] + xs && OfKind(MAP, rs) == ys;
      } else {
        if xs != [] { FirstOfKindLater(LIST, rs); }
        MergedStep(r, xs, ys);
        assert OfKind(LIST, rs) == xs && OfKind(MAP, rs) == [r] + ys;
      }
    }
  }

  // ------------------------------------------------------------- the classes

  class ContainerBuffer {
    const buf: Bytes
    const kind: OpKind
    var pos: int
    var top: Option<OpRecord>

    ghost predicate Valid()
      reads this
    {
      0 <= pos && top == First(Remaining())
    }

    ghost function Remaining(): seq<OpRecord>
      requires 0 <= pos
      reads this
    {
      From(OpsIn(kind, buf), pos)
    }

    constructor (buf: Bytes, kind: OpKind)
      ensures Valid() && Remaining() == OpsIn(kind, buf)
    {
      this.buf := buf;
      this.kind := kind;
      pos := -1;
      top := None;
      new;
      Next();
    }

    method Next()
      requires -1 <= pos
      modifies this
      ensures Valid() && pos == old(pos) + 1
      ensures old(pos) >= 0 ==> Remaining() == From(old(Remaining()), 1)
    {
      pos := pos + 1;
      InBuffer(|buf|, pos);
      if pos * OP_SIZE + OP_SIZE - 1 >= |buf| {
        top := None;
        return;
      }
      top := Some(ParseOp(kind, Chunk(buf, OP_SIZE, pos)));
    }
  }

  function First(rs: seq<OpRecord>): Option<OpRecord> { if rs == [] then None else Some(rs[0]) }

  function From(rs: seq<OpRecord>, k: nat): seq<OpRecord> { if k < |rs| then rs[k..] else [] }

  lemma {:induction false} InBuffer(len: nat, pos: nat)
    ensures pos * OP_SIZE + OP_SIZE - 1 >= len <==> pos >= len / OP_SIZE
  {
  }

  class ContainerBufferSelector {
    const list: ContainerBuffer?
    const map_: ContainerBuffer?

    ghost predicate Valid()
      reads this, list, map_
    {
      && (list != null ==> list.Valid()) && (map_ != null ==> map_.Valid())
      && (list != null && map_ != null ==> list != map_)
    }

    /** What is still to be read. */
    ghost function Pending(): seq<OpRecord>
      requires Valid()
      reads this, list, map_
    {
      Merged(if list == null then [] else list.Remaining(), if map_ == null then [] else map_.Remaining())
    }

    constructor (listBuf: Option<Bytes>, mapBuf: Option<Bytes>)
      ensures Valid() && (list != null ==> fresh(list)) && (map_ != null ==> fresh(map_))
      ensures Pending() == Merged(OpsOf(LIST, listBuf), OpsOf(MAP, mapBuf))
    {
      if listBuf.Some? {
        list := new ContainerBuffer(listBuf.value, LIST);
      } else {
        list := null;
      }
      if mapBuf.Some? {
        map_ := new ContainerBuffer(mapBuf.value, MAP);
      } else {
        map_ := null;
      }
    }

    method Read() returns (res: Option<OpRecord>)
      requires Valid()
      modifies list, map_
      ensures Valid()
      ensures res == First(old(Pending())) && Pending() == From(old(Pending()), 1)
    {
      MergedFront(if list == null then [] else list.Remaining(), if map_ == null then [] else map_.Remaining());
      var target: ContainerBuffer? := null;
      if list != null && list.top.Some? {
        target := list;
      }
      if map_ != null && map_.top.Some? && (target == null || Time(map_.top.value) < Time(target.top.value)) {
        target := map_;
      }
      if target == null {
        return None;
      }
      res := target.top;
      target.Next();
    }
  }

  /** The head of the merge, and what is left of it. */
  lemma {:induction false} MergedFront(xs: seq<OpRecord>, ys: seq<OpRecord>)
    ensures var m := Merged(xs, ys);
            if xs == [] && ys == [] then m == []
            else if xs == [] || (ys != [] && Time(ys[0]) < Time(xs[0])) then
              First(m) == Some(ys[0]) && From(m, 1) == Merged(xs, From(ys, 1))
            else First(m) == Some(xs[0]) && From(m, 1) == Merged(From(xs, 1), ys)
  {
  }

  /** The records of a stream whose file may not exist. */
  function OpsOf(kind: OpKind, buf: Option<Bytes>): seq<OpRecord> {
    if buf.None? then [] else OpsIn(kind, buf.value)
  }
}
