/** The versioned address map of addr2id. */
module AddrMap {
  import opened Machine
  import opened Sequences

  // An index from (address, time) to object id (cinst/scripts/src/addr2id.cpp).  An
  // address written once is stored inline; the second write switches its slot to a
  // time-ordered map.  The class keeps a ghost log of every insertion, and its contracts
  // speak of that log alone: a reader never needs the two-form representation.

  // ---------------------------------------------------------------- the log

  datatype Write = Write(addr: U32, time: U64, id: U32)
  datatype Version = Version(time: U64, id: U32)

  /** The versions written to `addr`, in insertion order. */
  function VersionsOf(log: seq<Write>, addr: U32): seq<Version> {
    if log == [] then []
    else
      var w := log[|log| - 1];
      var before := VersionsOf(log[..|log| - 1], addr);
      if w.addr == addr then before + [Version(w.time, w.id)] else before
  }

  /** Of an older candidate and a newer version, the one that answers for time `t`. */
  function Better(older: Option<Version>, v: Version, t: U64): Option<Version> {
    if v.time <= t && (older.None? || older.value.time < v.time) then Some(v) else older
  }

  /** The version with the greatest time not after `t`, the earliest-inserted among equal times. */
  function Best(vs: seq<Version>, t: U64): Option<Version> {
    if vs == [] then None else Better(Best(vs[..|vs| - 1], t), vs[|vs| - 1], t)
  }

  /** What the log answers: a sole version answers for every time. */
  function Answer(vs: seq<Version>, t: U64): U32 {
    if |vs| == 1 then vs[0].id
    else match Best(vs, t)
      case None => UNKNOWN
      case Some(v) => v.id
  }

  function QueryLog(log: seq<Write>, addr: U32, t: U64): U32 {
    Answer(VersionsOf(log, addr), t)
  }

  /** `v` sits at position `k` and answers for time `t`: no later time at or before `t`, no earlier equal one. */
  ghost predicate Answers(vs: seq<Version>, t: U64, k: int) {
    && 0 <= k < |vs| && vs[k].time <= t
    && forall j {:trigger vs[j]} :: 0 <= j < |vs| && vs[j].time <= t ==>
         vs[j].time < vs[k].time || (vs[j].time == vs[k].time && k <= j)
  }

  lemma {:induction false} BestAnswers(vs: seq<Version>, t: U64)
    ensures Best(vs, t).None? <==> forall j {:trigger vs[j]} :: 0 <= j < |vs| ==> t < vs[j].time
    ensures Best(vs, t).Some? ==> exists k :: Answers(vs, t, k) && Best(vs, t).value == vs[k]
  {
    if vs != [] {
      var n := |vs| - 1;
      var before := vs[..n];
      BestAnswers(before, t);
      assert forall j {:trigger vs[j]} :: 0 <= j < n ==> vs[j] == before[j];
      if Best(before, t).Some? {
        var k :| Answers(before, t, k) && Best(before, t).value == before[k];
        assert Answers(vs, t, if Best(vs, t) == Best(before, t) then k else n);
      } else if vs[n].time <= t {
        assert forall j {:trigger vs[j]} :: 0 <= j < n ==> t < before[j].time;
        assert Answers(vs, t, n);
      }
    }
  }

  lemma {:induction false} AnswersUnique(vs: seq<Version>, t: U64, j: int, k: int)
    requires Answers(vs, t, j) && Answers(vs, t, k)
    ensures j == k
  {
    assert vs[j].time <= t && vs[k].time <= t;
  }

  /**
   The meaning of a query, over all logs: unknown for an address never written;
   the sole id, whatever the time, for an address written once; otherwise the
   id of the greatest time not after `t`, first insertion winning, or unknown.
   */
  lemma {:induction false} QueryMeaning(log: seq<Write>, addr: U32, t: U64)
    ensures var vs := VersionsOf(log, addr);
            && (vs == [] ==> QueryLog(log, addr, t) == UNKNOWN)
            && (|vs| == 1 ==> QueryLog(log, addr, t) == vs[0].id)
            && (|vs| >= 2 && (forall j {:trigger vs[j]} :: 0 <= j < |vs| ==> t < vs[j].time) ==>
                  QueryLog(log, addr, t) == UNKNOWN)
            && (forall k {:trigger Answers(vs, t, k)} :: Answers(vs, t, k) ==> QueryLog(log, addr, t) == vs[k].id)
  {
    var vs := VersionsOf(log, addr);
    BestAnswers(vs, t);
    forall k | Answers(vs, t, k)
      ensures Answer(vs, t) == vs[k].id
    {
      if Best(vs, t).Some? {
        var b :| Answers(vs, t, b) && Best(vs, t).value == vs[b];
        AnswersUnique(vs, t, b, k);
      }
    }
  }

  // --------------------------------------------------- the two-form slot

  /** `std::map<uint64_t, obj_id_t>`, as its entries in key order. */
  type TimeMap = seq<Version>

  datatype Slot = Unique(info: Version) | Timed(versions: TimeMap)

  ghost predicate Ordered(m: TimeMap) {
    forall i, j :: 0 <= i < j < |m| ==> m[i].time < m[j].time
  }

  /** `upper_bound`: the position of the first key greater than `t`. */
  function UpperBound(m: TimeMap, t: U64): (n: nat)
    ensures n <= |m|
    ensures Ordered(m) ==> forall i :: 0 <= i < |m| ==> (i < n <==> m[i].time <= t)
  {
    UpperBoundBelow(m, t, |m|)
  }

  function UpperBoundBelow(m: TimeMap, t: U64, hi: nat): (n: nat)
    requires hi <= |m|
    ensures n <= hi
    ensures Ordered(m) ==> forall i :: 0 <= i < hi ==> (i < n <==> m[i].time <= t)
  {
    if hi > 0 && t < m[hi - 1].time then UpperBoundBelow(m, t, hi - 1) else hi
  }

  /** `emplace`: keeps the entry already stored under an equal key. */
  function Emplace(m: TimeMap, v: Version): TimeMap {
    var n := UpperBound(m, v.time);
    if n > 0 && m[n - 1].time == v.time then m else m[..n] + [v] + m[n..]
  }

  predicate HasTime(m: TimeMap, t: U64) {
    exists w :: w in m && w.time == t
  }

  lemma {:induction false} EmplaceMeans(m: TimeMap, v: Version)
    requires Ordered(m)
    ensures Ordered(Emplace(m, v))
    ensures forall w :: w in Emplace(m, v) <==> w in m || (w == v && !HasTime(m, v.time))
  {
    var n := UpperBound(m, v.time);
    if n > 0 && m[n - 1].time == v.time {
      assert m[n - 1] in m;
    } else {
      assert forall i :: 0 <= i < n ==> m[i].time < v.time;
      assert forall w :: w in m ==> w.time != v.time;
      OrderedInsert(m, n, v);
      SplitMembers(m, n, v);
    }
  }

  lemma {:induction false} OrderedInsert(m: TimeMap, n: nat, v: Version)
    requires Ordered(m) && n <= |m|
    requires forall i :: 0 <= i < n ==> m[i].time < v.time
    requires forall i :: n <= i < |m| ==> v.time < m[i].time
    ensures Ordered(m[..n] + [v] + m[n..])
  {
  }

  lemma {:induction false} SplitMembers(m: TimeMap, n: nat, v: Version)
    requires n <= |m|
    ensures forall w :: w in m[..n] + [v] + m[n..] <==> w in m || w == v
  {
    assert m == m[..n] + m[n..];
    assert forall w :: w in m <==> w in m[..n] || w in m[n..];
  }

  /** `--upper_bound(t)`, unless that steps before the first entry. */
  function Floor(m: TimeMap, t: U64): (o: Option<Version>)
    ensures Ordered(m) && o.None? ==> forall w :: w in m ==> t < w.time
    ensures Ordered(m) && o.Some? ==>
              o.value in m && o.value.time <= t && forall w :: w in m && w.time <= t ==> w.time <= o.value.time
  {
    var n := UpperBound(m, t);
    if n == 0 then None else Some(m[n - 1])
  }

  lemma {:induction false} FloorAfterEmplace(m: TimeMap, v: Version, t: U64)
    requires Ordered(m)
    ensures Floor(Emplace(m, v), t) == Better(Floor(m, t), v, t)
  {
    EmplaceMeans(m, v);
    var r := Emplace(m, v);
    var o, p := Floor(m, t), Floor(r, t);
    assert forall a, b :: a in r && b in r && a.time == b.time ==> a == b;
    assert o.Some? ==> o.value in r;
    if v.time <= t && !HasTime(m, v.time) { assert v in r; }
  }

  /** The time map built from versions in insertion order. */
  function TimeMapOf(vs: seq<Version>): (m: TimeMap)
    ensures Ordered(m)
    ensures vs != [] ==> m != []
  {
    if vs == [] then []
    else
      var m := TimeMapOf(vs[..|vs| - 1]);
      EmplaceMeans(m, vs[|vs| - 1]);
      Emplace(m, vs[|vs| - 1])
  }

  lemma {:induction false} FloorIsBest(vs: seq<Version>, t: U64)
    ensures Floor(TimeMapOf(vs), t) == Best(vs, t)
  {
    if vs != [] {
      FloorIsBest(vs[..|vs| - 1], t);
      FloorAfterEmplace(TimeMapOf(vs[..|vs| - 1]), vs[|vs| - 1], t);
    }
  }

  /** The representation an address has after the given versions. */
  function SlotOf(vs: seq<Version>): Slot
    requires vs != []
  {
    if |vs| == 1 then Unique(vs[0]) else Timed(TimeMapOf(vs))
  }

  lemma {:induction false} SlotAnswers(vs: seq<Version>, t: U64)
    requires vs != []
    ensures match SlotOf(vs)
            case Unique(info) => Answer(vs, t) == info.id
            case Timed(m) => Answer(vs, t) == match Floor(m, t) case None => UNKNOWN case Some(v) => v.id
  {
    FloorIsBest(vs, t);
  }

  // ----------------------------------------------------------- specification

  /** The map as its clients see it: what was inserted, and the id counter. */
  datatype Store = Store(log: seq<Write>, curId: U32)

  const SEED: Write := Write(0, 0, 0)
  const EMPTY: Store := Store([SEED], 1)

  /** `cur_id++` on an unsigned 32-bit counter. */
  function Next(id: U32): U32 { if id == UNKNOWN then 0 else id + 1 }

  /** `id | GC_MASK` */
  function Masked(id: U32): (r: U32)
    ensures TWO_31 <= r && (r == id || r == id + TWO_31)
  {
    if id < TWO_31 then id + TWO_31 else id
  }

  function InsertNew(s: Store, addr: U32, time: U64): Store {
    Store(s.log + [Write(addr, time, s.curId)], Next(s.curId))
  }

  function InsertMove(s: Store, src: U32, dst: U32, time: U64): Store {
    var id := QueryLog(s.log, src, time);
    if id == UNKNOWN then Store(s.log + [Write(dst, time, Masked(s.curId))], Next(s.curId))
    else Store(s.log + [Write(dst, time, id)], s.curId)
  }

  datatype NewRecord = NewRecord(line: U16, className: U16, typeId: int, size: U32, addr: U32, time: U64)
  datatype GcRecord = GcRecord(src: U32, dst: U32, time: U64)

  /** One line of addr-id.dat, the source of the ALLOCATIONS table. */
  datatype AllocationRow = AllocationRow(id: U32, className: U16, line: U16, size: U32, typeId: int)

  function InsertNews(s: Store, rs: seq<NewRecord>): Store {
    if rs == [] then s
    else InsertNew(InsertNews(s, rs[..|rs| - 1]), rs[|rs| - 1].addr, rs[|rs| - 1].time)
  }

  function InsertMoves(s: Store, rs: seq<GcRecord>): Store {
    if rs == [] then s
    else
      var r := rs[|rs| - 1];
      InsertMove(InsertMoves(s, rs[..|rs| - 1]), r.src, r.dst, r.time)
  }

  /** Where the counter stands `n` insertions after `id`. */
  function Counter(id: U32, n: nat): U32 { (id + n) % TWO_32 }

  lemma {:induction false} CounterSplit(id: U32, m: nat, n: nat)
    ensures Counter(Counter(id, m), n) == Counter(id, m + n)
  {
  }

  /** The rows written for records inserted while the counter stands at `id`. */
  function RowsFrom(id: U32, rs: seq<NewRecord>): (rows: seq<AllocationRow>)
    ensures |rows| == |rs|
  {
    if rs == [] then []
    else
      var n := |rs| - 1;
      RowsFrom(id, rs[..n]) +
      [AllocationRow(Counter(id, n), rs[n].className, rs[n].line, rs[n].size, rs[n].typeId)]
  }

  /** All NEW files, then all gc files. */
  function Build(newFiles: seq<seq<NewRecord>>, gcFiles: seq<seq<GcRecord>>): Store {
    InsertMoves(InsertNews(EMPTY, Concat(newFiles)), Concat(gcFiles))
  }

  lemma {:induction false} InsertNewsCounter(s: Store, rs: seq<NewRecord>)
    ensures InsertNews(s, rs).curId == Counter(s.curId, |rs|)
  {
    if rs != [] { InsertNewsCounter(s, rs[..|rs| - 1]); }
  }

  lemma {:induction false} InsertNewsSplit(s: Store, a: seq<NewRecord>, b: seq<NewRecord>)
    ensures InsertNews(s, a + b) == InsertNews(InsertNews(s, a), b)
  {
    if b == [] {
      assert a + b == a;
    } else {
      assert (a + b)[..|a + b| - 1] == a + b[..|b| - 1];
      InsertNewsSplit(s, a, b[..|b| - 1]);
    }
  }

  lemma {:induction false} InsertMovesSplit(s: Store, a: seq<GcRecord>, b: seq<GcRecord>)
    ensures InsertMoves(s, a + b) == InsertMoves(InsertMoves(s, a), b)
  {
    if b == [] {
      assert a + b == a;
    } else {
      assert (a + b)[..|a + b| - 1] == a + b[..|b| - 1];
      InsertMovesSplit(s, a, b[..|b| - 1]);
    }
  }

  lemma {:induction false} RowsSplit(s: Store, a: seq<NewRecord>, b: seq<NewRecord>)
    ensures RowsFrom(s.curId, a + b) == RowsFrom(s.curId, a) + RowsFrom(InsertNews(s, a).curId, b)
  {
    InsertNewsCounter(s, a);
    if b == [] {
      assert a + b == a;
    } else {
      var n := |b| - 1;
      assert (a + b)[..|a| + n] == a + b[..n] && (a + b)[|a| + n] == b[n];
      CounterSplit(s.curId, |a|, n);
      RowsSplit(s, a, b[..n]);
    }
  }

  lemma {:induction false} NewsChunk(s: Store, file: seq<NewRecord>, pos: nat, len: nat)
    requires pos + len <= |file|
    ensures InsertNews(s, file[..pos + len]) == InsertNews(InsertNews(s, file[..pos]), file[pos..pos + len])
    ensures RowsFrom(s.curId, file[..pos + len]) ==
            RowsFrom(s.curId, file[..pos]) + RowsFrom(InsertNews(s, file[..pos]).curId, file[pos..pos + len])
  {
    InsertNewsSplit(s, file[..pos], file[pos..pos + len]);
    RowsSplit(s, file[..pos], file[pos..pos + len]);
    assert file[..pos] + file[pos..pos + len] == file[..pos + len];
  }

  lemma {:induction false} MovesChunk(s: Store, file: seq<GcRecord>, pos: nat, len: nat)
    requires pos + len <= |file|
    ensures InsertMoves(s, file[..pos + len]) == InsertMoves(InsertMoves(s, file[..pos]), file[pos..pos + len])
  {
    InsertMovesSplit(s, file[..pos], file[pos..pos + len]);
    assert file[..pos] + file[pos..pos + len] == file[..pos + len];
  }

  // ------------------------------------------------------------ the class

  const CHUNK := 1024

  class AddressMap {
    var slots: map<U32, Slot>
    var curId: U32
    ghost var log: seq<Write>

    ghost predicate Valid()
      reads this
    {
      forall a: U32 {:trigger a in slots} ::
        && (a in slots <==> VersionsOf(log, a) != [])
        && (a in slots ==> slots[a] == SlotOf(VersionsOf(log, a)))
    }

    ghost function Contents(): Store
      reads this
    {
      Store(log, curId)
    }

    constructor ()
      ensures Valid() && Contents() == EMPTY
    {
      slots := map[];
      curId := 1;
      log := [];
      new;
      InsertWithId(0, 0, 0);
    }

    method Query(addr: U32, time: U64) returns (id: U32)
      requires Valid()
      ensures id == QueryLog(log, addr, time)
    {
      if addr !in slots {
        return UNKNOWN;
      }
      SlotAnswers(VersionsOf(log, addr), time);
      match slots[addr]
      case Unique(info) =>
        return info.id;
      case Timed(m) =>
        var it := UpperBound(m, time);
        if it == 0 {
          return UNKNOWN;
        }
        return m[it - 1].id;
    }

    method InsertWithId(addr: U32, time: U64, id: U32)
      requires Valid()
      modifies this
      ensures Valid() && log == old(log) + [Write(addr, time, id)] && curId == old(curId)
    {
      var v := Version(time, id);
      ghost var vs := VersionsOf(log, addr);
      assert (vs + [v])[..|vs|] == vs;
      assert (log + [Write(addr, time, id)])[..|log|] == log;
      log := log + [Write(addr, time, id)];
      if addr !in slots {
        slots := slots[addr := Unique(v)];
        return;
      }
      if slots[addr].Unique? {
        var saved := slots[addr].info;
        slots := slots[addr := Timed([saved])];
        assert vs[..0] == [] && TimeMapOf(vs) == [saved];
      }
      slots := slots[addr := Timed(Emplace(slots[addr].versions, v))];
      assert slots[addr] == SlotOf(vs + [v]);
    }

    method Insert(addr: U32, time: U64) returns (id: U32)
      requires Valid()
      modifies this
      ensures Valid() && Contents() == InsertNew(old(Contents()), addr, time) && id == old(curId)
    {
      id := curId;
      curId := Next(curId);
      InsertWithId(addr, time, id);
    }

    method InsertGc(addr: U32, time: U64)
      requires Valid()
      modifies this
      ensures Valid() && log == old(log) + [Write(addr, time, Masked(old(curId)))] && curId == Next(old(curId))
    {
      var id := curId;
      curId := Next(curId);
      InsertWithId(addr, time, Masked(id));
    }

    method Move(oldAddr: U32, newAddr: U32, time: U64)
      requires Valid()
      modifies this
      ensures Valid() && Contents() == InsertMove(old(Contents()), oldAddr, newAddr, time)
    {
      var id := Query(oldAddr, time);
      if id == UNKNOWN {
        InsertGc(newAddr, time);
      } else {
        InsertWithId(newAddr, time, id);
      }
    }

    method InsertNewRecords(buffer: seq<NewRecord>) returns (rows: seq<AllocationRow>)
      requires Valid()
      modifies this
      ensures Valid() && Contents() == InsertNews(old(Contents()), buffer)
      ensures rows == RowsFrom(old(curId), buffer)
    {
      rows := [];
      for i := 0 to |buffer|
        invariant Valid() && Contents() == InsertNews(old(Contents()), buffer[..i])
        invariant rows == RowsFrom(old(curId), buffer[..i])
      {
        assert buffer[..i + 1][..i] == buffer[..i];
        InsertNewsCounter(old(Contents()), buffer[..i]);
        var id := Insert(buffer[i].addr, buffer[i].time);
        rows := rows + [AllocationRow(id, buffer[i].className, buffer[i].line, buffer[i].size, buffer[i].typeId)];
      }
      assert buffer[..|buffer|] == buffer;
    }

    /** Reads the file in chunks until a read returns nothing. */
    method ProcessNewFile(file: seq<NewRecord>) returns (rows: seq<AllocationRow>)
      requires Valid()
      modifies this
      ensures Valid() && Contents() == InsertNews(old(Contents()), file)
      ensures rows == RowsFrom(old(curId), file)
    {
      ghost var start := Contents();
      var pos := 0;
      rows := [];
      while true
        invariant 0 <= pos <= |file|
        invariant Valid() && Contents() == InsertNews(start, file[..pos])
        invariant rows == RowsFrom(start.curId, file[..pos])
        decreases |file| - pos
      {
        var len := if |file| - pos < CHUNK then |file| - pos else CHUNK;
        if len <= 0 {
          break;
        }
        NewsChunk(start, file, pos, len);
        var more := InsertNewRecords(file[pos..pos + len]);
        rows := rows + more;
        pos := pos + len;
      }
      assert file[..pos] == file;
    }

    /** The inner loop of `process_gc_file`, over one chunk. */
    method MoveAll(buffer: seq<GcRecord>)
      requires Valid()
      modifies this
      ensures Valid() && Contents() == InsertMoves(old(Contents()), buffer)
    {
      for i := 0 to |buffer|
        invariant Valid() && Contents() == InsertMoves(old(Contents()), buffer[..i])
      {
        assert buffer[..i + 1][..i] == buffer[..i];
        Move(buffer[i].src, buffer[i].dst, buffer[i].time);
      }
      assert buffer[..|buffer|] == buffer;
    }

    method ProcessGcFile(file: seq<GcRecord>)
      requires Valid()
      modifies this
      ensures Valid() && Contents() == InsertMoves(old(Contents()), file)
    {
      ghost var start := Contents();
      var pos := 0;
      while true
        invariant 0 <= pos <= |file|
        invariant Valid() && Contents() == InsertMoves(start, file[..pos])
        decreases |file| - pos
      {
        var len := if |file| - pos < CHUNK then |file| - pos else CHUNK;
        if len <= 0 {
          break;
        }
        MovesChunk(start, file, pos, len);
        MoveAll(file[pos..pos + len]);
        pos := pos + len;
      }
      assert file[..pos] == file;
    }
  }

  /** `build_addr_map`: every NEW file in directory order, then every gc file. */
  method BuildAddrMap(newFiles: seq<seq<NewRecord>>, gcFiles: seq<seq<GcRecord>>)
    returns (am: AddressMap, rows: seq<AllocationRow>)
    ensures fresh(am) && am.Valid() && am.Contents() == Build(newFiles, gcFiles)
    ensures rows == RowsFrom(1, Concat(newFiles))
  {
    am := new AddressMap();
    rows := [];
    for i := 0 to |newFiles|
      invariant fresh(am) && am.Valid() && am.Contents() == InsertNews(EMPTY, Concat(newFiles[..i]))
      invariant rows == RowsFrom(1, Concat(newFiles[..i]))
    {
      assert newFiles[..i + 1][..i] == newFiles[..i];
      InsertNewsSplit(EMPTY, Concat(newFiles[..i]), newFiles[i]);
      RowsSplit(EMPTY, Concat(newFiles[..i]), newFiles[i]);
      var more := am.ProcessNewFile(newFiles[i]);
      rows := rows + more;
    }
    assert newFiles[..|newFiles|] == newFiles;
    ghost var afterNews := InsertNews(EMPTY, Concat(newFiles));
    for i := 0 to |gcFiles|
      invariant fresh(am) && am.Valid() && am.Contents() == InsertMoves(afterNews, Concat(gcFiles[..i]))
    {
      assert gcFiles[..i + 1][..i] == gcFiles[..i];
      InsertMovesSplit(afterNews, Concat(gcFiles[..i]), gcFiles[i]);
      am.ProcessGcFile(gcFiles[i]);
    }
    assert gcFiles[..|gcFiles|] == gcFiles;
  }
}
