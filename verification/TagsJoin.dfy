/** The tag cache meets the offline join. */
module TagsJoin {
  import opened Machine
  import opened AddrMap
  import opened Identity
  import opened TagCache
  import Emission

  // What concurrent lookups answer, once recorded and translated, names the right row of
  // the ALLOCATIONS table.

  /** The NEW records of a run, in whatever order their files were read: one for each object tagged, under its tag. */
  ghost predicate Recorded(r: TagCache.Run, objs: seq<Obj>, news: seq<NewRecord>)
    requires IsRun(r)
  {
    && |objs| == |news| < TWO_31 && r.states[|r.labels|].counter <= UNKNOWN
    && (forall i, j :: 0 <= i < j < |objs| ==> objs[i] != objs[j])
    && (forall i :: 0 <= i < |objs| ==> RecordOf(r, objs[i], news[i]))
    && (forall o :: o in Tags(r, |r.labels|) ==> o in objs)
  }

  ghost predicate RecordOf(r: TagCache.Run, o: Obj, n: NewRecord)
    requires IsRun(r)
  {
    var tags := Tags(r, |r.labels|);
    o in tags && n.addr == tags[o] % TWO_32
  }

  ghost predicate Clear(moves: seq<GcRecord>, news: seq<NewRecord>) {
    forall m :: m in moves ==> m.dst != 0 && m.dst != UNKNOWN && forall i :: 0 <= i < |news| ==> m.dst != news[i].addr
  }

  /** Minted tags are what the join asks of a tagged trace. */
  lemma {:induction false} MintedTagsAreTagged(r: TagCache.Run, objs: seq<Obj>, news: seq<NewRecord>, moves: seq<GcRecord>)
    requires IsRun(r) && Recorded(r, objs, news) && Clear(moves, news)
    ensures Tagged(news, moves)
  {
    var z := |r.labels|;
    forall i | 0 <= i < |news| ensures 0 < news[i].addr < UNKNOWN {
      assert RecordOf(r, objs[i], news[i]);
      TagsFitAddresses(r, z, objs[i]);
    }
    forall i, j | 0 <= i < j < |news| ensures news[i].addr != news[j].addr {
      assert RecordOf(r, objs[i], news[i]) && RecordOf(r, objs[j], news[j]);
      TagsFitAddresses(r, z, objs[i]);
    }
  }

  /**
   In any interleaving, whatever a lookup answers for an object: -1 is not sampled
   and translates to the unknown id at every time; any other answer is sampled and
   translates, at every time, to the id of that object's own row.
   */
  lemma {:induction false} AnswersJoinAllocations(
    r: TagCache.Run, objs: seq<Obj>, news: seq<NewRecord>, moves: seq<GcRecord>,
    k: nat, t: Thread, o: Obj, tag: int, time: U64)
    returns (i: int)
    requires IsRun(r) && Recorded(r, objs, news) && Clear(moves, news) && TagCache.Answers(r, k, t, o, tag)
    ensures -1 <= tag < UNKNOWN && (Emission.Sampled(tag) <==> tag != -1)
    ensures var id := QueryLog(InsertMoves(InsertNews(EMPTY, news), moves).log, tag % TWO_32, time);
            if tag == -1 then id == UNKNOWN
            else 0 <= i < |objs| && objs[i] == o && id == RowsFrom(1, news)[i].id == i + 1
  {
    var z := |r.labels|;
    MintedTagsAreTagged(r, objs, news, moves);
    TagJoinsItsAllocation(news, moves, time);
    AnswerIsTagOrMinusOne(r, k, t, o, tag);
    i := -1;
    if tag != -1 {
      TagsGrow(r, k, z, o);
      TagsFitAddresses(r, z, o);
      i :| 0 <= i < |objs| && objs[i] == o;
      assert RecordOf(r, objs[i], news[i]);
      RowPerAllocation(news);
    }
  }

  /** So two sampled references in the database are equal exactly when the objects were the same. */
  lemma {:induction false} SameIdSameObject(
    r: TagCache.Run, objs: seq<Obj>, news: seq<NewRecord>, moves: seq<GcRecord>,
    k: nat, t: Thread, o: Obj, x: int, xTime: U64, n: nat, u: Thread, p: Obj, y: int, yTime: U64)
    requires IsRun(r) && Recorded(r, objs, news) && Clear(moves, news)
    requires TagCache.Answers(r, k, t, o, x) && TagCache.Answers(r, n, u, p, y) && x != -1 && y != -1
    ensures var log := InsertMoves(InsertNews(EMPTY, news), moves).log;
            QueryLog(log, x % TWO_32, xTime) == QueryLog(log, y % TWO_32, yTime) <==> o == p
  {
    var i := AnswersJoinAllocations(r, objs, news, moves, k, t, o, x, xTime);
    var j := AnswersJoinAllocations(r, objs, news, moves, n, u, p, y, yTime);
  }
}
