/** The columns of a row of the CONTAINERS table, and what each of them names. */
module ContainersTable {
  import opened Machine
  import opened AddrMap
  import opened Records
  import opened Matcher
  import opened Emission
  import opened EndToEnd
  import opened ThreadTracer
  import opened Layout
  import opened Sequences
  import opened Identity
  import opened TagsJoin
  import TagCache

  const HOLDER_ID := 0
  const REF_ID := 1
  const CONTAINER_ID := 2
  const OPERATION_ID := 3
  const TIMESTAMP := 4
  const SIZE_THEN := 5
  const V1 := 6
  const V2 := 7
  const LINE_NUMBER := 8
  const CLASS_NAME_ID := 9

  function Data4Sql(row: Row): (columns: seq<int>)
    ensures |columns| == 10
  {
    var br := row.op.br;
    [br.holder, br.ref, br.cid, br.copid, br.time, br.size] +
    (if row.op.ListOp? then [row.op.idxOrSucc, -1] else [row.op.value, row.op.key]) +
    [row.line.line, row.line.className]
  }

  /** `id` is what the tag of any object it was answered for should become: that object's own row, or unknown. */
  ghost predicate Names(r: TagCache.Run, objs: seq<TagCache.Obj>, tag: int, id: int) {
    forall k, t, o :: TagCache.Answers(r, k, t, o, tag) ==>
      if tag == -1 then id == UNKNOWN else 0 < id <= |objs| && objs[id - 1] == o
  }

  lemma {:induction false} TagNames(
    r: TagCache.Run, objs: seq<TagCache.Obj>, news: seq<NewRecord>, moves: seq<GcRecord>, tag: int, time: U64)
    requires TagCache.IsRun(r) && TagsJoin.Recorded(r, objs, news) && TagsJoin.Clear(moves, news)
    ensures Names(r, objs, tag, QueryLog(InsertMoves(InsertNews(EMPTY, news), moves).log, tag % TWO_32, time))
  {
    var id := QueryLog(InsertMoves(InsertNews(EMPTY, news), moves).log, tag % TWO_32, time);
    forall k, t, o | TagCache.Answers(r, k, t, o, tag)
      ensures if tag == -1 then id == UNKNOWN else 0 < id <= |objs| && objs[id - 1] == o
    {
      var i := AnswersJoinAllocations(r, objs, news, moves, k, t, o, tag, time);
    }
  }

  /** The two value columns and the reference column, call by call. */
  ghost predicate Columns(r: TagCache.Run, objs: seq<TagCache.Obj>, call: Call, c: seq<int>)
    requires |c| == 10
  {
    match call
    case List15(ret, idx) => Names(r, objs, ret, c[REF_ID]) && c[V1] == Unsigned(idx) && c[V2] == -1
    case List6(idx, ref) => Names(r, objs, ref, c[REF_ID]) && c[V1] == Unsigned(idx) && c[V2] == -1
    case List4 => c[REF_ID] == 0 && c[V1] == 0 && c[V2] == -1
    case ListI5(idx, ref) => Names(r, objs, ref, c[REF_ID]) && c[V1] == Unsigned(idx) && c[V2] == -1
    case List14(ret) => Names(r, objs, ret, c[REF_ID]) && c[V1] == 0 && c[V2] == -1
    case List5(succ, ref) => Names(r, objs, ref, c[REF_ID]) && (c[V1] == 1 <==> succ) && 0 <= c[V1] <= 1 && c[V2] == -1
    case Map15(ret, key) =>
      Names(r, objs, ret, c[REF_ID]) && Names(r, objs, ret, c[V1]) && Names(r, objs, key, c[V2])
    case Map4 => c[REF_ID] == 0 && c[V1] == 0 && c[V2] == 0
    case Map5(other) => Names(r, objs, other, c[REF_ID]) && c[V1] == 0 && c[V2] == 0
    case Map16(ret, key, value) =>
      Names(r, objs, ret, c[REF_ID]) && Names(r, objs, value, c[V1]) && Names(r, objs, key, c[V2])
  }

  /** An index as it shows in the table: -1 as 4294967295. */
  function Unsigned(idx: Jint): int { if idx >= 0 then idx else 0x1_0000_0000 + idx }

  /** What the translated members of one record are named by. */
  ghost predicate NamesAll(r: TagCache.Run, objs: seq<TagCache.Obj>, log: seq<Write>, time: U64) {
    && QueryLog(log, 0, time) == 0
    && forall tag: int :: Names(r, objs, tag, QueryLog(log, Low32(tag), time))
  }

  lemma {:induction false} ReferenceColumns(r: TagCache.Run, objs: seq<TagCache.Obj>, log: seq<Write>, e: Event, line: LineRecord)
    requires e.Op? && NamesAll(r, objs, log, e.time)
    ensures Columns(r, objs, e.call, Data4Sql(TranslatedRow(log, Row(Emission.RecordOf(e), line))))
    ensures Names(r, objs, e.holder, Data4Sql(TranslatedRow(log, Row(Emission.RecordOf(e), line)))[HOLDER_ID])
  {
  }

  /** The other columns: the call's own numbers, and the line, class and nothing else of the call site. */
  predicate PlainColumns(e: Event, l: Event, c: seq<int>)
    requires e.Op? && l.Line? && |c| == 10
  {
    && c[TIMESTAMP] == e.time && c[SIZE_THEN] == Unsigned(e.size)
    && c[CONTAINER_ID] == e.cid % TWO_16 && c[OPERATION_ID] == e.copid % TWO_16
    && c[LINE_NUMBER] == l.line % TWO_16 && c[CLASS_NAME_ID] == l.className % TWO_16
  }

  /** All ten columns of the row of call `e` with call site `l`. */
  ghost predicate RowFor(r: TagCache.Run, objs: seq<TagCache.Obj>, e: Event, l: Event, c: seq<int>) {
    && e.Op? && l.Line? && |c| == 10
    && Names(r, objs, e.holder, c[HOLDER_ID]) && Columns(r, objs, e.call, c) && PlainColumns(e, l, c)
  }

  lemma {:induction false} PlainColumnsKept(log: seq<Write>, e: Event, l: Event)
    requires e.Op? && l.Line?
    ensures PlainColumns(e, l, Data4Sql(TranslatedRow(log, Row(Emission.RecordOf(e), LineOf(l)))))
    ensures LineOf(l).time == l.time
  {
  }

  /**
   From an instrumented call and its call site to their row.  Whatever threads did
   meanwhile, the holder, reference, key and value columns name the very objects the
   call was about, by the ids of their own ALLOCATIONS rows, or are unknown where the
   lookup was -1; the line and class columns are the call site's, where they fit 16 bits.
   */
  lemma {:induction false} RowNamesObjects(
    r: TagCache.Run, objs: seq<TagCache.Obj>, news: seq<NewRecord>, moves: seq<GcRecord>, e: Event, l: Event)
    requires TagCache.IsRun(r) && TagsJoin.Recorded(r, objs, news) && TagsJoin.Clear(moves, news) && e.Op? && l.Line?
    ensures var log := InsertMoves(InsertNews(EMPTY, news), moves).log;
            RowFor(r, objs, e, l, Data4Sql(TranslatedRow(log, Row(Emission.RecordOf(e), LineOf(l)))))
    ensures 0 <= l.line < TWO_16 ==> LineOf(l).line == l.line
    ensures 0 <= l.className < TWO_16 ==> LineOf(l).className == l.className
  {
    var log := InsertMoves(InsertNews(EMPTY, news), moves).log;
    MintedTagsAreTagged(r, objs, news, moves);
    TagJoinsItsAllocation(news, moves, e.time);
    forall tag: int ensures Names(r, objs, tag, QueryLog(log, Low32(tag), e.time)) {
      TagNames(r, objs, news, moves, tag, e.time);
    }
    ReferenceColumns(r, objs, log, e, LineOf(l));
    PlainColumnsKept(log, e, l);
  }

  ghost predicate RowsFor(r: TagCache.Run, objs: seq<TagCache.Obj>, es: seq<Event>, ps: seq<nat>, rows: seq<Row>) {
    && |rows| == |ps|
    && forall n {:trigger rows[n]} :: 0 <= n < |rows| ==>
         ps[n] + 1 < |es| && RowFor(r, objs, es[ps[n]], es[ps[n] + 1], Data4Sql(rows[n])) && rows[n].line.time == es[ps[n] + 1].time
  }

  /**
   The loaded table of a thread whose calls are each followed by their line: one row
   for each sampled call, in order, every column saying what that call and that line
   said, with objects by the ids of their own ALLOCATIONS rows.
   */
  lemma {:induction false} LoadedRowsTellTheirCalls(
    r: TagCache.Run, objs: seq<TagCache.Obj>, news: seq<NewRecord>, moves: seq<GcRecord>,
    es: seq<Event>, lists: seq<Bytes>, maps: seq<Bytes>, lines: seq<Bytes>)
    returns (ps: seq<nat>)
    requires TagCache.IsRun(r) && TagsJoin.Recorded(r, objs, news) && TagsJoin.Clear(moves, news)
    requires Clocked(es, -1) && CallThenLine(es) && Streams(lists, maps, lines, Emissions(START, es))
    ensures Ascending(ps) && SampledFrom(es, 0, ps)
    ensures var log := InsertMoves(InsertNews(EMPTY, news), moves).log;
            RowsFor(r, objs, es, ps,
                    Loaded(FileOf(lines), TranslatedFile(log, LIST, FileOf(lists)), TranslatedFile(log, MAP, FileOf(maps))))
  {
    var log := InsertMoves(InsertNews(EMPTY, news), moves).log;
    RunOfCallsIsExact(es, lists, maps, lines, log);
    assert es[0..] == es;
    ps := OwnRowsExactly(es, 0);
    var own, rows := OwnRows(es), TranslatedRows(log, OwnRows(es));
    forall n | 0 <= n < |rows|
      ensures ps[n] + 1 < |es| && RowFor(r, objs, es[ps[n]], es[ps[n] + 1], Data4Sql(rows[n]))
      ensures rows[n].line.time == es[ps[n] + 1].time
    {
      RowsTranslatedAt(log, own, n);
      assert RowOfCall(es, own[n], ps[n]);
      assert own[n] == Row(Emission.RecordOf(es[ps[n]]), LineOf(es[ps[n] + 1]));
      RowNamesObjects(r, objs, news, moves, es[ps[n]], es[ps[n] + 1]);
    }
  }
}
