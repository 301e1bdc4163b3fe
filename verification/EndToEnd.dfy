/** The whole pipeline for one thread. */
module EndToEnd {
  import opened Machine
  import opened Layout
  import opened Records
  import opened Merge
  import opened Matcher
  import opened Emission
  import opened ThreadTracer
  import opened AddrMap
  import opened StdioTransform
  import opened Translation
  import opened Identity
  import opened Sequences

  // Emission and recording, address translation of the container files in place, loading,
  // merging and matching.

  /** A container file after addr2id; a file that does not exist is not created. */
  function TranslatedFile(log: seq<Write>, kind: OpKind, file: Option<Bytes>): Option<Bytes> {
    if file.None? then None else Some(Mapped(Accessors(log, MembersOf(kind)), OP_SIZE, file.value))
  }

  /** What the loader inserts for the thread: threads without a line file are not loaded. */
  function Loaded(lineFile: Option<Bytes>, listFile: Option<Bytes>, mapFile: Option<Bytes>): seq<Row> {
    if lineFile.None? then []
    else Match(Merged(OpsOf(LIST, listFile), OpsOf(MAP, mapFile)), LinesIn(lineFile.value))
  }

  function TranslatedRow(log: seq<Write>, row: Row): Row { Row(Translated(log, row.op), row.line) }

  function TranslatedRows(log: seq<Write>, rows: seq<Row>): (r: seq<Row>)
    ensures |r| == |rows|
  {
    if rows == [] then [] else [TranslatedRow(log, rows[0])] + TranslatedRows(log, rows[1..])
  }

  // ---------------------------------------------- translation commutes with loading

  lemma {:induction false} OfKindTranslated(log: seq<Write>, kind: OpKind, rs: seq<OpRecord>)
    ensures OfKind(kind, TranslatedAll(log, rs)) == TranslatedAll(log, OfKind(kind, rs))
  {
    if rs != [] {
      assert TranslatedAll(log, rs)[1..] == TranslatedAll(log, rs[1..]);
      OfKindTranslated(log, kind, rs[1..]);
    }
  }

  lemma {:induction false} TakeTranslated(log: seq<Write>, ops: seq<OpRecord>, t: U64)
    requires ops != []
    ensures var r := Take(ops, t);
            Take(TranslatedAll(log, ops), t) == Taken(Translated(log, r.op), TranslatedAll(log, r.rest))
  {
    var all := TranslatedAll(log, ops);
    assert all[1..] == TranslatedAll(log, ops[1..]);
    if |ops| > 1 && Time(ops[0]) < Time(ops[1]) < t {
      TakeTranslated(log, ops[1..], t);
    }
  }

  /** Times survive translation, so the matcher pairs the translated operations alike. */
  lemma {:induction false} MatchTranslated(log: seq<Write>, ops: seq<OpRecord>, lines: seq<LineRecord>)
    ensures Match(TranslatedAll(log, ops), lines) == TranslatedRows(log, Match(ops, lines))
    decreases |lines|
  {
    if ops != [] && lines != [] {
      var step := MatchOne(ops, lines[0]);
      TakeTranslated(log, ops, lines[0].time);
      MatchTranslated(log, step.rest, lines[1..]);
      var later := Match(step.rest, lines[1..]);
      assert step.found != [] ==> (step.found + later)[1..] == later;
      assert step.found == [] ==> step.found + later == later;
    }
  }

  /** Rewriting the file in place, in blocks of whatever size, translates it. */
  lemma {:induction false} InPlaceTranslates(log: seq<Write>, kind: OpKind, images: seq<Bytes>, n: nat)
    requires Sized(images, OP_SIZE) && OP_SIZE <= Span(n, OP_SIZE)
    ensures var fs := Accessors(log, MembersOf(kind));
            Rewritten(fs, OP_SIZE, Span(n, OP_SIZE), Concat(images)) == Mapped(fs, OP_SIZE, Concat(images))
  {
    ConcatLength(images, OP_SIZE);
    DivOf(|images|, 0, OP_SIZE);
    WholeRecordsMapped(Accessors(log, MembersOf(kind)), OP_SIZE, n, Concat(images));
  }

  // ------------------------------------------------------------ the theorem

  lemma {:induction false} FileParses(log: seq<Write>, kind: OpKind, images: seq<Bytes>, rs: seq<OpRecord>)
    requires OpImages(kind, images, rs)
    ensures OpsOf(kind, TranslatedFile(log, kind, FileOf(images))) == TranslatedAll(log, rs)
  {
    if images != [] { TranslatesFile(log, kind, images, rs); }
  }

  /**
   From producer to consumer, through the files.  Whatever a thread's run of calls,
   whatever bytes its records were assembled over and whatever the address map: if
   the emitted timestamps increase, the loader inserts exactly one row per emitted
   line that has an emitted operation since the previous emitted line, carrying the
   latest such operation with its addresses translated at its own time.
   */
  lemma {:induction false} PipelineIsExact(out: seq<Emitted>, lists: seq<Bytes>, maps: seq<Bytes>, lines: seq<Bytes>, log: seq<Write>)
    requires InOrder(out, -1) && Streams(lists, maps, lines, out)
    ensures Loaded(FileOf(lines), TranslatedFile(log, LIST, FileOf(lists)), TranslatedFile(log, MAP, FileOf(maps))) ==
            TranslatedRows(log, PairUp(out, None))
  {
    var ops := OpsAmong(out);
    FileParses(log, LIST, lists, OfKind(LIST, ops));
    FileParses(log, MAP, maps, OfKind(MAP, ops));
    MergedTranslated(log, out);
    if lines == [] {
      NothingToPair(out, None);
    } else {
      assert Concat(lines) + [] == Concat(lines);
      FileOfLines(lines, [], LinesAmong(out));
      MatchTranslated(log, ops, LinesAmong(out));
      MatchPairsUp(out, None, -1);
    }
  }

  /** The same over a whole run: of any calls with increasing timestamps, under any flags. */
  lemma {:induction false} RunIsExact(es: seq<Event>, lists: seq<Bytes>, maps: seq<Bytes>, lines: seq<Bytes>, log: seq<Write>)
    requires Clocked(es, -1) && Streams(lists, maps, lines, Emissions(START, es))
    ensures Loaded(FileOf(lines), TranslatedFile(log, LIST, FileOf(lists)), TranslatedFile(log, MAP, FileOf(maps))) ==
            TranslatedRows(log, PairUp(Emissions(START, es), None))
  {
    EmissionsInOrder(START, es, -1);
    PipelineIsExact(Emissions(START, es), lists, maps, lines, log);
  }

  /** And if every call is followed by its own line: one row per sampled call, with that call's line. */
  lemma {:induction false} RunOfCallsIsExact(es: seq<Event>, lists: seq<Bytes>, maps: seq<Bytes>, lines: seq<Bytes>, log: seq<Write>)
    requires Clocked(es, -1) && CallThenLine(es) && Streams(lists, maps, lines, Emissions(START, es))
    ensures Loaded(FileOf(lines), TranslatedFile(log, LIST, FileOf(lists)), TranslatedFile(log, MAP, FileOf(maps))) ==
            TranslatedRows(log, OwnRows(es))
  {
    RunIsExact(es, lists, maps, lines, log);
    EveryCallGetsItsLine(START, es);
  }

  lemma {:induction false} MergedTranslated(log: seq<Write>, out: seq<Emitted>)
    requires InOrder(out, -1)
    ensures var ops := OpsAmong(out);
            Merged(TranslatedAll(log, OfKind(LIST, ops)), TranslatedAll(log, OfKind(MAP, ops))) == TranslatedAll(log, ops)
  {
    var ops := OpsAmong(out);
    var all := TranslatedAll(log, ops);
    OpsInOrder(out, -1);
    OfKindTranslated(log, LIST, ops);
    OfKindTranslated(log, MAP, ops);
    assert forall i :: 0 <= i < |all| ==> Time(all[i]) == Time(ops[i]) && KindOf(all[i]) == KindOf(ops[i]);
    MergeUnique(all);
  }

  lemma {:induction false} RowsTranslatedAt(log: seq<Write>, rows: seq<Row>, n: nat)
    requires n < |rows|
    ensures TranslatedRows(log, rows)[n] == TranslatedRow(log, rows[n])
  {
    if |rows| > 1 { RowsTranslatedAt(log, rows[1..], if n > 0 then n - 1 else 0); }
  }

  /**
   With tags as the native side mints them, a row's holder id is the id of that
   holder's own row in the ALLOCATIONS table.
   */
  lemma {:induction false} RowsJoinAllocations(rows: seq<Row>, n: nat, news: seq<NewRecord>, moves: seq<GcRecord>, i: nat)
    requires Tagged(news, moves) && n < |rows| && i < |news| && rows[n].op.br.holder == news[i].addr
    ensures var log := InsertMoves(InsertNews(EMPTY, news), moves).log;
            var row := TranslatedRows(log, rows)[n];
            && row.op.br.holder == RowsFrom(1, news)[i].id
            && RowsFrom(1, news)[i].line == news[i].line && RowsFrom(1, news)[i].className == news[i].className
  {
    var log := InsertMoves(InsertNews(EMPTY, news), moves).log;
    RowsTranslatedAt(log, rows, n);
    TagJoinsItsAllocation(news, moves, rows[n].op.br.time);
    RowPerAllocation(news);
  }

  // -------------------------------------------------------- the whole chain

  /** Three files holding, record for record, what a run emits. */
  ghost predicate LeftBehind(listFile: Option<Bytes>, mapFile: Option<Bytes>, lineFile: Option<Bytes>, out: seq<Emitted>) {
    exists lists, maps, lines :: Streams(lists, maps, lines, out)
                                 && listFile == FileOf(lists) && mapFile == FileOf(maps) && lineFile == FileOf(lines)
  }

  /** A thread's life: its calls in order, then its exit.  What memory records are assembled over is arbitrary. */
  method TraceThread(es: seq<Event>, limit: nat)
    returns (listFile: Option<Bytes>, mapFile: Option<Bytes>, lineFile: Option<Bytes>)
    requires limit >= 1
    ensures LeftBehind(listFile, mapFile, lineFile, Emissions(START, es))
  {
    var tracer := new Tracer(limit);
    PerformAll(tracer, es);
    listFile, mapFile, lineFile := tracer.Exit();
  }

  method PerformAll(tracer: Tracer, es: seq<Event>)
    requires tracer.Valid() && tracer.events == []
    modifies tracer, tracer.listRecorder, tracer.listRecorder.buffer, tracer.mapRecorder, tracer.mapRecorder.buffer
    modifies tracer.lineRecorder, tracer.lineRecorder.buffer
    ensures tracer.Valid() && tracer.events == es
  {
    for i := 0 to |es|
      invariant tracer.Valid() && tracer.events == es[..i]
    {
      Perform(tracer, es[i]);
      assert es[..i + 1] == es[..i] + [es[i]];
    }
    assert es[..|es|] == es;
  }

  method Perform(tracer: Tracer, e: Event)
    requires tracer.Valid()
    modifies tracer, tracer.listRecorder, tracer.listRecorder.buffer, tracer.mapRecorder, tracer.mapRecorder.buffer
    modifies tracer.lineRecorder, tracer.lineRecorder.buffer
    ensures tracer.Valid() && tracer.events == old(tracer.events) + [e]
  {
    match e
    case Op(_, _, _, _, _, _) =>
      var memory := Memory(OP_SIZE);
      tracer.AddContainerRecord(e, memory);
    case Line(_, _, _) =>
      var memory := Memory(LINE_SIZE);
      tracer.AddContainerLineInfoRecord(e, memory);
    case EnableRecord => tracer.SetEnable(e);
    case DisableRecord => tracer.SetEnable(e);
    case UnsetIsRightAfter => tracer.UnsetRightAfter();
  }

  method Memory(size: nat) returns (memory: Bytes)
    ensures |memory| == size
  {
    var zeros: Bytes := seq(size, _ => 0);
    assert |zeros| == size;
    memory :| |memory| == size;
  }

  /** Translation of one of the thread's files, if it exists. */
  method TranslateFile(log: seq<Write>, kind: OpKind, file: Option<Bytes>, ghost images: seq<Bytes>) returns (translated: Option<Bytes>)
    requires file == FileOf(images) && Sized(images, OP_SIZE)
    ensures translated == TranslatedFile(log, kind, file)
  {
    if file.None? {
      return None;
    }
    ConcatWhole(images, OP_SIZE);
    var content := ProcessDataFile(log, kind, file.value);
    return Some(content);
  }

  /** From a thread's calls to the rows the loader inserts for it. */
  method TraceTranslateLoad(es: seq<Event>, limit: nat, log: seq<Write>) returns (rows: seq<Row>)
    requires limit >= 1 && Clocked(es, -1)
    ensures rows == TranslatedRows(log, PairUp(Emissions(START, es), None))
    ensures CallThenLine(es) ==> rows == TranslatedRows(log, OwnRows(es))
  {
    var listFile, mapFile, lineFile := TraceThread(es, limit);
    ghost var lists, maps, lines :| Streams(lists, maps, lines, Emissions(START, es))
      && listFile == FileOf(lists) && mapFile == FileOf(maps) && lineFile == FileOf(lines);
    listFile := TranslateFile(log, LIST, listFile, lists);
    mapFile := TranslateFile(log, MAP, mapFile, maps);
    RunIsExact(es, lists, maps, lines, log);
    if CallThenLine(es) { RunOfCallsIsExact(es, lists, maps, lines, log); }
    if lineFile.None? {
      return [];
    }
    rows := MatchRecords(lineFile.value, listFile, mapFile);
  }
}
