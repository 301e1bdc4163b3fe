/** The thread-local flags and recorders behind the record calls of cinst/native/native.cpp. */
module ThreadTracer {
  import opened Machine
  import opened Layout
  import opened Records
  import opened Merge
  import opened Recorder
  import opened Emission
  import opened Sequences

  // ------------------------------------------------------ streams of a run

  /** The images three recorders hold for what a run emitted. */
  ghost predicate Streams(lists: seq<Bytes>, maps: seq<Bytes>, lines: seq<Bytes>, out: seq<Emitted>) {
    && OpImages(LIST, lists, OfKind(LIST, OpsAmong(out)))
    && OpImages(MAP, maps, OfKind(MAP, OpsAmong(out)))
    && LineImages(lines, LinesAmong(out))
  }

  lemma {:induction false} OfKindAppend(kind: OpKind, rs: seq<OpRecord>, r: OpRecord)
    ensures KindOf(r) == kind ==> OfKind(kind, rs + [r]) == OfKind(kind, rs) + [r]
    ensures KindOf(r) != kind ==> OfKind(kind, rs + [r]) == OfKind(kind, rs)
  {
    if rs == [] {
      OfKindCons(r, []);
      assert rs + [r] == [r] + [];
    } else {
      var x, tail := rs[0], rs[1..];
      OfKindAppend(kind, tail, r);
      OfKindCons(x, tail + [r]);
      assert rs + [r] == [x] + (tail + [r]);
    }
  }

  lemma {:induction false} AmongAppend(out: seq<Emitted>, e: Emitted)
    ensures OpsAmong(out + [e]) == OpsAmong(out) + if e.EmittedOp? then [e.op] else []
    ensures LinesAmong(out + [e]) == LinesAmong(out) + if e.EmittedLine? then [e.line] else []
    ensures e.EmittedLine? ==> OpsAmong(out + [e]) == OpsAmong(out)
    ensures e.EmittedOp? ==> LinesAmong(out + [e]) == LinesAmong(out)
  {
    if out == [] {
      assert out + [e] == [e] && [e][1..] == [];
    } else {
      assert (out + [e])[1..] == out[1..] + [e];
      AmongAppend(out[1..], e);
    }
  }

  lemma {:induction false} StreamsWithOp(lists: seq<Bytes>, maps: seq<Bytes>, lines: seq<Bytes>, out: seq<Emitted>, r: OpRecord, memory: Bytes)
    requires Streams(lists, maps, lines, out) && |memory| == OP_SIZE
    ensures r.ListOp? ==> Streams(lists + [OpImage(r, memory)], maps, lines, out + [EmittedOp(r)])
    ensures r.MapOp? ==> Streams(lists, maps + [OpImage(r, memory)], lines, out + [EmittedOp(r)])
  {
    AmongAppend(out, EmittedOp(r));
    OfKindAppend(LIST, OpsAmong(out), r);
    OfKindAppend(MAP, OpsAmong(out), r);
    if r.ListOp? {
      ImagesAppend(LIST, lists, OfKind(LIST, OpsAmong(out)), r, memory);
    } else {
      ImagesAppend(MAP, maps, OfKind(MAP, OpsAmong(out)), r, memory);
    }
  }

  lemma {:induction false} ImagesAppend(kind: OpKind, images: seq<Bytes>, rs: seq<OpRecord>, r: OpRecord, memory: Bytes)
    requires OpImages(kind, images, rs) && KindOf(r) == kind && |memory| == OP_SIZE
    ensures OpImages(kind, images + [OpImage(r, memory)], rs + [r])
  {
    OpRoundTrip(r, memory);
  }

  lemma {:induction false} StreamsWithLine(lists: seq<Bytes>, maps: seq<Bytes>, lines: seq<Bytes>, out: seq<Emitted>, r: LineRecord, memory: Bytes)
    requires Streams(lists, maps, lines, out) && |memory| == LINE_SIZE
    ensures Streams(lists, maps, lines + [LineImage(r, memory)], out + [EmittedLine(r)])
  {
    AmongAppend(out, EmittedLine(r));
    LineRoundTrip(r, memory);
  }

  /** The file a recorder leaves: none if it never recorded. */
  function FileOf(images: seq<Bytes>): Option<Bytes> {
    if images == [] then None else Some(Concat(images))
  }

  // ------------------------------------------------------------- the thread

  class Tracer {
    const listRecorder: BufferedRecorder
    const mapRecorder: BufferedRecorder
    const lineRecorder: BufferedRecorder
    var enable: bool
    var isSampledContainer: bool
    var isRightAfter: bool
    ghost var events: seq<Event>
    ghost var out: seq<Emitted>

    ghost predicate RecordersValid()
      reads listRecorder, listRecorder.buffer, mapRecorder, mapRecorder.buffer, lineRecorder, lineRecorder.buffer
    {
      && listRecorder.Valid() && mapRecorder.Valid() && lineRecorder.Valid()
      && listRecorder.size == OP_SIZE && mapRecorder.size == OP_SIZE && lineRecorder.size == LINE_SIZE
      && listRecorder != mapRecorder && listRecorder != lineRecorder && mapRecorder != lineRecorder
      && listRecorder.buffer != mapRecorder.buffer && listRecorder.buffer != lineRecorder.buffer
      && mapRecorder.buffer != lineRecorder.buffer
      && (listRecorder.fout.Some? ==> listRecorder.added != [])
      && (mapRecorder.fout.Some? ==> mapRecorder.added != [])
      && (lineRecorder.fout.Some? ==> lineRecorder.added != [])
    }

    /** The flags, and what the recorders hold, are those of the run so far. */
    ghost predicate Valid()
      reads this, listRecorder, listRecorder.buffer, mapRecorder, mapRecorder.buffer, lineRecorder, lineRecorder.buffer
    {
      && RecordersValid()
      && Flags(enable, isSampledContainer, isRightAfter) == FlagsAfter(START, events)
      && out == Emissions(START, events)
      && Streams(listRecorder.added, mapRecorder.added, lineRecorder.added, out)
    }

    constructor (limit: nat)
      requires limit >= 1
      ensures Valid() && events == []
      ensures fresh(listRecorder) && fresh(mapRecorder) && fresh(lineRecorder)
      ensures fresh(listRecorder.buffer) && fresh(mapRecorder.buffer) && fresh(lineRecorder.buffer)
    {
      listRecorder := new BufferedRecorder(limit, OP_SIZE);
      mapRecorder := new BufferedRecorder(limit, OP_SIZE);
      lineRecorder := new BufferedRecorder(limit, LINE_SIZE);
      enable, isSampledContainer, isRightAfter := true, true, false;
      events, out := [], [];
    }

    /** The addContainerRecord family; `memory` is the stack the record is assembled in. */
    method AddContainerRecord(e: Event, memory: Bytes)
      requires Valid() && e.Op? && |memory| == OP_SIZE
      modifies this, listRecorder, listRecorder.buffer, mapRecorder, mapRecorder.buffer
      ensures Valid() && events == old(events) + [e]
    {
      OneMore(START, events, e);
      events := events + [e];
      if !enable {
        return;
      }
      if !Sampled(e.holder) {
        isSampledContainer := false;
        return;
      }
      isSampledContainer := true;
      Record(RecordOf(e), memory);
      out := out + [EmittedOp(RecordOf(e))];
    }

    /** `listAndSetRecord.add(r)` or `mapRecord.add(r)` */
    method Record(r: OpRecord, memory: Bytes)
      requires RecordersValid() && |memory| == OP_SIZE
      requires Streams(listRecorder.added, mapRecorder.added, lineRecorder.added, out)
      modifies listRecorder, listRecorder.buffer, mapRecorder, mapRecorder.buffer
      ensures RecordersValid()
      ensures Streams(listRecorder.added, mapRecorder.added, lineRecorder.added, out + [EmittedOp(r)])
    {
      StreamsWithOp(listRecorder.added, mapRecorder.added, lineRecorder.added, out, r, memory);
      if r.ListOp? {
        listRecorder.Add(OpImage(r, memory));
      } else {
        mapRecorder.Add(OpImage(r, memory));
      }
    }

    method AddContainerLineInfoRecord(e: Event, memory: Bytes)
      requires Valid() && e.Line? && |memory| == LINE_SIZE
      modifies this, lineRecorder, lineRecorder.buffer
      ensures Valid() && events == old(events) + [e]
    {
      OneMore(START, events, e);
      events := events + [e];
      if !enable || !isSampledContainer {
        return;
      }
      var r := LineOf(e);
      StreamsWithLine(listRecorder.added, mapRecorder.added, lineRecorder.added, out, r, memory);
      out := out + [EmittedLine(r)];
      lineRecorder.Add(LineImage(r, memory));
      isRightAfter := true;
    }

    method SetEnable(e: Event)
      requires Valid() && (e.EnableRecord? || e.DisableRecord?)
      modifies this
      ensures Valid() && events == old(events) + [e]
    {
      OneMore(START, events, e);
      events := events + [e];
      enable := e.EnableRecord?;
    }

    method UnsetRightAfter()
      requires Valid()
      modifies this
      ensures Valid() && events == old(events) + [UnsetIsRightAfter]
    {
      OneMore(START, events, UnsetIsRightAfter);
      events := events + [UnsetIsRightAfter];
      isRightAfter := false;
    }

    /** Thread exit destroys the recorders; what remains of the run are its files. */
    method Exit() returns (listFile: Option<Bytes>, mapFile: Option<Bytes>, lineFile: Option<Bytes>)
      requires Valid()
      modifies listRecorder, mapRecorder, lineRecorder
      ensures Streams(listRecorder.added, mapRecorder.added, lineRecorder.added, Emissions(START, events))
      ensures listFile == FileOf(listRecorder.added) && mapFile == FileOf(mapRecorder.added)
      ensures lineFile == FileOf(lineRecorder.added)
    {
      listRecorder.Destroy();
      mapRecorder.Destroy();
      lineRecorder.Destroy();
      listFile, mapFile, lineFile := listRecorder.fout, mapRecorder.fout, lineRecorder.fout;
    }
  }
}
