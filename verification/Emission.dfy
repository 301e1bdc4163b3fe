/** What one instrumented thread emits. */
module Emission {
  import opened Machine
  import opened Records
  import opened Merge
  import opened Matcher
  import opened Sequences

  // Container calls and call-site calls (cinst/native/native.cpp), gated by the `enable`
  // and `is_sampled_container` flags, written by three recorders.

  /** A JVMTI tag: a signed 64-bit number. */
  type Tag = x: int | -0x8000_0000_0000_0000 <= x < 0x8000_0000_0000_0000
  type Jint = x: int | -0x8000_0000 <= x < 0x8000_0000

  /** `is_sampled_object`: the sign bit is NOT_SAMPLED_MASK. */
  predicate Sampled(tag: Tag): (sampled: bool)
    ensures sampled <==> tag > 0
  {
    tag != 0 && !(tag < 0) && tag != -1
  }

  function Low32(x: int): U32 { x % TWO_32 }

  function Low16(x: int): U16 { x % TWO_16 }

  /** The addContainerRecord family, with the tags the lookups of its references answered. */
  datatype Call =
    | List15(ret: Tag, idx: Jint)
    | List6(idx: Jint, ref: Tag)
    | List4
    | ListI5(idx: Jint, ref: Tag)
    | List14(ret: Tag)
    | List5(succ: bool, ref: Tag)
    | Map15(ret: Tag, key: Tag)
    | Map4
    | Map5(other: Tag)
    | Map16(ret: Tag, key: Tag, value: Tag)

  datatype Event =
    | Op(call: Call, holder: Tag, size: Jint, cid: Jint, copid: Jint, time: U64)
    | Line(line: Jint, className: Jint, time: U64)
    | EnableRecord
    | DisableRecord
    | UnsetIsRightAfter

  /** The record a call assembles. */
  function RecordOf(e: Event): OpRecord
    requires e.Op?
  {
    var br := (ref: Tag) => Container(Low32(e.holder), Low32(ref), Low16(e.cid), Low16(e.copid), e.time, Low32(e.size));
    match e.call
    case List15(ret, idx) => ListOp(br(ret), Low32(idx))
    case List6(idx, ref) => ListOp(br(ref), Low32(idx))
    case List4 => ListOp(br(0), 0)
    case ListI5(idx, ref) => ListOp(br(ref), Low32(idx))
    case List14(ret) => ListOp(br(ret), 0)
    case List5(succ, ref) => ListOp(br(ref), if succ then 1 else 0)
    case Map15(ret, key) => MapOp(br(ret), Low32(ret), Low32(key))
    case Map4 => MapOp(br(0), 0, 0)
    case Map5(other) => MapOp(br(other), 0, 0)
    case Map16(ret, key, value) => MapOp(br(ret), Low32(value), Low32(key))
  }

  function LineOf(e: Event): LineRecord
    requires e.Line?
  {
    LineRecord(Low16(e.line), Low16(e.className), e.time)
  }

  // ------------------------------------------------------------- the flags

  datatype Flags = Flags(enable: bool, isSampledContainer: bool, isRightAfter: bool)

  const START: Flags := Flags(true, true, false)

  datatype Emitted = EmittedOp(op: OpRecord) | EmittedLine(line: LineRecord)

  function NextFlags(f: Flags, e: Event): Flags {
    match e
    case Op(_, holder, _, _, _, _) => if !f.enable then f else f.(isSampledContainer := Sampled(holder))
    case Line(_, _, _) => if !f.enable || !f.isSampledContainer then f else f.(isRightAfter := true)
    case EnableRecord => f.(enable := true)
    case DisableRecord => f.(enable := false)
    case UnsetIsRightAfter => f.(isRightAfter := false)
  }

  function Output(f: Flags, e: Event): seq<Emitted> {
    match e
    case Op(_, holder, _, _, _, _) => if f.enable && Sampled(holder) then [EmittedOp(RecordOf(e))] else []
    case Line(_, _, _) => if f.enable && f.isSampledContainer then [EmittedLine(LineOf(e))] else []
    case _ => []
  }

  /** Everything a run emits, in order, from given flags. */
  function Emissions(f: Flags, es: seq<Event>): seq<Emitted>
    decreases |es|
  {
    if es == [] then [] else Output(f, es[0]) + Emissions(NextFlags(f, es[0]), es[1..])
  }

  function FlagsAfter(f: Flags, es: seq<Event>): Flags
    decreases |es|
  {
    if es == [] then f else FlagsAfter(NextFlags(f, es[0]), es[1..])
  }

  lemma {:induction false} OneMore(f: Flags, es: seq<Event>, e: Event)
    ensures Emissions(f, es + [e]) == Emissions(f, es) + Output(FlagsAfter(f, es), e)
    ensures Output(FlagsAfter(f, es), e) == [] ==> Emissions(f, es + [e]) == Emissions(f, es)
    ensures FlagsAfter(f, es + [e]) == NextFlags(FlagsAfter(f, es), e)
    decreases |es|
  {
    if es == [] {
      assert [e][1..] == [];
      assert es + [e] == [e];
    } else {
      assert (es + [e])[1..] == es[1..] + [e];
      OneMore(NextFlags(f, es[0]), es[1..], e);
    }
  }

  // ------------------------------------------------- what the flags amount to

  /** No disable since the last enable. */
  ghost predicate EnabledAt(es: seq<Event>, i: nat)
    requires i <= |es|
  {
    forall j :: 0 <= j < i && es[j].DisableRecord? ==> exists k :: j < k < i && es[k].EnableRecord?
  }

  /** A container call that went through while recording was enabled. */
  ghost predicate Noticed(es: seq<Event>, i: nat, sampled: bool)
    requires i < |es|
  {
    es[i].Op? && EnabledAt(es, i) && Sampled(es[i].holder) == sampled
  }

  /** The latest container call noticed, if any, was on a sampled holder. */
  ghost predicate OnSampledAt(es: seq<Event>, i: nat)
    requires i <= |es|
  {
    forall j :: 0 <= j < i && Noticed(es, j, false) ==> exists k :: j < k < i && Noticed(es, k, true)
  }

  /** A line has been emitted since the flag was last unset. */
  ghost predicate RightAfterAt(es: seq<Event>, i: nat)
    requires i <= |es|
  {
    exists j: nat :: j < i && LineGoesOut(es, j) && NotUnsetSince(es, j, i)
  }

  ghost predicate LineGoesOut(es: seq<Event>, j: nat)
    requires j < |es|
  {
    es[j].Line? && EnabledAt(es, j) && OnSampledAt(es, j)
  }

  ghost predicate NotUnsetSince(es: seq<Event>, j: nat, i: nat)
    requires i <= |es|
  {
    forall k :: j < k < i ==> !es[k].UnsetIsRightAfter?
  }

  lemma {:induction false} RightAfterStep(es: seq<Event>, i: nat)
    requires i < |es|
    ensures RightAfterAt(es, i + 1) <==> LineGoesOut(es, i) || (RightAfterAt(es, i) && !es[i].UnsetIsRightAfter?)
  {
    if LineGoesOut(es, i) {
      assert NotUnsetSince(es, i, i + 1);
    } else if j: nat :| j < i && LineGoesOut(es, j) && NotUnsetSince(es, j, i) && !es[i].UnsetIsRightAfter? {
      assert NotUnsetSince(es, j, i + 1);
    }
    if RightAfterAt(es, i + 1) && !LineGoesOut(es, i) {
      var j: nat :| j < i + 1 && LineGoesOut(es, j) && NotUnsetSince(es, j, i + 1);
      assert NotUnsetSince(es, j, i);
    }
  }

  lemma {:induction false} EnabledStep(es: seq<Event>, i: nat)
    requires i < |es|
    ensures EnabledAt(es, i + 1) <==> es[i].EnableRecord? || (EnabledAt(es, i) && !es[i].DisableRecord?)
  {
    if EnabledAt(es, i + 1) && !es[i].EnableRecord? {
      forall j | 0 <= j < i && es[j].DisableRecord?
        ensures exists k :: j < k < i && es[k].EnableRecord?
      {
        var k :| j < k < i + 1 && es[k].EnableRecord?;
      }
    }
  }

  lemma {:induction false} OnSampledStep(es: seq<Event>, i: nat)
    requires i < |es|
    ensures OnSampledAt(es, i + 1) <==> Noticed(es, i, true) || (OnSampledAt(es, i) && !Noticed(es, i, false))
  {
    if OnSampledAt(es, i + 1) && !Noticed(es, i, true) {
      forall j | 0 <= j < i && Noticed(es, j, false)
        ensures exists k :: j < k < i && Noticed(es, k, true)
      {
        var k :| j < k < i + 1 && Noticed(es, k, true);
      }
    }
  }

  lemma {:induction false} FlagsStep(es: seq<Event>, i: nat)
    requires i < |es|
    ensures FlagsAfter(START, es[..i + 1]) == NextFlags(FlagsAfter(START, es[..i]), es[i])
  {
    OneMore(START, es[..i], es[i]);
    assert es[..i + 1] == es[..i] + [es[i]];
  }

  /** The three flags, as properties of the run so far. */
  lemma {:induction false} FlagsMean(es: seq<Event>, i: nat)
    requires i <= |es|
    ensures FlagsAfter(START, es[..i]).enable == EnabledAt(es, i)
    ensures FlagsAfter(START, es[..i]).isSampledContainer == OnSampledAt(es, i)
    ensures FlagsAfter(START, es[..i]).isRightAfter == RightAfterAt(es, i)
  {
    if i == 0 {
      assert es[..0] == [];
    } else {
      FlagsMean(es, i - 1);
      EnabledStep(es, i - 1);
      OnSampledStep(es, i - 1);
      RightAfterStep(es, i - 1);
      FlagsStep(es, i - 1);
    }
  }

  /**
   What is emitted when: a container call exactly while recording is enabled and
   on a sampled holder, a call site exactly while recording is enabled and the
   latest call noticed was on a sampled holder.
   */
  lemma {:induction false} EmittedExactly(es: seq<Event>, i: nat)
    requires i < |es|
    ensures Emissions(START, es[..i + 1]) == Emissions(START, es[..i]) +
              if es[i].Op? && EnabledAt(es, i) && Sampled(es[i].holder) then [EmittedOp(RecordOf(es[i]))]
              else if es[i].Line? && EnabledAt(es, i) && OnSampledAt(es, i) then [EmittedLine(LineOf(es[i]))]
              else []
  {
    FlagsMean(es, i);
    OneMore(START, es[..i], es[i]);
    assert es[..i + 1] == es[..i] + [es[i]];
  }

  // ----------------------------------------------------- the emitted streams

  function OpsAmong(out: seq<Emitted>): seq<OpRecord> {
    if out == [] then [] else (if out[0].EmittedOp? then [out[0].op] else []) + OpsAmong(out[1..])
  }

  function LinesAmong(out: seq<Emitted>): seq<LineRecord> {
    if out == [] then [] else (if out[0].EmittedLine? then [out[0].line] else []) + LinesAmong(out[1..])
  }

  function When(e: Emitted): U64 { if e.EmittedOp? then Time(e.op) else e.line.time }

  /** Timestamps strictly increase along the run, all after `last`. */
  predicate InOrder(out: seq<Emitted>, last: int) {
    out == [] || (last < When(out[0]) && InOrder(out[1..], When(out[0])))
  }

  /**
   The specification of the pipeline: each emitted line that has an emitted
   operation since the previous emitted line, with the latest such operation.
   */
  function PairUp(out: seq<Emitted>, pending: Option<OpRecord>): seq<Row> {
    if out == [] then []
    else match out[0]
      case EmittedOp(op) => PairUp(out[1..], Some(op))
      case EmittedLine(line) =>
        (if pending.Some? then [Row(pending.value, line)] else []) + PairUp(out[1..], None)
  }

  lemma {:induction false} LaterThan(out: seq<Emitted>, last: int)
    requires InOrder(out, last)
    ensures OpsAmong(out) != [] ==> last < Time(OpsAmong(out)[0])
    ensures LinesAmong(out) != [] ==> last < LinesAmong(out)[0].time
  {
    if out != [] { LaterThan(out[1..], When(out[0])); }
  }

  lemma {:induction false} NothingToPair(out: seq<Emitted>, pending: Option<OpRecord>)
    requires LinesAmong(out) == [] || (pending == None && OpsAmong(out) == [])
    ensures PairUp(out, pending) == []
  {
    if out != [] {
      NothingToPair(out[1..], if out[0].EmittedOp? then Some(out[0].op) else None);
    }
  }

  function With(pending: Option<OpRecord>, ops: seq<OpRecord>): seq<OpRecord> {
    if pending.Some? then [pending.value] + ops else ops
  }

  /** A newer operation before the next line displaces the pending one. */
  lemma {:induction false} Displaced(p: OpRecord, ops: seq<OpRecord>, lines: seq<LineRecord>)
    requires ops != [] && Time(p) < Time(ops[0]) && (lines != [] ==> Time(ops[0]) < lines[0].time)
    ensures Match([p] + ops, lines) == Match(ops, lines)
  {
    if lines != [] { TakeStep(p, ops, lines[0].time); }
  }

  /** A line takes the pending operation when the next one is later than the line. */
  lemma {:induction false} Paired(p: OpRecord, ops: seq<OpRecord>, line: LineRecord, lines: seq<LineRecord>)
    requires Time(p) < line.time && (ops != [] ==> line.time < Time(ops[0]))
    ensures Match([p] + ops, [line] + lines) == [Row(p, line)] + Match(ops, lines)
  {
    TakeStep(p, ops, line.time);
    assert ([line] + lines)[1..] == lines;
  }

  lemma {:induction false} Skipped(ops: seq<OpRecord>, line: LineRecord, lines: seq<LineRecord>)
    requires ops != [] ==> line.time < Time(ops[0])
    ensures Match(ops, [line] + lines) == Match(ops, lines)
  {
    assert ([line] + lines)[1..] == lines;
  }

  /** The matcher, over the operations and lines of an ordered run, pairs it up as specified. */
  lemma {:induction false} MatchPairsUp(out: seq<Emitted>, pending: Option<OpRecord>, last: int)
    requires InOrder(out, last) && (pending.Some? ==> Time(pending.value) <= last)
    ensures Match(With(pending, OpsAmong(out)), LinesAmong(out)) == PairUp(out, pending)
  {
    if out != [] {
      var e, rest := out[0], out[1..];
      LaterThan(rest, When(e));
      match e
      case EmittedOp(op) =>
        MatchPairsUp(rest, Some(op), When(e));
        assert OpsAmong(out) == [op] + OpsAmong(rest) && LinesAmong(out) == LinesAmong(rest);
        if pending.Some? { Displaced(pending.value, OpsAmong(out), LinesAmong(out)); }
      case EmittedLine(line) =>
        MatchPairsUp(rest, None, When(e));
        assert OpsAmong(out) == OpsAmong(rest) && LinesAmong(out) == [line] + LinesAmong(rest);
        if pending.Some? {
          Paired(pending.value, OpsAmong(rest), line, LinesAmong(rest));
        } else {
          Skipped(OpsAmong(rest), line, LinesAmong(rest));
        }
    }
  }

  lemma {:induction false} OpsInOrder(out: seq<Emitted>, last: int)
    requires InOrder(out, last)
    ensures Sorted(OpsAmong(out)) && ListFirst(OpsAmong(out))
    ensures forall r :: r in OpsAmong(out) ==> last < Time(r)
  {
    if out != [] {
      OpsInOrder(out[1..], When(out[0]));
      if out[0].EmittedOp? { SortedCons(out[0].op, OpsAmong(out[1..])); }
    }
  }

  /**
   From producer to consumer: splitting an ordered run into its list, map and line
   streams, merging the first two by time and matching gives exactly the specified rows.
   */
  lemma {:induction false} StreamsPairUp(out: seq<Emitted>)
    requires InOrder(out, -1)
    ensures var ops := OpsAmong(out);
            Match(Merged(OfKind(LIST, ops), OfKind(MAP, ops)), LinesAmong(out)) == PairUp(out, None)
  {
    OpsInOrder(out, -1);
    MergeUnique(OpsAmong(out));
    MatchPairsUp(out, None, -1);
  }

  // ------------------------------------------------------- a thread's clock

  /** Calls of the run carry strictly increasing timestamps, all after `last`, emitted or not. */
  predicate Clocked(es: seq<Event>, last: int)
    decreases |es|
  {
    es == [] ||
    match es[0]
    case Op(_, _, _, _, _, time) => last < time && Clocked(es[1..], time)
    case Line(_, _, time) => last < time && Clocked(es[1..], time)
    case _ => Clocked(es[1..], last)
  }

  lemma {:induction false} EmissionsInOrder(f: Flags, es: seq<Event>, last: int)
    requires Clocked(es, last)
    ensures InOrder(Emissions(f, es), last)
    decreases |es|
  {
    if es != [] {
      var g, tail := NextFlags(f, es[0]), es[1..];
      var now := if es[0].Op? || es[0].Line? then es[0].time else last;
      EmissionsInOrder(g, tail, now);
      if Output(f, es[0]) == [] {
        assert Emissions(f, es) == Emissions(g, tail);
      } else {
        assert Emissions(f, es)[1..] == Emissions(g, tail);
      }
    }
  }

  // ------------------------------------------------ when every call has its line

  /** Recording stays enabled and each container call is followed by its own line. */
  predicate CallThenLine(es: seq<Event>) {
    es == [] || (|es| >= 2 && es[0].Op? && es[1].Line? && CallThenLine(es[2..]))
  }

  /** One row per sampled call, with that call's own line. */
  function OwnRows(es: seq<Event>): seq<Row>
    requires CallThenLine(es)
  {
    if es == [] then []
    else (if Sampled(es[0].holder) then [Row(RecordOf(es[0]), LineOf(es[1]))] else []) + OwnRows(es[2..])
  }

  function SampledCalls(es: seq<Event>): (marks: seq<bool>)
    ensures |marks| == |es|
    ensures forall i {:trigger marks[i]} :: 0 <= i < |es| ==> marks[i] == (es[i].Op? && es[i].holder > 0)
  {
    seq(|es|, i requires 0 <= i < |es| => es[i].Op? && Sampled(es[i].holder))
  }

  /** `row` is that of call `i`: its record, and the line after it with its line number, class and time. */
  ghost predicate RowOfCall(es: seq<Event>, row: Row, i: nat) {
    && i + 1 < |es| && es[i].Op? && es[i + 1].Line? && row.op == RecordOf(es[i])
    && row.line.line == es[i + 1].line % 0x1_0000 && row.line.className == es[i + 1].className % 0x1_0000
    && row.line.time == es[i + 1].time
  }

  ghost predicate RowsOfCalls(es: seq<Event>, rows: seq<Row>, ps: seq<nat>) {
    |rows| == |ps| && forall n {:trigger rows[n]} :: 0 <= n < |rows| ==> RowOfCall(es, rows[n], ps[n])
  }

  /** `ps` are exactly the sampled calls from event `k` on. */
  ghost predicate SampledFrom(es: seq<Event>, k: nat, ps: seq<nat>) {
    forall p: nat {:trigger p in ps} :: p in ps <==> k <= p < |es| && SampledCalls(es)[p]
  }

  lemma {:induction false} SampledFromBack(es: seq<Event>, k: nat, later: seq<nat>)
    requires k + 1 < |es| && es[k].Op? && es[k + 1].Line? && SampledFrom(es, k + 2, later)
    ensures SampledFrom(es, k, if es[k].holder > 0 then [k] + later else later)
  {
    var ps := if es[k].holder > 0 then [k] + later else later;
    forall p: nat ensures p in ps <==> k <= p < |es| && SampledCalls(es)[p] {
      assert p in [k] + later <==> p == k || p in later;
    }
  }

  /** One row for each sampled call, in order, and none for any other. */
  lemma {:induction false} OwnRowsExactly(es: seq<Event>, k: nat) returns (ps: seq<nat>)
    requires k <= |es| && CallThenLine(es[k..])
    ensures RowsOfCalls(es, OwnRows(es[k..]), ps) && Ascending(ps) && SampledFrom(es, k, ps)
    decreases |es| - k
  {
    var rest := es[k..];
    if rest == [] {
      ps := [];
    } else {
      assert rest[2..] == es[k + 2..] && rest[0] == es[k] && rest[1] == es[k + 1];
      var later := OwnRowsExactly(es, k + 2);
      SampledFromBack(es, k, later);
      if Sampled(es[k].holder) {
        ps := [k] + later;
        OwnRowFirst(es, OwnRows(rest[2..]), later, k);
      } else {
        ps := later;
      }
    }
  }

  lemma {:induction false} OwnRowFirst(es: seq<Event>, rows: seq<Row>, later: seq<nat>, k: nat)
    requires RowsOfCalls(es, rows, later) && Ascending(later) && SampledFrom(es, k + 2, later)
    requires k + 1 < |es| && es[k].Op? && es[k + 1].Line?
    ensures RowsOfCalls(es, [Row(RecordOf(es[k]), LineOf(es[k + 1]))] + rows, [k] + later) && Ascending([k] + later)
  {
    var more, ps := [Row(RecordOf(es[k]), LineOf(es[k + 1]))] + rows, [k] + later;
    forall n | 0 <= n < |more| ensures RowOfCall(es, more[n], ps[n]) {
      if n > 0 { assert more[n] == rows[n - 1] && RowOfCall(es, rows[n - 1], later[n - 1]); }
    }
    forall i, j | 0 <= i < j < |ps| ensures ps[i] < ps[j] {
      if i == 0 { assert ps[j] == later[j - 1] && later[j - 1] in later; }
    }
  }

  /** Then every sampled operation gets its own call site and no line is left over. */
  lemma {:induction false} EveryCallGetsItsLine(f: Flags, es: seq<Event>)
    requires f.enable && CallThenLine(es)
    ensures PairUp(Emissions(f, es), None) == OwnRows(es)
    decreases |es|
  {
    if es != [] {
      var g := NextFlags(f, es[0]);
      var h := NextFlags(g, es[1]);
      var rest := es[2..];
      assert es[1..][1..] == rest && es[1..][0] == es[1];
      EveryCallGetsItsLine(h, rest);
      assert Emissions(f, es) == Output(f, es[0]) + (Output(g, es[1]) + Emissions(h, rest));
      if Sampled(es[0].holder) {
        var o, l, later := EmittedOp(RecordOf(es[0])), EmittedLine(LineOf(es[1])), Emissions(h, rest);
        assert Emissions(f, es) == [o] + ([l] + later);
        assert ([o] + ([l] + later))[1..] == [l] + later && ([l] + later)[1..] == later;
      } else {
        assert Emissions(f, es) == Emissions(h, rest);
      }
    }
  }
}
