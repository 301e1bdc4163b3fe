/**
 The container records: as the native side declares them (cinst/native/recorder.hpp)
 and as the loader declares them again (cinst/scripts/build_container_db.py).
 */
module Records {
  import opened Machine
  import opened Layout
  import opened Sequences

  datatype Container = Container(holder: U32, ref: U32, cid: U16, copid: U16, time: U64, size: U32)

  datatype OpRecord =
    | ListOp(br: Container, idxOrSucc: U32)
    | MapOp(br: Container, value: U32, key: U32)

  datatype LineRecord = LineRecord(line: U16, className: U16, time: U64)

  // ------------------------------------------------------ the native structures

  const ADDR: CType := Scalar(4)
  const NATIVE_CONTAINER: CType :=
    Struct(Field(ADDR, Field(ADDR, Field(Scalar(2), Field(Scalar(2), Field(Scalar(8), Field(Scalar(4), End)))))))
  const NATIVE_LIST: CType := Struct(Field(NATIVE_CONTAINER, Field(Scalar(4), End)))
  const NATIVE_MAP: CType := Struct(Field(NATIVE_CONTAINER, Field(ADDR, Field(ADDR, End))))
  const NATIVE_LINE: CType := Struct(Field(Scalar(2), Field(Scalar(2), Field(Scalar(8), End))))

  // ------------------------------------------------------ the ctypes structures

  const C_UINT16: CType := Scalar(2)
  const C_UINT32: CType := Scalar(4)
  const C_UINT64: CType := Scalar(8)
  const CTYPES_CONTAINER: CType :=
    Struct(Field(C_UINT32, Field(C_UINT32, Field(C_UINT16, Field(C_UINT16, Field(C_UINT64, Field(C_UINT32, End)))))))
  const CTYPES_LIST: CType := Struct(Field(CTYPES_CONTAINER, Field(C_UINT32, End)))
  const CTYPES_MAP: CType := Struct(Field(CTYPES_CONTAINER, Field(C_UINT32, Field(C_UINT32, End))))
  const CTYPES_LINE: CType := Struct(Field(C_UINT16, Field(C_UINT16, Field(C_UINT64, End))))

  // ---------------------------------------------------- where the members are

  const HOLDER := Leaf(0, 4)
  const REF := Leaf(4, 4)
  const CID := Leaf(8, 2)
  const COPID := Leaf(10, 2)
  const TIME := Leaf(16, 8)
  const SIZE := Leaf(24, 4)
  const IDX := Leaf(32, 4)
  const VALUE := Leaf(32, 4)
  const KEY := Leaf(36, 4)
  const CONTAINER_MEMBERS := [HOLDER, REF, CID, COPID, TIME, SIZE]

  const LINE := Leaf(0, 2)
  const CLASS := Leaf(2, 2)
  const LINE_TIME := Leaf(8, 8)

  const OP_SIZE: nat := 40
  const LINE_SIZE: nat := 16

  /** A scalar member placed at `at`, rounded up to its width. */
  lemma {:induction false} ScalarField(fs: Fields, w: nat, at: nat, start: nat)
    requires fs.Field? && fs.ctype == Scalar(w) && start == RoundUp(at, w)
    ensures AlignAll(fs) == Max(w, AlignAll(fs.rest))
    ensures EndOf(fs, at) == EndOf(fs.rest, start + w)
    ensures FieldLeaves(fs, 0, at) == [Leaf(start, w)] + FieldLeaves(fs.rest, 0, start + w)
  {
  }

  lemma {:induction false} ContainerLayout(c: CType, f1: Fields, f2: Fields, f3: Fields, f4: Fields, f5: Fields, f6: Fields)
    requires f6 == Field(Scalar(4), End) && f5 == Field(Scalar(8), f6) && f4 == Field(Scalar(2), f5)
    requires f3 == Field(Scalar(2), f4) && f2 == Field(Scalar(4), f3) && f1 == Field(Scalar(4), f2) && c == Struct(f1)
    ensures Align(c) == 8 && Size(c) == 32
    ensures Leaves(c, 0) == CONTAINER_MEMBERS
  {
    ScalarField(f6, 4, 24, 24);
    ScalarField(f5, 8, 12, 16);
    ScalarField(f4, 2, 10, 10);
    ScalarField(f3, 2, 8, 8);
    ScalarField(f2, 4, 4, 4);
    ScalarField(f1, 4, 0, 0);
  }

  lemma {:induction false} NativeContainer()
    ensures Align(NATIVE_CONTAINER) == 8 && Size(NATIVE_CONTAINER) == 32
    ensures Leaves(NATIVE_CONTAINER, 0) == CONTAINER_MEMBERS
  {
    var f := NATIVE_CONTAINER.fields;
    ContainerLayout(NATIVE_CONTAINER, f, f.rest, f.rest.rest, f.rest.rest.rest, f.rest.rest.rest.rest,
                    f.rest.rest.rest.rest.rest);
  }

  /** A structure that begins with a container record goes on after that record's own padding. */
  lemma {:induction false} ContainerFirst(c: CType, f: Fields)
    requires Align(c) == 8 && Size(c) == 32 && Leaves(c, 0) == CONTAINER_MEMBERS
    ensures AlignAll(Field(c, f)) == Max(8, AlignAll(f)) && EndOf(Field(c, f), 0) == EndOf(f, 32)
    ensures FieldLeaves(Field(c, f), 0, 0) == CONTAINER_MEMBERS + FieldLeaves(f, 0, 32)
  {
  }

  lemma {:induction false} ListLayout(c: CType, f: Fields)
    requires Align(c) == 8 && Size(c) == 32 && Leaves(c, 0) == CONTAINER_MEMBERS
    requires f == Field(Scalar(4), End)
    ensures Size(Struct(Field(c, f))) == OP_SIZE && Leaves(Struct(Field(c, f)), 0) == CONTAINER_MEMBERS + [IDX]
  {
    ContainerFirst(c, f);
    ScalarField(f, 4, 32, 32);
  }

  lemma {:induction false} MapLayout(c: CType, f: Fields, g: Fields)
    requires Align(c) == 8 && Size(c) == 32 && Leaves(c, 0) == CONTAINER_MEMBERS
    requires g == Field(Scalar(4), End) && f == Field(Scalar(4), g)
    ensures Size(Struct(Field(c, f))) == OP_SIZE && Leaves(Struct(Field(c, f)), 0) == CONTAINER_MEMBERS + [VALUE, KEY]
  {
    ContainerFirst(c, f);
    ScalarField(f, 4, 32, 32);
    ScalarField(g, 4, 36, 36);
  }

  /** Where the native structures' members lie; the nested record's tail padding is kept. */
  lemma {:induction false} NativeLayouts()
    ensures Size(NATIVE_LIST) == OP_SIZE && Leaves(NATIVE_LIST, 0) == CONTAINER_MEMBERS + [IDX]
    ensures Size(NATIVE_MAP) == OP_SIZE && Leaves(NATIVE_MAP, 0) == CONTAINER_MEMBERS + [VALUE, KEY]
    ensures Size(NATIVE_LINE) == LINE_SIZE && Leaves(NATIVE_LINE, 0) == [LINE, CLASS, LINE_TIME]
  {
    NativeContainer();
    ListLayout(NATIVE_CONTAINER, NATIVE_LIST.fields.rest);
    MapLayout(NATIVE_CONTAINER, NATIVE_MAP.fields.rest, NATIVE_MAP.fields.rest.rest);
    LineLayout(NATIVE_LINE.fields, NATIVE_LINE.fields.rest, NATIVE_LINE.fields.rest.rest);
  }

  lemma {:induction false} LineLayout(f1: Fields, f2: Fields, f3: Fields)
    requires f3 == Field(Scalar(8), End) && f2 == Field(Scalar(2), f3) && f1 == Field(Scalar(2), f2)
    ensures Size(Struct(f1)) == LINE_SIZE && Leaves(Struct(f1), 0) == [LINE, CLASS, LINE_TIME]
  {
    ScalarField(f3, 8, 4, 8);
    ScalarField(f2, 2, 2, 2);
    ScalarField(f1, 2, 0, 0);
  }

  /** The loader's declarations, written independently, put every member in the same place. */
  lemma {:induction false} CtypesLayouts()
    ensures Size(CTYPES_LIST) == OP_SIZE && Leaves(CTYPES_LIST, 0) == Leaves(NATIVE_LIST, 0)
    ensures Size(CTYPES_MAP) == OP_SIZE && Leaves(CTYPES_MAP, 0) == Leaves(NATIVE_MAP, 0)
    ensures Size(CTYPES_LINE) == LINE_SIZE && Leaves(CTYPES_LINE, 0) == Leaves(NATIVE_LINE, 0)
  {
    NativeLayouts();
  }

  // ------------------------------------------------------- writing and reading

  lemma {:induction false} PowValues()
    ensures Pow256(2) == TWO_16 && Pow256(4) == TWO_32 && Pow256(8) == TWO_64
  {
    assert Pow256(1) == 0x100 && Pow256(3) == 0x100_0000;
    assert Pow256(5) == 0x100_0000_0000 && Pow256(6) == 0x1_0000_0000_0000 && Pow256(7) == 0x100_0000_0000_0000;
  }

  /** The two record structures a container buffer can be read with. */
  datatype OpKind = LIST | MAP

  function KindOf(r: OpRecord): OpKind { if r.ListOp? then LIST else MAP }

  function Native(kind: OpKind): CType { if kind.LIST? then NATIVE_LIST else NATIVE_MAP }

  function OpValues(r: OpRecord): seq<nat> {
    [r.br.holder, r.br.ref, r.br.cid, r.br.copid, r.br.time, r.br.size] +
    if r.ListOp? then [r.idxOrSucc] else [r.value, r.key]
  }

  /** The structure's bytes once its members are assigned; `memory` is what was there before. */
  function OpImage(r: OpRecord, memory: Bytes): (image: Bytes)
    requires |memory| == OP_SIZE
    ensures |image| == OP_SIZE
  {
    NativeLayouts();
    LeavesApart(Native(KindOf(r)), 0);
    Store(memory, Leaves(Native(KindOf(r)), 0), OpValues(r))
  }

  function LineImage(r: LineRecord, memory: Bytes): (image: Bytes)
    requires |memory| == LINE_SIZE
    ensures |image| == LINE_SIZE
  {
    NativeLayouts();
    LeavesApart(NATIVE_LINE, 0);
    Store(memory, Leaves(NATIVE_LINE, 0), [r.line, r.className, r.time])
  }

  function ParseContainer(b: Bytes): Container
    requires |b| == OP_SIZE
  {
    PowValues();
    Container(ReadAt(b, HOLDER), ReadAt(b, REF), ReadAt(b, CID), ReadAt(b, COPID), ReadAt(b, TIME), ReadAt(b, SIZE))
  }

  /** `struct.from_buffer_copy` */
  function ParseOp(kind: OpKind, b: Bytes): OpRecord
    requires |b| == OP_SIZE
  {
    PowValues();
    match kind
    case LIST => ListOp(ParseContainer(b), ReadAt(b, IDX))
    case MAP => MapOp(ParseContainer(b), ReadAt(b, VALUE), ReadAt(b, KEY))
  }

  function ParseLine(b: Bytes): LineRecord
    requires |b| == LINE_SIZE
  {
    PowValues();
    LineRecord(ReadAt(b, LINE), ReadAt(b, CLASS), ReadAt(b, LINE_TIME))
  }

  lemma {:induction false} OpMember(r: OpRecord, memory: Bytes, i: nat)
    requires |memory| == OP_SIZE && i < |OpValues(r)|
    ensures var ls := CONTAINER_MEMBERS + if r.ListOp? then [IDX] else [VALUE, KEY];
            ReadAt(OpImage(r, memory), ls[i]) == OpValues(r)[i]
  {
    NativeLayouts();
    PowValues();
    LeavesApart(Native(KindOf(r)), 0);
    LoadStore(memory, Leaves(Native(KindOf(r)), 0), OpValues(r), i);
  }

  /** Where a container record's members lie in its bytes, member by member. */
  lemma {:induction false} ImageMembers(r: OpRecord, memory: Bytes)
    requires |memory| == OP_SIZE
    ensures var b := OpImage(r, memory);
            && Decode(b[0..4]) == r.br.holder && Decode(b[4..8]) == r.br.ref
            && Decode(b[8..10]) == r.br.cid && Decode(b[10..12]) == r.br.copid
            && Decode(b[16..24]) == r.br.time && Decode(b[24..28]) == r.br.size
            && (r.ListOp? ==> Decode(b[32..36]) == r.idxOrSucc)
            && (r.MapOp? ==> Decode(b[32..36]) == r.value && Decode(b[36..40]) == r.key)
  {
    OpMember(r, memory, 0);
    OpMember(r, memory, 1);
    OpMember(r, memory, 2);
    OpMember(r, memory, 3);
    OpMember(r, memory, 4);
    OpMember(r, memory, 5);
    OpMember(r, memory, 6);
    if r.MapOp? { OpMember(r, memory, 7); }
  }

  /** Reading an image back gives the record, whatever its padding. */
  lemma {:induction false} OpRoundTrip(r: OpRecord, memory: Bytes)
    requires |memory| == OP_SIZE
    ensures ParseOp(KindOf(r), OpImage(r, memory)) == r
  {
    ImageMembers(r, memory);
  }

  lemma {:induction false} LineImageMembers(r: LineRecord, memory: Bytes)
    requires |memory| == LINE_SIZE
    ensures var b := LineImage(r, memory);
            Decode(b[0..2]) == r.line && Decode(b[2..4]) == r.className && Decode(b[8..16]) == r.time
  {
    NativeLayouts();
    PowValues();
    var ls := Leaves(NATIVE_LINE, 0);
    LeavesApart(NATIVE_LINE, 0);
    LoadStore(memory, ls, [r.line, r.className, r.time], 0);
    LoadStore(memory, ls, [r.line, r.className, r.time], 1);
    LoadStore(memory, ls, [r.line, r.className, r.time], 2);
  }

  lemma {:induction false} LineRoundTrip(r: LineRecord, memory: Bytes)
    requires |memory| == LINE_SIZE
    ensures ParseLine(LineImage(r, memory)) == r
  {
    LineImageMembers(r, memory);
  }

  // ------------------------------------------------------------------- files

  /** The complete records of a buffer; a trailing part of one is not read. */
  function OpsIn(kind: OpKind, buf: Bytes): seq<OpRecord> {
    seq(|buf| / OP_SIZE, i requires 0 <= i < |buf| / OP_SIZE => ParseOp(kind, Chunk(buf, OP_SIZE, i)))
  }

  function LinesIn(buf: Bytes): seq<LineRecord> {
    seq(|buf| / LINE_SIZE, i requires 0 <= i < |buf| / LINE_SIZE => ParseLine(Chunk(buf, LINE_SIZE, i)))
  }

  ghost predicate OpImages(kind: OpKind, images: seq<Bytes>, rs: seq<OpRecord>) {
    && |images| == |rs|
    && forall i :: 0 <= i < |rs| ==> |images[i]| == OP_SIZE && ParseOp(kind, images[i]) == rs[i]
  }

  ghost predicate LineImages(images: seq<Bytes>, rs: seq<LineRecord>) {
    && |images| == |rs|
    && forall i :: 0 <= i < |rs| ==> |images[i]| == LINE_SIZE && ParseLine(images[i]) == rs[i]
  }

  /** A file of images, whole or cut off inside the last one, parses to its records. */
  lemma {:induction false} FileOfOps(kind: OpKind, images: seq<Bytes>, tail: Bytes, rs: seq<OpRecord>)
    requires OpImages(kind, images, rs) && |tail| < OP_SIZE
    ensures OpsIn(kind, Concat(images) + tail) == rs
  {
    ConcatCount(images, tail, OP_SIZE);
    forall i | 0 <= i < |rs|
      ensures OpsIn(kind, Concat(images) + tail)[i] == rs[i]
    {
      ConcatChunk(images, tail, OP_SIZE, i);
    }
  }

  lemma {:induction false} FileOfLines(images: seq<Bytes>, tail: Bytes, rs: seq<LineRecord>)
    requires LineImages(images, rs) && |tail| < LINE_SIZE
    ensures LinesIn(Concat(images) + tail) == rs
  {
    ConcatCount(images, tail, LINE_SIZE);
    forall i | 0 <= i < |rs|
      ensures LinesIn(Concat(images) + tail)[i] == rs[i]
    {
      ConcatChunk(images, tail, LINE_SIZE, i);
    }
  }
}
