/** What the transformers of addr2id do to the container files. */
module Translation {
  import opened Machine
  import opened AddrMap
  import opened Layout
  import opened Records
  import opened StdioTransform
  import opened Sequences

  // Each address member of a record is replaced by the id the address map answers for it
  // at the time of the record.

  /** A 32-bit member of a record, and its time. */
  function Word(b: Bytes, l: Leaf): U32
    requires l.width == 4 && l.offset + 4 <= |b|
  {
    PowValues();
    ReadAt(b, l)
  }

  function TimeIn(b: Bytes): U64
    requires |b| == OP_SIZE
  {
    PowValues();
    ReadAt(b, TIME)
  }

  /** The callback registered for one address member: `func(val) = am.query(func(val), value(val))`. */
  function Accessor(log: seq<Write>, l: Leaf): Transformer {
    (b: Bytes) =>
      if |b| == OP_SIZE && l.width == 4 && l.offset + 4 <= OP_SIZE then
        Splice(b, l.offset, Encode(QueryLog(log, Word(b, l), TimeIn(b)), 4))
      else b
  }

  function Accessors(log: seq<Write>, members: seq<Leaf>): seq<Transformer> {
    if members == [] then []
    else Accessors(log, members[..|members| - 1]) + [Accessor(log, members[|members| - 1])]
  }

  predicate Clear(l: Leaf, m: Leaf) {
    l.offset + l.width <= m.offset || m.offset + m.width <= l.offset
  }

  /** Distinct address members of an operation record, none of them its time. */
  ghost predicate AddressMembers(members: seq<Leaf>) {
    && (forall i :: 0 <= i < |members| ==>
          members[i].width == 4 && members[i].offset + 4 <= OP_SIZE && Clear(members[i], TIME))
    && (forall i, j :: 0 <= i < j < |members| ==> Clear(members[i], members[j]))
  }

  lemma {:induction false} AccessorKeeps(log: seq<Write>, l: Leaf)
    ensures Keeps(Accessor(log, l), OP_SIZE)
  {
  }

  lemma {:induction false} AccessorsKeep(log: seq<Write>, members: seq<Leaf>)
    ensures |Accessors(log, members)| == |members| && AllKeep(Accessors(log, members), OP_SIZE)
  {
    if members != [] {
      var k := |members| - 1;
      AccessorsKeep(log, members[..k]);
      AccessorKeeps(log, members[k]);
    }
  }

  lemma {:induction false} AccessorWrites(log: seq<Write>, l: Leaf, b: Bytes)
    requires |b| == OP_SIZE && l.width == 4 && l.offset + 4 <= OP_SIZE
    ensures |Accessor(log, l)(b)| == OP_SIZE
    ensures Word(Accessor(log, l)(b), l) == QueryLog(log, Word(b, l), TimeIn(b))
  {
    PowValues();
    var id := QueryLog(log, Word(b, l), TimeIn(b));
    SpliceHere(b, l.offset, Encode(id, 4));
    DecodeEncode(id, 4);
  }

  lemma {:induction false} AccessorSpares(log: seq<Write>, l: Leaf, b: Bytes, m: Leaf)
    requires |b| == OP_SIZE && l.width == 4 && l.offset + 4 <= OP_SIZE
    requires m.offset + m.width <= OP_SIZE && Clear(l, m)
    ensures ReadAt(Accessor(log, l)(b), m) == ReadAt(b, m)
  {
    SpliceElsewhere(b, l.offset, Encode(QueryLog(log, Word(b, l), TimeIn(b)), 4), m);
  }

  lemma {:induction false} LastMember(members: seq<Leaf>)
    requires members != [] && AddressMembers(members)
    ensures var k := |members| - 1;
            && AddressMembers(members[..k]) && members[k] !in members[..k]
            && (forall m :: m in members <==> m in members[..k] || m == members[k])
            && (forall i :: 0 <= i < k ==> Clear(members[..k][i], members[k]))
            && (forall m :: m in members[..k] ==> Clear(members[k], m) && m.width == 4 && m.offset + 4 <= OP_SIZE)
  {
    var k := |members| - 1;
    assert members == members[..k] + [members[k]];
  }

  /**
   After all callbacks, in whatever order they were registered, each registered
   member holds the id of the address it held, and every other member what it held.
   */
  lemma {:induction false} AllAccessors(log: seq<Write>, members: seq<Leaf>, b: Bytes, m: Leaf)
    requires |b| == OP_SIZE && AddressMembers(members) && m.offset + m.width <= OP_SIZE
    requires m in members || forall i :: 0 <= i < |members| ==> Clear(members[i], m)
    ensures |Compose(Accessors(log, members), b)| == OP_SIZE
    ensures m in members ==> m.width == 4
    ensures ReadAt(Compose(Accessors(log, members), b), m) ==
            if m in members then QueryLog(log, Word(b, m), TimeIn(b)) else ReadAt(b, m)
  {
    if members != [] {
      var k := |members| - 1;
      var l, before := members[k], Compose(Accessors(log, members[..k]), b);
      LastMember(members);
      ComposeLast(log, members, b);
      AllAccessors(log, members[..k], b, TIME);
      AllAccessors(log, members[..k], b, l);
      if m == l {
        AccessorWrites(log, l, before);
      } else {
        AllAccessors(log, members[..k], b, m);
        AccessorSpares(log, l, before, m);
      }
    }
  }

  lemma {:induction false} ComposeLast(log: seq<Write>, members: seq<Leaf>, b: Bytes)
    requires members != []
    ensures var k := |members| - 1;
            Compose(Accessors(log, members), b) == Accessor(log, members[k])(Compose(Accessors(log, members[..k]), b))
  {
    var fs := Accessors(log, members);
    assert fs[..|fs| - 1] == Accessors(log, members[..|members| - 1]);
  }

  // ---------------------------------------------------------- on records

  /** The record the loader finds in a translated file. */
  function Translated(log: seq<Write>, r: OpRecord): OpRecord {
    match r
    case ListOp(br, idx) => ListOp(TranslatedBr(log, br), idx)
    case MapOp(br, value, key) =>
      MapOp(TranslatedBr(log, br), QueryLog(log, value, br.time), QueryLog(log, key, br.time))
  }

  function TranslatedBr(log: seq<Write>, br: Container): Container {
    br.(holder := QueryLog(log, br.holder, br.time), ref := QueryLog(log, br.ref, br.time))
  }

  /** The members registered for a file of either kind, in the program's order. */
  function MembersOf(kind: OpKind): seq<Leaf> {
    if kind.LIST? then [HOLDER, REF] else [KEY, VALUE, HOLDER, REF]
  }

  /** Any registration order of those members gives the translated record. */
  lemma {:induction false} TranslatesRecord(log: seq<Write>, kind: OpKind, members: seq<Leaf>, b: Bytes)
    requires |b| == OP_SIZE && AddressMembers(members)
    requires forall m :: m in members <==> m in MembersOf(kind)
    ensures |Compose(Accessors(log, members), b)| == OP_SIZE
    ensures ParseOp(kind, Compose(Accessors(log, members), b)) == Translated(log, ParseOp(kind, b))
  {
    ContainerAfter(log, kind, members, b);
    if kind.LIST? {
      MemberAfter(log, kind, members, b, IDX);
    } else {
      MemberAfter(log, kind, members, b, VALUE);
      MemberAfter(log, kind, members, b, KEY);
    }
  }

  lemma {:induction false} ContainerAfter(log: seq<Write>, kind: OpKind, members: seq<Leaf>, b: Bytes)
    requires |b| == OP_SIZE && AddressMembers(members)
    requires forall m :: m in members <==> m in MembersOf(kind)
    ensures |Compose(Accessors(log, members), b)| == OP_SIZE
    ensures ParseContainer(Compose(Accessors(log, members), b)) == TranslatedBr(log, ParseContainer(b))
  {
    MemberAfter(log, kind, members, b, HOLDER);
    MemberAfter(log, kind, members, b, REF);
    PlainAfter(log, kind, members, b);
  }

  lemma {:induction false} PlainAfter(log: seq<Write>, kind: OpKind, members: seq<Leaf>, b: Bytes)
    requires |b| == OP_SIZE && AddressMembers(members)
    requires forall m :: m in members <==> m in MembersOf(kind)
    ensures var after := Compose(Accessors(log, members), b);
            && |after| == OP_SIZE
            && ReadAt(after, CID) == ReadAt(b, CID) && ReadAt(after, COPID) == ReadAt(b, COPID)
            && ReadAt(after, TIME) == ReadAt(b, TIME) && ReadAt(after, SIZE) == ReadAt(b, SIZE)
  {
    MemberAfter(log, kind, members, b, CID);
    MemberAfter(log, kind, members, b, COPID);
    MemberAfter(log, kind, members, b, TIME);
    MemberAfter(log, kind, members, b, SIZE);
  }

  predicate MemberOf(kind: OpKind, m: Leaf) {
    m in CONTAINER_MEMBERS || (if kind.LIST? then m == IDX else m == VALUE || m == KEY)
  }

  lemma {:induction false} MemberAfter(log: seq<Write>, kind: OpKind, members: seq<Leaf>, b: Bytes, m: Leaf)
    requires |b| == OP_SIZE && AddressMembers(members) && MemberOf(kind, m)
    requires forall x :: x in members <==> x in MembersOf(kind)
    ensures m.offset + m.width <= OP_SIZE
    ensures |Compose(Accessors(log, members), b)| == OP_SIZE
    ensures m in MembersOf(kind) ==> m.width == 4
    ensures ReadAt(Compose(Accessors(log, members), b), m) ==
            if m in MembersOf(kind) then QueryLog(log, Word(b, m), TimeIn(b)) else ReadAt(b, m)
  {
    if m !in members {
      forall i | 0 <= i < |members| ensures Clear(members[i], m) { assert members[i] in members; }
    }
    AllAccessors(log, members, b, m);
  }

  lemma {:induction false} MembersAreAddresses(kind: OpKind)
    ensures AddressMembers(MembersOf(kind))
  {
  }

  // ------------------------------------------------------------ on files

  function TranslatedAll(log: seq<Write>, rs: seq<OpRecord>): seq<OpRecord> {
    seq(|rs|, i requires 0 <= i < |rs| => Translated(log, rs[i]))
  }

  lemma {:induction false} MappedImages(fs: seq<Transformer>, images: seq<Bytes>)
    requires AllKeep(fs, OP_SIZE) && Sized(images, OP_SIZE)
    ensures var now := seq(|images|, i requires 0 <= i < |images| => Compose(fs, images[i]));
            Mapped(fs, OP_SIZE, Concat(images)) == Concat(now)
  {
    var now := seq(|images|, i requires 0 <= i < |images| => Compose(fs, images[i]));
    MappedRecords(fs, OP_SIZE, images, now);
  }

  /** Translating a file in place translates each of its records, and only that. */
  lemma {:induction false} TranslatesFile(log: seq<Write>, kind: OpKind, images: seq<Bytes>, rs: seq<OpRecord>)
    requires OpImages(kind, images, rs)
    ensures OpsIn(kind, Mapped(Accessors(log, MembersOf(kind)), OP_SIZE, Concat(images))) == TranslatedAll(log, rs)
  {
    var fs := Accessors(log, MembersOf(kind));
    AccessorsKeep(log, MembersOf(kind));
    MembersAreAddresses(kind);
    assert Sized(images, OP_SIZE);
    MappedImages(fs, images);
    var now := seq(|images|, i requires 0 <= i < |images| => Compose(fs, images[i]));
    forall i | 0 <= i < |rs|
      ensures |now[i]| == OP_SIZE && ParseOp(kind, now[i]) == TranslatedAll(log, rs)[i]
    {
      TranslatesRecord(log, kind, MembersOf(kind), images[i]);
    }
    FileOfOps(kind, now, [], TranslatedAll(log, rs));
    assert Concat(now) + [] == Concat(now);
  }

  const BUFFER_SIZE: nat := 1024

  /** One file of `process_all_data_file`: register a callback per address member, then rewrite in place. */
  method ProcessDataFile(log: seq<Write>, kind: OpKind, content: Bytes) returns (translated: Bytes)
    ensures translated == Rewritten(Accessors(log, MembersOf(kind)), OP_SIZE, Span(BUFFER_SIZE, OP_SIZE), content)
    ensures |content| % OP_SIZE == 0 ==> translated == Mapped(Accessors(log, MembersOf(kind)), OP_SIZE, content)
  {
    SpanIsProduct(BUFFER_SIZE, OP_SIZE);
    var reader := new RecordReader(content, OP_SIZE, BUFFER_SIZE);
    var members := MembersOf(kind);
    for i := 0 to |members|
      invariant fresh(reader) && fresh(reader.file) && fresh(reader.buffer) && reader.Valid()
      invariant reader.size == OP_SIZE && reader.buffer.Length == BUFFER_SIZE
      invariant reader.file.content == content && reader.file.pos == 0 && !reader.file.eof
      invariant reader.transformers == Accessors(log, members[..i])
    {
      assert members[..i + 1][..i] == members[..i];
      AccessorKeeps(log, members[i]);
      reader.RegisterTransformer(Accessor(log, members[i]));
    }
    assert members[..|members|] == members;
    reader.TransformLocal();
    translated := reader.file.content;
    if |content| % OP_SIZE == 0 {
      WholeRecordsMapped(reader.transformers, OP_SIZE, BUFFER_SIZE, content);
    }
  }
}
