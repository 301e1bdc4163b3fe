/**
 The order in which gc files are read.  Files none of which relocates into an
 address another relocates out of leave the very same representation behind,
 whichever is read first.
 */
module GcFileOrder {
  import opened Machine
  import opened AddrMap
  import opened Permutation
  import opened Sequences

  function SlotAt(log: seq<Write>, a: U32): Option<Slot> {
    var vs := VersionsOf(log, a);
    if vs == [] then None else Some(SlotOf(vs))
  }

  /** The same counter and, address by address, the same stored form. */
  ghost predicate SameState(s: Store, r: Store) {
    s.curId == r.curId && forall a: U32 :: SlotAt(s.log, a) == SlotAt(r.log, a)
  }

  function After(s: Store, m: GcRecord): Store { InsertMove(s, m.src, m.dst, m.time) }

  predicate Known(s: Store, m: GcRecord) { QueryLog(s.log, m.src, m.time) != UNKNOWN }

  predicate Independent(m: GcRecord, n: GcRecord) {
    m.dst != n.src && n.dst != m.src && (m.dst != n.dst || m.time != n.time)
  }

  // ------------------------------------------------------------ slots

  /** The stored form after one more version. */
  function Extended(o: Option<Slot>, v: Version): Slot {
    match o
    case None => Unique(v)
    case Some(Unique(u)) => Timed(Emplace([u], v))
    case Some(Timed(m)) => Timed(Emplace(m, v))
  }

  lemma {:induction false} SlotAfter(log: seq<Write>, w: Write, a: U32)
    ensures SlotAt(log + [w], a) ==
            if a == w.addr then Some(Extended(SlotAt(log, a), Version(w.time, w.id))) else SlotAt(log, a)
  {
    assert (log + [w])[..|log|] == log;
    var vs, v := VersionsOf(log, a), Version(w.time, w.id);
    assert (vs + [v])[..|vs|] == vs;
    if |vs| == 1 {
      assert vs[..0] == [] && TimeMapOf(vs) == [vs[0]];
    }
  }

  lemma {:induction false} SameSlotSameAnswer(log: seq<Write>, log': seq<Write>, a: U32, t: U64)
    requires SlotAt(log, a) == SlotAt(log', a)
    ensures QueryLog(log, a, t) == QueryLog(log', a, t)
  {
    var vs, vs' := VersionsOf(log, a), VersionsOf(log', a);
    if vs != [] {
      SlotAnswers(vs, t);
      SlotAnswers(vs', t);
    }
  }

  lemma {:induction false} LastOfOrdered(m: TimeMap)
    requires Ordered(m) && m != []
    ensures var k := |m| - 1;
            && m[k] in m && (forall v :: v in m ==> v == m[k] || v.time < m[k].time)
            && (forall v :: v in m[..k] <==> v in m && v != m[k])
  {
    var k := |m| - 1;
    assert m == m[..k] + [m[k]];
  }

  lemma {:induction false} OrderedUnique(m: TimeMap, n: TimeMap)
    requires Ordered(m) && Ordered(n) && forall v :: v in m <==> v in n
    ensures m == n
  {
    if m == [] {
      assert forall i :: 0 <= i < |n| ==> n[i] in n;
    } else {
      LastOfOrdered(m);
      assert n != [] by { assert m[0] in n; }
      LastOfOrdered(n);
      assert m[|m| - 1] == n[|n| - 1];
      OrderedUnique(m[..|m| - 1], n[..|n| - 1]);
      assert m == m[..|m| - 1] + [m[|m| - 1]] && n == n[..|n| - 1] + [n[|n| - 1]];
    }
  }

  lemma {:induction false} EmplaceCommutes(m: TimeMap, v: Version, w: Version)
    requires Ordered(m) && v.time != w.time
    ensures Emplace(Emplace(m, v), w) == Emplace(Emplace(m, w), v)
  {
    var mv, mw := Emplace(m, v), Emplace(m, w);
    EmplaceMeans(m, v);
    EmplaceMeans(m, w);
    EmplaceMeans(mv, w);
    EmplaceMeans(mw, v);
    assert HasTime(mv, w.time) <==> HasTime(m, w.time);
    assert HasTime(mw, v.time) <==> HasTime(m, v.time);
    OrderedUnique(Emplace(mv, w), Emplace(mw, v));
  }

  lemma {:induction false} ExtendedCommutes(vs: seq<Version>, v: Version, w: Version)
    requires v.time != w.time
    ensures var o := if vs == [] then None else Some(SlotOf(vs));
            Extended(Some(Extended(o, v)), w) == Extended(Some(Extended(o, w)), v)
  {
    if vs == [] {
      EmplaceCommutes([], v, w);
      assert Emplace([], v) == [v] && Emplace([], w) == [w];
    } else if |vs| == 1 {
      EmplaceCommutes([vs[0]], v, w);
    } else {
      EmplaceCommutes(TimeMapOf(vs), v, w);
    }
  }

  // ------------------------------------------------------- two relocations

  lemma {:induction false} WritesCommute(s: Store, v: Write, w: Write)
    requires v.addr != w.addr || v.time != w.time
    ensures SameState(Store(s.log + [v] + [w], s.curId), Store(s.log + [w] + [v], s.curId))
  {
    forall a: U32
      ensures SlotAt(s.log + [v] + [w], a) == SlotAt(s.log + [w] + [v], a)
    {
      SlotAfter(s.log, v, a);
      SlotAfter(s.log, w, a);
      SlotAfter(s.log + [v], w, a);
      SlotAfter(s.log + [w], v, a);
      if a == v.addr == w.addr {
        ExtendedCommutes(VersionsOf(s.log, a), Version(v.time, v.id), Version(w.time, w.id));
      }
    }
  }

  /** A relocation into another address leaves a source as it was. */
  lemma {:induction false} SourceUndisturbed(s: Store, m: GcRecord, n: GcRecord)
    requires m.dst != n.src
    ensures QueryLog(After(s, m).log, n.src, n.time) == QueryLog(s.log, n.src, n.time)
  {
    var log, longer := s.log, After(s, m).log;
    assert longer[..|log|] == log && longer[|log|].addr == m.dst;
  }

  /** Two relocations with known sources commute unless one feeds the other. */
  lemma {:induction false} MovesCommute(s: Store, m: GcRecord, n: GcRecord)
    requires Known(s, m) && Known(s, n) && Independent(m, n)
    ensures SameState(After(After(s, m), n), After(After(s, n), m))
  {
    SourceUndisturbed(s, m, n);
    SourceUndisturbed(s, n, m);
    WritesCommute(s, Write(m.dst, m.time, QueryLog(s.log, m.src, m.time)), Write(n.dst, n.time, QueryLog(s.log, n.src, n.time)));
  }

  lemma {:induction false} MoveAppends(s: Store, m: GcRecord) returns (w: Write)
    ensures After(s, m).log == s.log + [w] && w.addr == m.dst && w.time == m.time
    ensures var id := QueryLog(s.log, m.src, m.time);
            && w.id == (if id == UNKNOWN then Masked(s.curId) else id)
            && After(s, m).curId == if id == UNKNOWN then Next(s.curId) else s.curId
  {
    w := After(s, m).log[|s.log|];
  }

  lemma {:induction false} MoveKeepsSameState(s: Store, r: Store, m: GcRecord)
    requires SameState(s, r)
    ensures SameState(After(s, m), After(r, m))
  {
    assert SlotAt(s.log, m.src) == SlotAt(r.log, m.src);
    SameSlotSameAnswer(s.log, r.log, m.src, m.time);
    var w := MoveAppends(s, m);
    var w' := MoveAppends(r, m);
    forall a: U32
      ensures SlotAt(After(s, m).log, a) == SlotAt(After(r, m).log, a)
    {
      assert SlotAt(s.log, a) == SlotAt(r.log, a);
      SlotAfter(s.log, w, a);
      SlotAfter(r.log, w, a);
    }
  }

  // ------------------------------------------------------------- two files

  predicate AllKnown(s: Store, file: seq<GcRecord>) {
    file == [] || (AllKnown(s, file[..|file| - 1]) && Known(InsertMoves(s, file[..|file| - 1]), file[|file| - 1]))
  }

  predicate FilesIndependent(f: seq<GcRecord>, g: seq<GcRecord>) {
    forall i, j :: 0 <= i < |f| && 0 <= j < |g| ==> Independent(f[i], g[j])
  }

  lemma {:induction false} FileKeepsSource(s: Store, f: seq<GcRecord>, n: GcRecord)
    requires forall i :: 0 <= i < |f| ==> f[i].dst != n.src
    ensures QueryLog(InsertMoves(s, f).log, n.src, n.time) == QueryLog(s.log, n.src, n.time)
  {
    if f != [] {
      var k := |f| - 1;
      FileKeepsSource(s, f[..k], n);
      SourceUndisturbed(InsertMoves(s, f[..k]), f[k], n);
    }
  }

  /** A relocation can be moved in front of a whole file it is independent of. */
  lemma {:induction false} MoveBeforeFile(s: Store, f: seq<GcRecord>, n: GcRecord)
    requires AllKnown(s, f) && Known(s, n) && forall i :: 0 <= i < |f| ==> Independent(f[i], n)
    ensures SameState(After(InsertMoves(s, f), n), InsertMoves(After(s, n), f))
  {
    if f != [] {
      var k := |f| - 1;
      var before := InsertMoves(s, f[..k]);
      assert Independent(f[k], n);
      FileKeepsSource(s, f[..k], n);
      MovesCommute(before, f[k], n);
      MoveBeforeFile(s, f[..k], n);
      MoveKeepsSameState(After(before, n), InsertMoves(After(s, n), f[..k]), f[k]);
    }
  }

  lemma {:induction false} FileKeepsSameState(s: Store, r: Store, f: seq<GcRecord>)
    requires SameState(s, r)
    ensures SameState(InsertMoves(s, f), InsertMoves(r, f))
  {
    if f != [] {
      var k := |f| - 1;
      FileKeepsSameState(s, r, f[..k]);
      MoveKeepsSameState(InsertMoves(s, f[..k]), InsertMoves(r, f[..k]), f[k]);
    }
  }

  lemma {:induction false} FileKeepsKnown(s: Store, f: seq<GcRecord>, n: GcRecord)
    requires AllKnown(s, f) && forall i :: 0 <= i < |f| ==> Independent(f[i], n)
    ensures AllKnown(After(s, n), f) || !Known(s, n)
  {
    if f != [] && Known(s, n) {
      var k := |f| - 1;
      FileKeepsKnown(s, f[..k], n);
      assert forall i :: 0 <= i < k ==> f[..k][i] == f[i];
      MoveBeforeFile(s, f[..k], n);
      assert Independent(f[k], n);
      var before := InsertMoves(s, f[..k]);
      SourceUndisturbed(before, n, f[k]);
      SameSlotSameAnswer(After(before, n).log, InsertMoves(After(s, n), f[..k]).log, f[k].src, f[k].time);
    }
  }

  /** Independent gc files whose sources are all known may be read in either order. */
  lemma {:induction false} GcFilesCommute(s: Store, f: seq<GcRecord>, g: seq<GcRecord>)
    requires AllKnown(s, f) && AllKnown(s, g) && FilesIndependent(f, g)
    ensures SameState(InsertMoves(InsertMoves(s, f), g), InsertMoves(InsertMoves(s, g), f))
  {
    if g != [] {
      var k := |g| - 1;
      var g', n := g[..k], g[k];
      GcFilesCommute(s, f, g');
      MoveKeepsSameState(InsertMoves(InsertMoves(s, f), g'), InsertMoves(InsertMoves(s, g'), f), n);
      AllKnownAfter(s, f, g');
      assert forall i :: 0 <= i < |f| ==> Independent(f[i], n);
      MoveBeforeFile(InsertMoves(s, g'), f, n);
    }
  }

  lemma {:induction false} AllKnownAfter(s: Store, f: seq<GcRecord>, g: seq<GcRecord>)
    requires AllKnown(s, f) && AllKnown(s, g) && FilesIndependent(f, g)
    ensures AllKnown(InsertMoves(s, g), f)
  {
    if g != [] {
      var k := |g| - 1;
      AllKnownAfter(s, f, g[..k]);
      assert forall i :: 0 <= i < |f| ==> Independent(f[i], g[k]);
      FileKeepsKnown(InsertMoves(s, g[..k]), f, g[k]);
    }
  }

  // ------------------------------------------------------------ many files

  /** No file relocates into an address another relocates out of, or to the same place and time. */
  ghost predicate NoDependencies(files: seq<seq<GcRecord>>) {
    forall i, j :: 0 <= i < j < |files| ==> FilesIndependent(files[i], files[j])
  }

  ghost predicate EachKnown(s: Store, files: seq<seq<GcRecord>>) {
    forall f :: f in files ==> AllKnown(s, f)
  }

  lemma {:induction false} IndependentBack(f: seq<GcRecord>, g: seq<GcRecord>)
    requires FilesIndependent(f, g)
    ensures FilesIndependent(g, f)
  {
    forall i, j | 0 <= i < |g| && 0 <= j < |f| ensures Independent(g[i], f[j]) {
      assert Independent(f[j], g[i]);
    }
  }

  /** Files that do not depend on one another are in no order to begin with. */
  lemma {:induction false} NoDependenciesReordered(files: seq<seq<GcRecord>>, files': seq<seq<GcRecord>>)
    requires NoDependencies(files) && multiset(files) == multiset(files')
    ensures NoDependencies(files')
  {
    SameMembers(files, files');
    forall i, j | 0 <= i < j < |files'| ensures FilesIndependent(files'[i], files'[j]) {
      var f, g := files'[i], files'[j];
      if f == g {
        TwiceInMultiset(files', i, j);
        var p, q := TwoPositions(files, f);
      } else {
        assert f in files' && g in files';
        var p :| 0 <= p < |files| && files[p] == f;
        var q :| 0 <= q < |files| && files[q] == g;
        if q < p { IndependentBack(g, f); }
      }
    }
  }

  /** A file independent of others keeps its sources known after them. */
  lemma {:induction false} KnownAfterFiles(s: Store, files: seq<seq<GcRecord>>, f: seq<GcRecord>)
    requires EachKnown(s, files) && AllKnown(s, f) && NoDependencies(files)
    requires forall i :: 0 <= i < |files| ==> FilesIndependent(f, files[i])
    ensures AllKnown(InsertMoves(s, Concat(files)), f)
  {
    if files != [] {
      var k := |files| - 1;
      var g, front := files[k], files[..k];
      var before := InsertMoves(s, Concat(front));
      assert AllKnown(before, f) by {
        assert forall x :: x in front ==> x in files;
        KnownAfterFiles(s, front, f);
      }
      assert AllKnown(before, g) by {
        assert g in files && forall x :: x in front ==> x in files;
        forall i | 0 <= i < k ensures FilesIndependent(g, front[i]) { IndependentBack(files[i], g); }
        KnownAfterFiles(s, front, g);
      }
      AllKnownAfter(before, f, g);
      InsertMovesSplit(s, Concat(front), g);
    }
  }

  /** The last two of a list of independent files may change places. */
  lemma {:induction false} LastTwoSwap(s: Store, others: seq<seq<GcRecord>>, f: seq<GcRecord>, g: seq<GcRecord>)
    requires EachKnown(s, others) && NoDependencies(others) && AllKnown(s, f) && AllKnown(s, g) && FilesIndependent(f, g)
    requires forall i :: 0 <= i < |others| ==> FilesIndependent(f, others[i]) && FilesIndependent(g, others[i])
    ensures SameState(InsertMoves(InsertMoves(InsertMoves(s, Concat(others)), f), g),
                      InsertMoves(InsertMoves(s, Concat(others + [g])), f))
  {
    KnownAfterFiles(s, others, f);
    KnownAfterFiles(s, others, g);
    GcFilesCommute(InsertMoves(s, Concat(others)), f, g);
    ConcatLast(others, g);
    InsertMovesSplit(s, Concat(others), g);
  }

  lemma {:induction false} SameStateTransitive(s: Store, r: Store, q: Store)
    requires SameState(s, r) && SameState(r, q)
    ensures SameState(s, q)
  {
  }

  /** Any one file may as well be read last. */
  lemma {:induction false} FileMovesToEnd(s: Store, files: seq<seq<GcRecord>>, j: nat)
    requires EachKnown(s, files) && NoDependencies(files) && j < |files|
    ensures SameState(InsertMoves(s, Concat(files)), InsertMoves(InsertMoves(s, Concat(Without(files, j))), files[j]))
  {
    var k := |files| - 1;
    var front := files[..k];
    InsertMovesSplit(s, Concat(front), files[k]);
    if j == k {
      assert Without(files, j) == front;
    } else {
      assert forall x :: x in front ==> x in files;
      FileMovesToEnd(s, front, j);
      OthersIndependent(s, files, j);
      MovedOneFurther(s, front, Without(front, j), files[j], files[k]);
      WithoutLast(files, j);
    }
  }

  lemma {:induction false} MovedOneFurther(
    s: Store, front: seq<seq<GcRecord>>, others: seq<seq<GcRecord>>, f: seq<GcRecord>, g: seq<GcRecord>)
    requires EachKnown(s, others) && NoDependencies(others) && AllKnown(s, f) && AllKnown(s, g) && FilesIndependent(f, g)
    requires forall i :: 0 <= i < |others| ==> FilesIndependent(f, others[i]) && FilesIndependent(g, others[i])
    requires SameState(InsertMoves(s, Concat(front)), InsertMoves(InsertMoves(s, Concat(others)), f))
    ensures SameState(InsertMoves(InsertMoves(s, Concat(front)), g), InsertMoves(InsertMoves(s, Concat(others + [g])), f))
  {
    var before, after := InsertMoves(s, Concat(front)), InsertMoves(InsertMoves(s, Concat(others)), f);
    FileKeepsSameState(before, after, g);
    LastTwoSwap(s, others, f, g);
    SameStateTransitive(InsertMoves(before, g), InsertMoves(after, g), InsertMoves(InsertMoves(s, Concat(others + [g])), f));
  }

  lemma {:induction false} OthersIndependent(s: Store, files: seq<seq<GcRecord>>, j: nat)
    requires EachKnown(s, files) && NoDependencies(files) && j < |files| - 1
    ensures var others := Without(files[..|files| - 1], j);
            && EachKnown(s, others) && NoDependencies(others)
            && AllKnown(s, files[j]) && AllKnown(s, files[|files| - 1])
            && FilesIndependent(files[j], files[|files| - 1])
            && (forall i :: 0 <= i < |others| ==> FilesIndependent(files[j], others[i]))
            && (forall i :: 0 <= i < |others| ==> FilesIndependent(files[|files| - 1], others[i]))
  {
    var k := |files| - 1;
    var others := Without(files[..k], j);
    assert forall i :: 0 <= i < |others| ==> others[i] == files[if i < j then i else i + 1];
    assert files[j] in files && files[k] in files;
    forall i | 0 <= i < |others|
      ensures others[i] in files && FilesIndependent(files[j], others[i]) && FilesIndependent(files[k], others[i])
    {
      var p := if i < j then i else i + 1;
      if p < j { IndependentBack(files[p], files[j]); }
      IndependentBack(files[p], files[k]);
    }
  }

  lemma {:induction false} FrontIndependent(s: Store, files: seq<seq<GcRecord>>)
    requires EachKnown(s, files) && NoDependencies(files) && files != []
    ensures EachKnown(s, files[..|files| - 1]) && NoDependencies(files[..|files| - 1])
  {
    assert forall x :: x in files[..|files| - 1] ==> x in files;
  }

  /** Fronts that leave the same state still do after one more file, the other list having it at `j`. */
  lemma {:induction false} SameAfterLast(s: Store, front: seq<seq<GcRecord>>, files': seq<seq<GcRecord>>, j: nat)
    requires EachKnown(s, files') && NoDependencies(files') && j < |files'|
    requires SameState(InsertMoves(s, Concat(front)), InsertMoves(s, Concat(Without(files', j))))
    ensures SameState(InsertMoves(s, Concat(front + [files'[j]])), InsertMoves(s, Concat(files')))
  {
    var f, others := files'[j], Without(files', j);
    FileMovesToEnd(s, files', j);
    FileKeepsSameState(InsertMoves(s, Concat(front)), InsertMoves(s, Concat(others)), f);
    ConcatLast(front, f);
    InsertMovesSplit(s, Concat(front), f);
  }

  /** gc files without cross-file dependencies can be read in any order. */
  lemma {:induction false} GcFilesAnyOrder(s: Store, files: seq<seq<GcRecord>>, files': seq<seq<GcRecord>>)
    requires EachKnown(s, files) && NoDependencies(files) && multiset(files) == multiset(files')
    ensures SameState(InsertMoves(s, Concat(files)), InsertMoves(s, Concat(files')))
  {
    if files == [] {
      NothingReordered(files, files');
    } else {
      var front := files[..|files| - 1];
      var j := LastMoved(files, files');
      SameMembers(files, files');
      NoDependenciesReordered(files, files');
      FrontIndependent(s, files);
      GcFilesAnyOrder(s, front, Without(files', j));
      SameAfterLast(s, front, files', j);
      assert files == front + [files'[j]];
    }
  }

  /** The same answers, whatever the order. */
  lemma {:induction false} GcFileOrderIsIrrelevant(
    s: Store, files: seq<seq<GcRecord>>, files': seq<seq<GcRecord>>, a: U32, t: U64)
    requires EachKnown(s, files) && NoDependencies(files) && multiset(files) == multiset(files')
    ensures QueryLog(InsertMoves(s, Concat(files)).log, a, t) == QueryLog(InsertMoves(s, Concat(files')).log, a, t)
  {
    GcFilesAnyOrder(s, files, files');
    SameSlotSameAnswer(InsertMoves(s, Concat(files)).log, InsertMoves(s, Concat(files')).log, a, t);
  }
}
