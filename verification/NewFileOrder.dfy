/**
 The order in which NEW files are read.  Whatever relocations follow, another
 order renames ids one-to-one, in the map and in the ALLOCATIONS table alike.
 */
module NewFileOrder {
  import opened Machine
  import opened AddrMap
  import opened GcFileOrder
  import opened Permutation
  import opened InsertionLog
  import Identity
  import opened Sequences

  type Renaming = U32 -> U32

  /** One-to-one, and keeping null, the unknown marker and every masked id. */
  ghost predicate Renames(rho: Renaming) {
    && (forall x: U32, y: U32 :: rho(x) == rho(y) ==> x == y)
    && rho(0) == 0 && forall x: U32 :: x >= TWO_31 ==> rho(x) == x
  }

  // ------------------------------------------------------- renaming a slot

  function RenamedVersion(rho: Renaming, v: Version): Version { Version(v.time, rho(v.id)) }

  function RenamedMap(rho: Renaming, m: TimeMap): (r: TimeMap)
    ensures |r| == |m|
    ensures forall i :: 0 <= i < |m| ==> r[i] == RenamedVersion(rho, m[i])
  {
    seq(|m|, i requires 0 <= i < |m| => RenamedVersion(rho, m[i]))
  }

  function RenamedSlot(rho: Renaming, o: Option<Slot>): Option<Slot> {
    match o
    case None => None
    case Some(Unique(v)) => Some(Unique(RenamedVersion(rho, v)))
    case Some(Timed(m)) => Some(Timed(RenamedMap(rho, m)))
  }

  lemma {:induction false} RenamedBound(rho: Renaming, m: TimeMap, t: U64, hi: nat)
    requires hi <= |m|
    ensures UpperBoundBelow(RenamedMap(rho, m), t, hi) == UpperBoundBelow(m, t, hi)
  {
    if hi > 0 && t < m[hi - 1].time { RenamedBound(rho, m, t, hi - 1); }
  }

  lemma {:induction false} RenamedFloor(rho: Renaming, m: TimeMap, t: U64)
    ensures Floor(RenamedMap(rho, m), t) == match Floor(m, t) case None => None case Some(v) => Some(RenamedVersion(rho, v))
  {
    RenamedBound(rho, m, t, |m|);
  }

  lemma {:induction false} RenamedEmplace(rho: Renaming, m: TimeMap, v: Version)
    ensures Emplace(RenamedMap(rho, m), RenamedVersion(rho, v)) == RenamedMap(rho, Emplace(m, v))
  {
    RenamedBound(rho, m, v.time, |m|);
  }

  lemma {:induction false} RenamedExtended(rho: Renaming, o: Option<Slot>, v: Version)
    ensures RenamedSlot(rho, Some(Extended(o, v))) == Some(Extended(RenamedSlot(rho, o), RenamedVersion(rho, v)))
  {
    match o
    case None =>
    case Some(Unique(u)) =>
      RenamedEmplace(rho, [u], v);
      assert RenamedMap(rho, [u]) == [RenamedVersion(rho, u)];
    case Some(Timed(m)) =>
      RenamedEmplace(rho, m, v);
  }

  // ------------------------------------------------------ renaming a store

  /** The same counter and, address by address, the same stored form but for the ids' names. */
  ghost predicate Alike(rho: Renaming, s: Store, r: Store) {
    s.curId == r.curId && forall a: U32 :: SlotAt(r.log, a) == RenamedSlot(rho, SlotAt(s.log, a))
  }

  lemma {:induction false} AlikeAnswers(rho: Renaming, s: Store, r: Store, a: U32, t: U64)
    requires Renames(rho) && Alike(rho, s, r)
    ensures QueryLog(r.log, a, t) == rho(QueryLog(s.log, a, t))
  {
    assert SlotAt(r.log, a) == RenamedSlot(rho, SlotAt(s.log, a));
    var vs, vs' := VersionsOf(s.log, a), VersionsOf(r.log, a);
    if vs != [] {
      SlotAnswers(vs, t);
      SlotAnswers(vs', t);
      if SlotOf(vs).Timed? { RenamedFloor(rho, SlotOf(vs).versions, t); }
    }
  }

  lemma {:induction false} MoveKeepsAlike(rho: Renaming, s: Store, r: Store, m: GcRecord)
    requires Renames(rho) && Alike(rho, s, r)
    ensures Alike(rho, After(s, m), After(r, m))
  {
    AlikeAnswers(rho, s, r, m.src, m.time);
    var w := MoveAppends(s, m);
    var w' := MoveAppends(r, m);
    assert rho(UNKNOWN) == UNKNOWN;
    assert w' == Write(w.addr, w.time, rho(w.id));
    forall a: U32
      ensures SlotAt(After(r, m).log, a) == RenamedSlot(rho, SlotAt(After(s, m).log, a))
    {
      SlotAfter(s.log, w, a);
      SlotAfter(r.log, w', a);
      assert SlotAt(r.log, a) == RenamedSlot(rho, SlotAt(s.log, a));
      RenamedExtended(rho, SlotAt(s.log, a), Version(w.time, w.id));
    }
  }

  lemma {:induction false} MovesKeepAlike(rho: Renaming, s: Store, r: Store, moves: seq<GcRecord>)
    requires Renames(rho) && Alike(rho, s, r)
    ensures Alike(rho, InsertMoves(s, moves), InsertMoves(r, moves))
  {
    if moves != [] {
      var k := |moves| - 1;
      MovesKeepAlike(rho, s, r, moves[..k]);
      MoveKeepsAlike(rho, InsertMoves(s, moves[..k]), InsertMoves(r, moves[..k]), moves[k]);
    }
  }

  /** `r` holds the versions of `vs` under their new names, and no others. */
  ghost predicate SameVersions(rho: Renaming, vs: seq<Version>, r: seq<Version>) {
    && (forall v :: v in vs ==> RenamedVersion(rho, v) in r)
    && (forall v' :: v' in r ==> NamesOne(rho, vs, v'))
  }

  ghost predicate NamesOne(rho: Renaming, vs: seq<Version>, v': Version) {
    exists v :: v in vs && v' == RenamedVersion(rho, v)
  }

  // ------------------------------------------------- the same records reordered

  /** No two records, and no record and the null seed, share both address and time. */
  ghost predicate Apart(news: seq<NewRecord>) {
    && (forall i, j :: 0 <= i < j < |news| ==> news[i].addr != news[j].addr || news[i].time != news[j].time)
    && (forall i :: 0 <= i < |news| ==> news[i].addr != 0 || news[i].time != 0)
  }

  ghost predicate Reordered(news: seq<NewRecord>, news': seq<NewRecord>) {
    |news| < TWO_31 && Apart(news) && multiset(news) == multiset(news')
  }

  ghost function IndexOf(r: NewRecord, news: seq<NewRecord>): (i: nat)
    requires r in news
    ensures i < |news| && news[i] == r
  {
    var i :| 0 <= i < |news| && news[i] == r;
    i
  }

  /** A record's id in one order to its id in the other; every other id to itself. */
  ghost function Renamed(news: seq<NewRecord>, news': seq<NewRecord>, id: U32): U32 {
    if 1 <= id <= |news| && |news'| < TWO_31 && news[id - 1] in news' then IndexOf(news[id - 1], news') + 1 else id
  }

  lemma {:induction false} SameRecords(news: seq<NewRecord>, news': seq<NewRecord>)
    requires Reordered(news, news')
    ensures |news| == |news'| && forall r :: r in news <==> r in news'
  {
    SameMembers(news, news');
  }

  lemma {:induction false} OnceEach(news: seq<NewRecord>, r: NewRecord)
    requires Apart(news)
    ensures multiset(news)[r] <= 1
  {
    if news != [] {
      var k := |news| - 1;
      OnceEach(news[..k], r);
      assert news == news[..k] + [news[k]];
      assert news[k] !in news[..k];
    }
  }

  lemma {:induction false} ReorderedBack(news: seq<NewRecord>, news': seq<NewRecord>)
    requires Reordered(news, news')
    ensures Reordered(news', news)
  {
    SameRecords(news, news');
    forall i, j | 0 <= i < j < |news'| ensures news'[i].addr != news'[j].addr || news'[i].time != news'[j].time {
      assert news'[i] in news' && news'[j] in news';
      if news'[i] == news'[j] {
        TwiceInMultiset(news', i, j);
        OnceEach(news, news'[i]);
      }
    }
    forall i | 0 <= i < |news'| ensures news'[i].addr != 0 || news'[i].time != 0 {
      assert news'[i] in news';
    }
  }

  lemma {:induction false} RenamedRenames(news: seq<NewRecord>, news': seq<NewRecord>)
    requires Reordered(news, news')
    ensures Renames(id => Renamed(news, news', id))
    ensures forall i :: 0 <= i < |news| ==> news[i] in news' && Renamed(news, news', i + 1) == IndexOf(news[i], news') + 1
  {
    ReorderedBack(news, news');
    SameRecords(news, news');
    forall i | 0 <= i < |news| ensures news[i] in news' { assert news[i] in news; }
    var n := |news|;
    forall x: U32, y: U32 | Renamed(news, news', x) == Renamed(news, news', y) ensures x == y {
      assert 1 <= x <= n <==> 1 <= Renamed(news, news', x) <= n;
      assert 1 <= y <= n <==> 1 <= Renamed(news, news', y) <= n;
      if 1 <= x <= n { assert news[x - 1] == news[y - 1]; }
    }
  }

  // ------------------------------------------------------ after the NEW files

  lemma {:induction false} WriteRenamed(news: seq<NewRecord>, news': seq<NewRecord>, w: Write)
    requires Reordered(news, news') && w in InsertNews(EMPTY, news).log
    ensures Write(w.addr, w.time, Renamed(news, news', w.id)) in InsertNews(EMPTY, news').log
  {
    ReorderedBack(news, news');
    SameRecords(news, news');
    RenamedRenames(news, news');
    NewsLog(news');
    var p := NewsWriteAt(news, w);
    var log' := InsertNews(EMPTY, news').log;
    if p == 0 {
      assert log'[0] == SEED;
    } else {
      var j := IndexOf(news[p - 1], news');
      assert log'[j + 1] == Write(news'[j].addr, news'[j].time, j + 1);
    }
  }

  lemma {:induction false} IndexAt(news: seq<NewRecord>, i: nat)
    requires Apart(news) && i < |news|
    ensures IndexOf(news[i], news) == i
  {
  }

  lemma {:induction false} RenamedBack(news: seq<NewRecord>, news': seq<NewRecord>, id: U32)
    requires Reordered(news, news')
    ensures Renamed(news, news', Renamed(news', news, id)) == id
  {
    ReorderedBack(news, news');
    SameRecords(news, news');
    if 1 <= id <= |news'| {
      var r := news'[id - 1];
      assert r in news';
      assert Renamed(news', news, id) == IndexOf(r, news) + 1;
      IndexAt(news', id - 1);
    }
  }

  lemma {:induction false} NewsTimesApart(news: seq<NewRecord>, a: U32)
    requires |news| < TWO_31 && Apart(news)
    ensures TimesApart(VersionsOf(InsertNews(EMPTY, news).log, a))
  {
    var log := InsertNews(EMPTY, news).log;
    NewsLog(news);
    forall i, j | 0 <= i < j < |log| ensures log[i].addr != log[j].addr || log[i].time != log[j].time {
      assert i > 0 ==> log[i].time == news[i - 1].time && log[i].addr == news[i - 1].addr;
      assert log[j].time == news[j - 1].time && log[j].addr == news[j - 1].addr;
    }
    NoClashTimesApart(log, a);
  }

  /** Of versions with different times, the time map holds exactly these. */
  lemma {:induction false} TimeMapHolds(vs: seq<Version>)
    requires TimesApart(vs)
    ensures forall v :: v in TimeMapOf(vs) <==> v in vs
  {
    if vs != [] {
      var k := |vs| - 1;
      TimeMapHolds(vs[..k]);
      EmplaceMeans(TimeMapOf(vs[..k]), vs[k]);
      assert vs == vs[..k] + [vs[k]];
      assert !HasTime(TimeMapOf(vs[..k]), vs[k].time);
    }
  }

  lemma {:induction false} VersionsRenamed(news: seq<NewRecord>, news': seq<NewRecord>, a: U32)
    requires Reordered(news, news')
    ensures SameVersions(id => Renamed(news, news', id),
                         VersionsOf(InsertNews(EMPTY, news).log, a), VersionsOf(InsertNews(EMPTY, news').log, a))
  {
    var rho: Renaming := id => Renamed(news, news', id);
    var log, log' := InsertNews(EMPTY, news).log, InsertNews(EMPTY, news').log;
    var vs, vs' := VersionsOf(log, a), VersionsOf(log', a);
    VersionsMembers(log, a);
    VersionsMembers(log', a);
    forall v | v in vs ensures RenamedVersion(rho, v) in vs' {
      WriteRenamed(news, news', Write(a, v.time, v.id));
    }
    ReorderedBack(news, news');
    SameRecords(news, news');
    forall v' | v' in vs' ensures NamesOne(rho, vs, v') {
      WriteRenamed(news', news, Write(a, v'.time, v'.id));
      RenamedBack(news, news', v'.id);
      assert Version(v'.time, Renamed(news', news, v'.id)) in vs;
    }
  }

  lemma {:induction false} NewsAlike(news: seq<NewRecord>, news': seq<NewRecord>)
    requires Reordered(news, news')
    ensures Alike(id => Renamed(news, news', id), InsertNews(EMPTY, news), InsertNews(EMPTY, news'))
  {
    var rho: Renaming := id => Renamed(news, news', id);
    ReorderedBack(news, news');
    SameRecords(news, news');
    NewsLog(news);
    NewsLog(news');
    forall a: U32
      ensures SlotAt(InsertNews(EMPTY, news').log, a) == RenamedSlot(rho, SlotAt(InsertNews(EMPTY, news).log, a))
    {
      VersionsRenamed(news, news', a);
      NewsTimesApart(news, a);
      NewsTimesApart(news', a);
      SlotsAgree(rho, VersionsOf(InsertNews(EMPTY, news).log, a), VersionsOf(InsertNews(EMPTY, news').log, a));
    }
  }

  lemma {:induction false} SlotsAgree(rho: Renaming, vs: seq<Version>, vs': seq<Version>)
    requires TimesApart(vs) && TimesApart(vs') && SameVersions(rho, vs, vs')
    ensures (if vs' == [] then None else Some(SlotOf(vs'))) == RenamedSlot(rho, if vs == [] then None else Some(SlotOf(vs)))
  {
    SameCount(rho, vs, vs');
    if |vs| == 1 {
      assert NamesOne(rho, vs, vs'[0]);
    } else if |vs| >= 2 {
      TimeMapsAgree(rho, vs, vs');
    }
  }

  /** None, one or more of the one are none, one or more of the other. */
  lemma {:induction false} SameCount(rho: Renaming, vs: seq<Version>, vs': seq<Version>)
    requires TimesApart(vs) && TimesApart(vs') && SameVersions(rho, vs, vs')
    ensures vs == [] <==> vs' == []
    ensures |vs| == 1 <==> |vs'| == 1
  {
    if vs != [] { assert RenamedVersion(rho, vs[0]) in vs'; }
    if vs' != [] { assert NamesOne(rho, vs, vs'[0]); }
    if |vs| >= 2 { assert RenamedVersion(rho, vs[1]) in vs'; }
    if |vs'| >= 2 { assert NamesOne(rho, vs, vs'[1]); }
  }

  lemma {:induction false} TimeMapsAgree(rho: Renaming, vs: seq<Version>, vs': seq<Version>)
    requires TimesApart(vs) && TimesApart(vs') && SameVersions(rho, vs, vs')
    ensures TimeMapOf(vs') == RenamedMap(rho, TimeMapOf(vs))
  {
    var m, r := TimeMapOf(vs), RenamedMap(rho, TimeMapOf(vs));
    TimeMapHolds(vs);
    TimeMapHolds(vs');
    RenamedHolds(rho, m);
    forall v' ensures v' in TimeMapOf(vs') <==> v' in r {
      if v' in vs' {
        assert NamesOne(rho, vs, v');
        var v :| v in vs && v' == RenamedVersion(rho, v);
        assert v in m;
      }
      if v' in r {
        assert NamesOne(rho, m, v');
        var v :| v in m && v' == RenamedVersion(rho, v);
        assert v in vs;
      }
    }
    OrderedUnique(TimeMapOf(vs'), r);
  }

  lemma {:induction false} RenamedHolds(rho: Renaming, m: TimeMap)
    requires Ordered(m)
    ensures Ordered(RenamedMap(rho, m)) && SameVersions(rho, m, RenamedMap(rho, m))
  {
    var r := RenamedMap(rho, m);
    forall v | v in m ensures RenamedVersion(rho, v) in r {
      var i :| 0 <= i < |m| && m[i] == v;
      assert r[i] == RenamedVersion(rho, v);
    }
    forall v' | v' in r ensures NamesOne(rho, m, v') {
      var i :| 0 <= i < |r| && r[i] == v';
      assert m[i] in m;
    }
  }

  // --------------------------------------------------------------- theorem

  /** Each record's row is, under its new id, the same row. */
  ghost predicate RowsKept(rho: Renaming, news: seq<NewRecord>, news': seq<NewRecord>) {
    forall i :: 0 <= i < |news| < TWO_31 ==>
      1 <= rho(i + 1) <= |news'| && RowsFrom(1, news')[rho(i + 1) - 1] == RowsFrom(1, news)[i].(id := rho(i + 1))
  }

  lemma {:induction false} RowsRenamed(news: seq<NewRecord>, news': seq<NewRecord>, i: nat)
    requires Reordered(news, news') && i < |news|
    ensures var j := Renamed(news, news', i + 1);
            1 <= j <= |news'| && RowsFrom(1, news')[j - 1] == RowsFrom(1, news)[i].(id := j)
  {
    SameRecords(news, news');
    Identity.RowPerAllocation(news);
    Identity.RowPerAllocation(news');
    assert news[i] in news;
  }

  /**
   Reading NEW records in another order, whatever relocations follow: one one-to-one
   renaming turns every answer of one map into the other's, keeps null, the unknown
   marker and every masked id, and takes each record's table row to an equal one.
   */
  lemma {:induction false} FileOrderOnlyRenames(news: seq<NewRecord>, news': seq<NewRecord>, moves: seq<GcRecord>)
    returns (rho: Renaming)
    requires Reordered(news, news')
    ensures Renames(rho)
    ensures forall a: U32, t: U64 ::
              QueryLog(InsertMoves(InsertNews(EMPTY, news'), moves).log, a, t) ==
              rho(QueryLog(InsertMoves(InsertNews(EMPTY, news), moves).log, a, t))
    ensures RowsKept(rho, news, news')
  {
    rho := id => Renamed(news, news', id);
    RenamedRenames(news, news');
    NewsAlike(news, news');
    var s, r := InsertNews(EMPTY, news), InsertNews(EMPTY, news');
    MovesKeepAlike(rho, s, r, moves);
    forall a: U32, t: U64
      ensures QueryLog(InsertMoves(r, moves).log, a, t) == rho(QueryLog(InsertMoves(s, moves).log, a, t))
    {
      AlikeAnswers(rho, InsertMoves(s, moves), InsertMoves(r, moves), a, t);
    }
    forall i | 0 <= i < |news|
      ensures 1 <= rho(i + 1) <= |news'| && RowsFrom(1, news')[rho(i + 1) - 1] == RowsFrom(1, news)[i].(id := rho(i + 1))
    {
      RowsRenamed(news, news', i);
    }
  }

  // ---------------------------------------------------------------- on files

  lemma {:induction false} ConcatWithout(files: seq<seq<NewRecord>>, j: nat)
    requires j < |files|
    ensures multiset(Concat(files)) == multiset(Concat(Without(files, j))) + multiset(files[j])
  {
    var k := |files| - 1;
    if j < k {
      ConcatWithout(files[..k], j);
      WithoutLast(files, j);
      ConcatLast(Without(files[..k], j), files[k]);
    } else {
      assert Without(files, j) == files[..k];
    }
  }

  lemma {:induction false} ConcatReordered(files: seq<seq<NewRecord>>, files': seq<seq<NewRecord>>)
    requires multiset(files) == multiset(files')
    ensures multiset(Concat(files)) == multiset(Concat(files'))
  {
    if files == [] {
      NothingReordered(files, files');
    } else {
      var k := |files| - 1;
      var j := LastMoved(files, files');
      ConcatReordered(files[..k], Without(files', j));
      ConcatWithout(files', j);
    }
  }

  /** So building from the same NEW files in another order answers and writes rows alike, up to names. */
  lemma {:induction false} BuildOrderOnlyRenames(
    files: seq<seq<NewRecord>>, files': seq<seq<NewRecord>>, gcFiles: seq<seq<GcRecord>>)
    returns (rho: Renaming)
    requires multiset(files) == multiset(files') && |Concat(files)| < TWO_31 && Apart(Concat(files))
    ensures Renames(rho)
    ensures forall a: U32, t: U64 ::
              QueryLog(Build(files', gcFiles).log, a, t) == rho(QueryLog(Build(files, gcFiles).log, a, t))
    ensures RowsKept(rho, Concat(files), Concat(files'))
  {
    ConcatReordered(files, files');
    rho := FileOrderOnlyRenames(Concat(files), Concat(files'), Concat(gcFiles));
  }
}
