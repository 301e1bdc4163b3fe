/** Offline reconstruction against the online heap. */
module HeapReconstruction {
  import opened Machine
  import opened AddrMap
  import opened InsertionLog
  import opened OfflineReading
  import opened OnlineHeap
  import opened Sequences

  // addr2id reads all allocations first and then all relocations, file after file,
  // although events interleave in time and every collector thread writes a file of
  // its own.  Whatever the reading order, this file says exactly when the map built
  // agrees with the heap: each relocation's lookup must be answered by a placement of
  // the very object moved, or find nothing while nothing of that object was read.

  // ------------------------------------------------------------- good reads

  /**
   The read of relocation `p`, event `k`, goes right: the lookup finds a placement of
   the object that event moves, or nothing, if nothing of that object has been read.
   */
  ghost predicate GoodRead(trace: seq<Event>, moves: seq<GcRecord>, p: nat, k: nat)
    requires p < |moves| && k < |trace| && trace[k] == Move(moves[p])
  {
    var m, o := moves[p], Put(trace, k + 1).obj;
    && (forall i: nat {:trigger Answering(trace, moves, p, m.src, m.time, i)} ::
          Answering(trace, moves, p, m.src, m.time, i) ==> Put(trace, i).obj == o)
    && ((forall i: nat :: !Answering(trace, moves, p, m.src, m.time, i)) ==>
          forall j: nat {:trigger Settled(trace, moves, p, j)} :: Settled(trace, moves, p, j) ==> Put(trace, j).obj != o)
  }

  ghost predicate GoodReads(trace: seq<Event>, moves: seq<GcRecord>, n: nat) {
    forall p: nat, k: nat {:trigger GoodRead(trace, moves, p, k)} ::
      p < n <= |moves| && k < |trace| && trace[k] == Move(moves[p]) ==> GoodRead(trace, moves, p, k)
  }

  // ------------------------------------------------------------ the theorem

  /**
   The exact scope of the reconstruction, in whatever order records are read.  Some
   injective naming explains every query, from each address's first write on, if and
   only if every relocation's lookup finds a placement of the object moved, or finds
   nothing while nothing of that object has been read.
   */
  lemma {:induction false} ReconstructionIff(trace: seq<Event>, news: seq<NewRecord>, moves: seq<GcRecord>)
    requires Recorded(trace, news, moves)
    ensures (exists naming :: Injective(naming) && Reconstructs(trace, Read(news, moves, |moves|).log, naming))
            <==> GoodReads(trace, moves, |moves|)
  {
    if GoodReads(trace, moves, |moves|) {
      var naming := GoodReadsReconstruct(trace, news, moves);
    } else {
      var p: nat, k: nat :| p < |moves| && k < |trace| && trace[k] == Move(moves[p]) && !GoodRead(trace, moves, p, k);
      forall naming ensures !(Injective(naming) && Reconstructs(trace, Read(news, moves, |moves|).log, naming)) {
        BadReadBreaks(trace, news, moves, p, k, naming);
      }
    }
  }

  /** And so for the program's build, which reads the gc files one after another. */
  lemma {:induction false} BuildReconstructsIff(trace: seq<Event>, newFiles: seq<seq<NewRecord>>, gcFiles: seq<seq<GcRecord>>)
    requires Recorded(trace, Concat(newFiles), Concat(gcFiles))
    ensures (exists naming :: Injective(naming) && Reconstructs(trace, Build(newFiles, gcFiles).log, naming))
            <==> GoodReads(trace, Concat(gcFiles), |Concat(gcFiles)|)
  {
    ReadIsBuilt(newFiles, gcFiles);
    ReconstructionIff(trace, Concat(newFiles), Concat(gcFiles));
  }

  /** Before its first write an address is unknown, unless it is written only once in the whole trace. */
  lemma {:induction false} BeforeFirstWrite(trace: seq<Event>, news: seq<NewRecord>, moves: seq<GcRecord>, a: U32, t: U64)
    requires Recorded(trace, news, moves) && a !in HeapAt(trace, t)
    ensures var log := Read(news, moves, |moves|).log;
            var vs := VersionsOf(log, a);
            && (forall v :: v in vs ==> t < v.time)
            && QueryLog(log, a, t) == if |vs| == 1 then vs[0].id else UNKNOWN
  {
    var log, n := Read(news, moves, |moves|).log, Cut(trace, t, |trace|);
    CutSplits(trace, t, |trace|);
    SkeletonAt(trace, news, moves, |moves|);
    var none := HeldIsLast(trace, n, a);
    forall v | v in VersionsOf(log, a) ensures t < v.time {
      var j := VersionPut(trace, moves, |moves|, log, a, v);
      assert n < j;
    }
    if |VersionsOf(log, a)| != 1 { QueryUnknown(log, a, t); }
  }

  /** If every read goes right, one naming that follows the files explains every query. */
  lemma {:induction false} GoodReadsReconstruct(trace: seq<Event>, news: seq<NewRecord>, moves: seq<GcRecord>) returns (naming: Naming)
    requires Recorded(trace, news, moves) && GoodReads(trace, moves, |moves|)
    ensures Injective(naming) && FollowsFiles(news, naming)
    ensures Reconstructs(trace, Read(news, moves, |moves|).log, naming)
  {
    naming := AgreesUpTo(trace, news, moves, |moves|);
    var log := Read(news, moves, |moves|).log;
    SkeletonAt(trace, news, moves, |moves|);
    NamesFollowFiles(trace, news, moves, naming);
    forall a: U32, t: U64 ensures NamedAt(trace, log, naming, a, t) {
      if a in HeapAt(trace, t) {
        var i := HeldAnswers(trace, news, moves, a, t);
        assert Logged(trace, log, i);
        var w :| w in log && Outlines(trace, i, w);
        AnswerIsFound(trace, moves, |moves|, log, a, t, i, w);
      }
    }
  }

  /** One read gone wrong rules out every naming, whatever is read after it. */
  lemma {:induction false} BadReadBreaks(trace: seq<Event>, news: seq<NewRecord>, moves: seq<GcRecord>, p: nat, k: nat, naming: Naming)
    requires Recorded(trace, news, moves) && p < |moves| && k < |trace| && trace[k] == Move(moves[p])
    requires !GoodRead(trace, moves, p, k)
    ensures !(Injective(naming) && Reconstructs(trace, Read(news, moves, |moves|).log, naming))
    decreases p
  {
    if GoodReads(trace, moves, p) {
      var before := AgreesUpTo(trace, news, moves, p);
      var i, v := BadReadClashes(trace, news, moves, p, k, before);
      ClashBreaks(trace, news, moves, p + 1, i, v, k + 1, ReadWrite(news, moves, p), naming);
    } else {
      var q: nat, x: nat :| q < p && x < |trace| && trace[x] == Move(moves[q]) && !GoodRead(trace, moves, q, x);
      BadReadBreaks(trace, news, moves, q, x, naming);
    }
  }

  // ------------------------------------------------------------------ names

  /** Each write carries the name of the object it places. */
  ghost predicate Mirrors(trace: seq<Event>, moves: seq<GcRecord>, p: nat, log: seq<Write>, naming: Naming) {
    forall i: nat, w {:trigger Outlines(trace, i, w)} :: Settled(trace, moves, p, i) && w in log && Outlines(trace, i, w) ==>
      Put(trace, i).obj in naming && w.id == naming[Put(trace, i).obj]
  }

  ghost predicate Appears(trace: seq<Event>, moves: seq<GcRecord>, p: nat, o: Obj) {
    exists i: nat {:trigger Settled(trace, moves, p, i)} :: Settled(trace, moves, p, i) && Put(trace, i).obj == o
  }

  /** Exactly the objects read about are named, differently, and not yet by the ids to come. */
  ghost predicate Named(trace: seq<Event>, moves: seq<GcRecord>, p: nat, curId: U32, naming: Naming) {
    && Injective(naming)
    && (forall o {:trigger Appears(trace, moves, p, o)} :: o in naming ==> Appears(trace, moves, p, o))
    && (forall o {:trigger naming[o]} :: o in naming ==> naming[o] < TWO_31 + curId)
  }

  ghost predicate Agrees(trace: seq<Event>, news: seq<NewRecord>, moves: seq<GcRecord>, p: nat, naming: Naming)
    requires p <= |moves|
  {
    var s := Read(news, moves, p);
    Mirrors(trace, moves, p, s.log, naming) && Named(trace, moves, p, s.curId, naming)
  }

  function NamingOf(news: seq<NewRecord>): Naming
    requires |news| < TWO_31
  {
    if news == [] then map[Null := 0]
    else NamingOf(news[..|news| - 1])[Allocated(news[|news| - 1]) := |news|]
  }

  lemma {:induction false} NamingOfNews(news: seq<NewRecord>)
    requires |news| < TWO_31
    requires forall i, j :: 0 <= i < j < |news| ==> news[i].time != news[j].time
    ensures FollowsFiles(news, NamingOf(news)) && Injective(NamingOf(news))
    ensures forall o :: o in NamingOf(news) ==>
              NamingOf(news)[o] <= |news| && (o == Null || (o.Allocated? && o.alloc in news))
  {
    if news != [] {
      var n := |news| - 1;
      NamingOfNews(news[..n]);
      assert forall i :: 0 <= i < n ==> news[..n][i] == news[i];
    }
  }

  lemma {:induction false} StartAgrees(trace: seq<Event>, news: seq<NewRecord>, moves: seq<GcRecord>)
    requires Recorded(trace, news, moves)
    ensures Agrees(trace, news, moves, 0, NamingOf(news))
  {
    var log, naming := InsertNews(EMPTY, news).log, NamingOf(news);
    NamingOfNews(news);
    NewsLog(news);
    forall i: nat, w | Settled(trace, moves, 0, i) && w in log && Outlines(trace, i, w)
      ensures Put(trace, i).obj in naming && w.id == naming[Put(trace, i).obj]
    {
      StartMirrors(trace, news, moves, i, w);
    }
    forall o | o in naming ensures Appears(trace, moves, 0, o) {
      if o == Null {
        assert Settled(trace, moves, 0, 0) && Put(trace, 0).obj == o;
      } else {
        var x :| 0 <= x < |news| && news[x] == o.alloc;
        var k := AllocationEvent(trace, news, moves, x);
        assert Settled(trace, moves, 0, k + 1) && Put(trace, k + 1).obj == o;
      }
    }
  }

  lemma {:induction false} StartMirrors(trace: seq<Event>, news: seq<NewRecord>, moves: seq<GcRecord>, i: nat, w: Write)
    requires Recorded(trace, news, moves) && w in InsertNews(EMPTY, news).log && Outlines(trace, i, w)
    ensures Put(trace, i).obj in NamingOf(news) && w.id == NamingOf(news)[Put(trace, i).obj]
  {
    var j := NamedByFile(trace, news, moves, w);
    PutOrder(trace, i, j);
  }

  lemma {:induction false} NamedByFile(trace: seq<Event>, news: seq<NewRecord>, moves: seq<GcRecord>, w: Write) returns (j: nat)
    requires Recorded(trace, news, moves) && w in InsertNews(EMPTY, news).log
    ensures Outlines(trace, j, w) && Put(trace, j).obj in NamingOf(news) && w.id == NamingOf(news)[Put(trace, j).obj]
  {
    NamingOfNews(news);
    var x := NewsWriteAt(news, w);
    if x == 0 {
      j := 0;
    } else {
      var k := AllocationEvent(trace, news, moves, x - 1);
      j := k + 1;
    }
  }

  /** A lookup that finds a placement stores the name of that placement's object. */
  lemma {:induction false} FoundName(trace: seq<Event>, news: seq<NewRecord>, moves: seq<GcRecord>, p: nat, naming: Naming, i: nat)
    requires Recorded(trace, news, moves) && p < |moves| && Agrees(trace, news, moves, p, naming)
    requires Answering(trace, moves, p, moves[p].src, moves[p].time, i)
    ensures Put(trace, i).obj in naming && ReadWrite(news, moves, p).id == naming[Put(trace, i).obj]
    ensures Read(news, moves, p + 1).curId == Read(news, moves, p).curId
  {
    var s, m := Read(news, moves, p), moves[p];
    CounterBound(news, moves, p);
    SkeletonAt(trace, news, moves, p);
    assert Logged(trace, s.log, i);
    var w :| w in s.log && Outlines(trace, i, w);
    AnswerIsFound(trace, moves, p, s.log, m.src, m.time, i, w);
  }

  /** One that finds nothing mints an id no object has. */
  lemma {:induction false} NewName(trace: seq<Event>, news: seq<NewRecord>, moves: seq<GcRecord>, p: nat, naming: Naming)
    requires Recorded(trace, news, moves) && p < |moves| && Agrees(trace, news, moves, p, naming)
    requires forall i: nat :: !Answering(trace, moves, p, moves[p].src, moves[p].time, i)
    ensures ReadWrite(news, moves, p).id == TWO_31 + Read(news, moves, p).curId
    ensures Read(news, moves, p + 1).curId == Read(news, moves, p).curId + 1
    ensures forall o :: o in naming ==> naming[o] < ReadWrite(news, moves, p).id
  {
    CounterBound(news, moves, p);
    SkeletonAt(trace, news, moves, p);
    NothingIsFound(trace, moves, p, Read(news, moves, p).log, moves[p].src, moves[p].time);
  }

  lemma {:induction false} FoundAgrees(trace: seq<Event>, news: seq<NewRecord>, moves: seq<GcRecord>, p: nat, k: nat, naming: Naming, i: nat)
    requires Recorded(trace, news, moves) && p < |moves| && k < |trace| && trace[k] == Move(moves[p])
    requires Agrees(trace, news, moves, p, naming)
    requires Answering(trace, moves, p, moves[p].src, moves[p].time, i) && Put(trace, i).obj == Put(trace, k + 1).obj
    ensures Agrees(trace, news, moves, p + 1, naming)
  {
    ReadsOnce(trace, news, moves, p, k);
    FoundName(trace, news, moves, p, naming, i);
    MirrorsGrow(trace, news, moves, p, k, naming, naming);
    forall o | o in naming ensures Appears(trace, moves, p + 1, o) {
      AppearsStill(trace, moves, p, k, o);
    }
  }

  lemma {:induction false} NewAgrees(trace: seq<Event>, news: seq<NewRecord>, moves: seq<GcRecord>, p: nat, k: nat, naming: Naming) returns (named: Naming)
    requires Recorded(trace, news, moves) && p < |moves| && k < |trace| && trace[k] == Move(moves[p])
    requires Agrees(trace, news, moves, p, naming) && !Appears(trace, moves, p, Put(trace, k + 1).obj)
    requires forall i: nat :: !Answering(trace, moves, p, moves[p].src, moves[p].time, i)
    ensures Agrees(trace, news, moves, p + 1, named)
  {
    var o := Put(trace, k + 1).obj;
    named := naming[o := ReadWrite(news, moves, p).id];
    ReadsOnce(trace, news, moves, p, k);
    NewName(trace, news, moves, p, naming);
    MirrorsGrow(trace, news, moves, p, k, naming, named);
    forall q | q in named ensures Appears(trace, moves, p + 1, q) {
      AppearsStill(trace, moves, p, k, q);
    }
  }

  lemma {:induction false} GoodReadAgrees(trace: seq<Event>, news: seq<NewRecord>, moves: seq<GcRecord>, p: nat, k: nat, naming: Naming) returns (named: Naming)
    requires Recorded(trace, news, moves) && p < |moves| && k < |trace| && trace[k] == Move(moves[p])
    requires Agrees(trace, news, moves, p, naming) && GoodRead(trace, moves, p, k)
    ensures Agrees(trace, news, moves, p + 1, named)
  {
    if i: nat :| Answering(trace, moves, p, moves[p].src, moves[p].time, i) {
      FoundAgrees(trace, news, moves, p, k, naming, i);
      named := naming;
    } else {
      named := NewAgrees(trace, news, moves, p, k, naming);
    }
  }

  lemma {:induction false} AppearsStill(trace: seq<Event>, moves: seq<GcRecord>, p: nat, k: nat, o: Obj)
    requires IsRead(trace, moves, p, k)
    requires o == Put(trace, k + 1).obj || Appears(trace, moves, p, o)
    ensures Appears(trace, moves, p + 1, o)
  {
    if o == Put(trace, k + 1).obj {
      SettledStep(trace, moves, p, k, k + 1);
    } else {
      var i: nat :| Settled(trace, moves, p, i) && Put(trace, i).obj == o;
      SettledStep(trace, moves, p, k, i);
    }
  }

  lemma {:induction false} MirrorsGrow(trace: seq<Event>, news: seq<NewRecord>, moves: seq<GcRecord>, p: nat, k: nat, naming: Naming, named: Naming)
    requires Recorded(trace, news, moves) && p < |moves| && k < |trace| && trace[k] == Move(moves[p])
    requires Mirrors(trace, moves, p, Read(news, moves, p).log, naming)
    requires forall o :: o in naming ==> o in named && named[o] == naming[o]
    requires Put(trace, k + 1).obj in named && ReadWrite(news, moves, p).id == named[Put(trace, k + 1).obj]
    ensures Mirrors(trace, moves, p + 1, Read(news, moves, p + 1).log, named)
  {
    var log, w := Read(news, moves, p).log, ReadWrite(news, moves, p);
    SkeletonAt(trace, news, moves, p);
    ReadsOnce(trace, news, moves, p, k);
    forall i: nat, x | Settled(trace, moves, p + 1, i) && x in log + [w] && Outlines(trace, i, x)
      ensures Put(trace, i).obj in named && x.id == named[Put(trace, i).obj]
    {
      if x in log { ElsewhereOrElsewhen(trace, moves, p, k, log, w, x); }
      OneWrite(trace, moves, p, k, log, w, i, x);
    }
  }

  /** The new write stands for the new placement, and the older ones for the older. */
  lemma {:induction false} OneWrite(trace: seq<Event>, moves: seq<GcRecord>, p: nat, k: nat, log: seq<Write>, w: Write, i: nat, x: Write)
    requires IsRead(trace, moves, p, k)
    requires Outlines(trace, k + 1, w) && (x in log ==> x.addr != w.addr || x.time != w.time)
    requires Settled(trace, moves, p + 1, i) && x in log + [w] && Outlines(trace, i, x)
    ensures if i == k + 1 then x == w else Settled(trace, moves, p, i) && x in log
  {
    SettledStep(trace, moves, p, k, i);
    if x == w { SamePlacement(trace, i, k + 1, w); }
  }

  lemma {:induction false} SamePlacement(trace: seq<Event>, i: nat, j: nat, w: Write)
    requires InTimeOrder(trace) && Outlines(trace, i, w) && Outlines(trace, j, w)
    ensures i == j
  {
    PutOrder(trace, i, j);
  }

  lemma {:induction false} AgreesUpTo(trace: seq<Event>, news: seq<NewRecord>, moves: seq<GcRecord>, p: nat) returns (naming: Naming)
    requires Recorded(trace, news, moves) && p <= |moves| && GoodReads(trace, moves, p)
    ensures Agrees(trace, news, moves, p, naming)
  {
    if p == 0 {
      StartAgrees(trace, news, moves);
      naming := NamingOf(news);
    } else {
      naming := AgreesUpTo(trace, news, moves, p - 1);
      var k := MoveEvent(trace, news, moves, p - 1);
      assert GoodRead(trace, moves, p - 1, k);
      naming := GoodReadAgrees(trace, news, moves, p - 1, k, naming);
    }
  }

  // ------------------------------------------------------------ sufficiency

  /** In the end every placement has been read, so the last one up to a time answers. */
  lemma {:induction false} HeldAnswers(trace: seq<Event>, news: seq<NewRecord>, moves: seq<GcRecord>, a: U32, t: U64) returns (i: nat)
    requires Recorded(trace, news, moves) && a in HeapAt(trace, t)
    ensures Answering(trace, moves, |moves|, a, t, i) && Put(trace, i).obj == HeapAt(trace, t)[a]
  {
    var n := Cut(trace, t, |trace|);
    CutSplits(trace, t, |trace|);
    i := HeldIsLast(trace, n, a);
    AllSettled(trace, news, moves, i);
    forall j: nat | SettledAt(trace, moves, |moves|, a, j) && Put(trace, j).time <= t
      ensures Put(trace, j).time <= Put(trace, i).time
    {
      PutOrder(trace, i, j);
    }
    assert Latest(trace, moves, |moves|, a, t, i);
  }

  lemma {:induction false} AllSettled(trace: seq<Event>, news: seq<NewRecord>, moves: seq<GcRecord>, i: nat)
    requires Recorded(trace, news, moves) && i <= |trace|
    ensures Settled(trace, moves, |moves|, i)
  {
    assert moves[..|moves|] == moves;
    if i > 0 && trace[i - 1].Move? { assert Move(trace[i - 1].reloc) in trace; }
  }

  lemma {:induction false} NamesFollowFiles(trace: seq<Event>, news: seq<NewRecord>, moves: seq<GcRecord>, naming: Naming)
    requires Recorded(trace, news, moves) && Agrees(trace, news, moves, |moves|, naming)
    ensures FollowsFiles(news, naming)
  {
    var n := |moves|;
    NewsLog(news);
    AllSettled(trace, news, moves, 0);
    ReadGrows(news, moves, 0, n, InsertNews(EMPTY, news).log[0]);
    assert Outlines(trace, 0, SEED);
    forall i | 0 <= i < |news| ensures Allocated(news[i]) in naming && naming[Allocated(news[i])] == i + 1 {
      var w := InsertNews(EMPTY, news).log[i + 1];
      var k := AllocationEvent(trace, news, moves, i);
      AllSettled(trace, news, moves, k + 1);
      ReadGrows(news, moves, 0, n, w);
      assert Outlines(trace, k + 1, w);
    }
  }

  // -------------------------------------------------------------- necessity

  /** Two placements in the log that are the same object under two ids, or two objects under one. */
  ghost predicate Clash(trace: seq<Event>, log: seq<Write>, i: nat, v: Write, j: nat, w: Write) {
    && v in log && w in log && Outlines(trace, i, v) && Outlines(trace, j, w)
    && (Put(trace, i).obj == Put(trace, j).obj <==> v.id != w.id)
  }

  lemma {:induction false} BadReadClashes(trace: seq<Event>, news: seq<NewRecord>, moves: seq<GcRecord>, p: nat, k: nat, naming: Naming)
    returns (i: nat, v: Write)
    requires Recorded(trace, news, moves) && p < |moves| && k < |trace| && trace[k] == Move(moves[p])
    requires Agrees(trace, news, moves, p, naming) && !GoodRead(trace, moves, p, k)
    ensures Clash(trace, Read(news, moves, p + 1).log, i, v, k + 1, ReadWrite(news, moves, p))
  {
    var s, m, o, w := Read(news, moves, p), moves[p], Put(trace, k + 1).obj, ReadWrite(news, moves, p);
    SkeletonAt(trace, news, moves, p);
    if x: nat :| Answering(trace, moves, p, m.src, m.time, x) && Put(trace, x).obj != o {
      i := x;
      FoundName(trace, news, moves, p, naming, i);
    } else {
      NewName(trace, news, moves, p, naming);
      i :| Settled(trace, moves, p, i) && Put(trace, i).obj == o;
    }
    assert Logged(trace, s.log, i);
    v :| v in s.log && Outlines(trace, i, v);
  }

  /** At the very time of a write, its address answers with its id. */
  lemma {:induction false} QueryAtWrite(trace: seq<Event>, news: seq<NewRecord>, moves: seq<GcRecord>, p: nat, w: Write)
    requires Recorded(trace, news, moves) && p <= |moves| && w in Read(news, moves, p).log
    ensures QueryLog(Read(news, moves, p).log, w.addr, w.time) == w.id
  {
    var log := Read(news, moves, p).log;
    SkeletonAt(trace, news, moves, p);
    forall x | x in log && x.addr == w.addr && x.time <= w.time ensures x.time < w.time || x == w {
      if x.time == w.time { NoClashUnique(log, x, w); }
    }
    QueryIsLatest(log, w, w.time);
  }

  /** A naming that explains every query gives each write's id to the object placed. */
  lemma {:induction false} NamedByWrite(trace: seq<Event>, news: seq<NewRecord>, moves: seq<GcRecord>, p: nat, i: nat, w: Write, naming: Naming)
    requires Recorded(trace, news, moves) && p <= |moves| && w in Read(news, moves, p).log && Outlines(trace, i, w)
    requires Reconstructs(trace, Read(news, moves, |moves|).log, naming)
    ensures Put(trace, i).obj in naming && naming[Put(trace, i).obj] == w.id
  {
    ReadGrows(news, moves, p, |moves|, w);
    QueryAtWrite(trace, news, moves, |moves|, w);
    HeldWhenPut(trace, i);
    assert NamedAt(trace, Read(news, moves, |moves|).log, naming, w.addr, w.time);
  }

  lemma {:induction false} ClashBreaks(trace: seq<Event>, news: seq<NewRecord>, moves: seq<GcRecord>, p: nat, i: nat, v: Write, j: nat, w: Write, naming: Naming)
    requires Recorded(trace, news, moves) && p <= |moves| && Clash(trace, Read(news, moves, p).log, i, v, j, w)
    ensures !(Injective(naming) && Reconstructs(trace, Read(news, moves, |moves|).log, naming))
  {
    if Reconstructs(trace, Read(news, moves, |moves|).log, naming) {
      NamedByWrite(trace, news, moves, p, i, v, naming);
      NamedByWrite(trace, news, moves, p, j, w, naming);
    }
  }
}
