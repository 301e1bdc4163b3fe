/**
 What the build has in its log once some of the relocations have been read: one write
 for each placement read, and lookups that the times of those placements decide.
 */
module OfflineReading {
  import opened Machine
  import opened AddrMap
  import opened InsertionLog
  import opened OnlineHeap
  import opened Sequences

  // ------------------------------------------------------- the offline side

  /** All allocations, then the first `p` relocations read. */
  function Read(news: seq<NewRecord>, moves: seq<GcRecord>, p: nat): Store
    requires p <= |moves|
  {
    if p == 0 then InsertNews(EMPTY, news)
    else InsertMove(Read(news, moves, p - 1), moves[p - 1].src, moves[p - 1].dst, moves[p - 1].time)
  }

  lemma {:induction false} ReadIsInserted(news: seq<NewRecord>, moves: seq<GcRecord>, p: nat)
    requires p <= |moves|
    ensures Read(news, moves, p) == InsertMoves(InsertNews(EMPTY, news), moves[..p])
  {
    if p > 0 {
      ReadIsInserted(news, moves, p - 1);
      assert moves[..p][..p - 1] == moves[..p - 1];
    }
  }

  /** Reading everything is the build, with the files' records in the order the build reads them. */
  lemma {:induction false} ReadIsBuilt(newFiles: seq<seq<NewRecord>>, gcFiles: seq<seq<GcRecord>>)
    ensures var news, moves := Concat(newFiles), Concat(gcFiles);
            Read(news, moves, |moves|) == Build(newFiles, gcFiles)
  {
    var moves := Concat(gcFiles);
    ReadIsInserted(Concat(newFiles), moves, |moves|);
    assert moves[..|moves|] == moves;
  }

  lemma {:induction false} ReadGrows(news: seq<NewRecord>, moves: seq<GcRecord>, p: nat, q: nat, w: Write)
    requires p <= q <= |moves| && w in Read(news, moves, p).log
    ensures w in Read(news, moves, q).log
  {
    if p < q { ReadGrows(news, moves, p, q - 1, w); }
  }

  lemma {:induction false} CounterBound(news: seq<NewRecord>, moves: seq<GcRecord>, p: nat)
    requires p <= |moves| && |news| + |moves| < TWO_31 - 1
    ensures |news| < Read(news, moves, p).curId <= |news| + 1 + p
  {
    if p == 0 { NewsLog(news); } else { CounterBound(news, moves, p - 1); }
  }

  /** The write a relocation is read as. */
  function ReadWrite(news: seq<NewRecord>, moves: seq<GcRecord>, p: nat): (w: Write)
    requires p < |moves|
    ensures w.addr == moves[p].dst && w.time == moves[p].time
    ensures Read(news, moves, p + 1).log == Read(news, moves, p).log + [w]
    ensures var s := Read(news, moves, p);
            var id := QueryLog(s.log, moves[p].src, moves[p].time);
            w.id == if id == UNKNOWN then Masked(s.curId) else id
  {
    var s := Read(news, moves, p);
    var id := QueryLog(s.log, moves[p].src, moves[p].time);
    Write(moves[p].dst, moves[p].time, if id == UNKNOWN then Masked(s.curId) else id)
  }

  // ------------------------------------------------------------- who answers

  /** Placement `i` has been read once `p` relocations have: null and allocations always have. */
  predicate Settled(trace: seq<Event>, moves: seq<GcRecord>, p: nat, i: nat) {
    p <= |moves| && i <= |trace| && (i == 0 || trace[i - 1].New? || trace[i - 1].reloc in moves[..p])
  }

  predicate SettledAt(trace: seq<Event>, moves: seq<GcRecord>, p: nat, a: U32, i: nat) {
    Settled(trace, moves, p, i) && Put(trace, i).addr == a
  }

  /** The latest placement read at `a`, up to time `t`. */
  ghost predicate Latest(trace: seq<Event>, moves: seq<GcRecord>, p: nat, a: U32, t: U64, i: nat) {
    && SettledAt(trace, moves, p, a, i) && Put(trace, i).time <= t
    && forall j: nat {:trigger SettledAt(trace, moves, p, a, j)} :: SettledAt(trace, moves, p, a, j) && Put(trace, j).time <= t ==>
         Put(trace, j).time <= Put(trace, i).time
  }

  /** The only placement read at `a`. */
  ghost predicate Sole(trace: seq<Event>, moves: seq<GcRecord>, p: nat, a: U32, i: nat) {
    SettledAt(trace, moves, p, a, i) && forall j: nat :: SettledAt(trace, moves, p, a, j) ==> j == i
  }

  /** The placement that a lookup of `a` at `t` finds: the times alone decide, and a sole one answers for every time. */
  ghost predicate Answering(trace: seq<Event>, moves: seq<GcRecord>, p: nat, a: U32, t: U64, i: nat) {
    Latest(trace, moves, p, a, t, i) || Sole(trace, moves, p, a, i)
  }

  /** Relocation `p` of the files is event `k`, and is read only once. */
  ghost predicate IsRead(trace: seq<Event>, moves: seq<GcRecord>, p: nat, k: nat) {
    && p < |moves| && k < |trace| && trace[k] == Move(moves[p])
    && InTimeOrder(trace) && moves[p] !in moves[..p]
  }

  lemma {:induction false} ReadsOnce(trace: seq<Event>, news: seq<NewRecord>, moves: seq<GcRecord>, p: nat, k: nat)
    requires Recorded(trace, news, moves) && p < |moves| && k < |trace| && trace[k] == Move(moves[p])
    ensures IsRead(trace, moves, p, k)
  {
  }

  lemma {:induction false} SettledStep(trace: seq<Event>, moves: seq<GcRecord>, p: nat, k: nat, i: nat)
    requires IsRead(trace, moves, p, k)
    ensures Settled(trace, moves, p + 1, i) <==> Settled(trace, moves, p, i) || i == k + 1
    ensures !Settled(trace, moves, p, k + 1)
  {
    assert moves[..p + 1] == moves[..p] + [moves[p]];
    assert i > 0 && i - 1 < k && i <= |trace| ==> Before(trace, i - 1, k);
    assert i > 0 && k < i - 1 && i <= |trace| ==> Before(trace, k, i - 1);
  }

  // --------------------------------------------------- one write per placement

  predicate Outlines(trace: seq<Event>, i: nat, w: Write) {
    i <= |trace| && Put(trace, i).addr == w.addr && Put(trace, i).time == w.time
  }

  ghost predicate HasOutline(trace: seq<Event>, moves: seq<GcRecord>, p: nat, w: Write) {
    exists i: nat :: Settled(trace, moves, p, i) && Outlines(trace, i, w)
  }

  ghost predicate Logged(trace: seq<Event>, log: seq<Write>, i: nat) {
    exists w :: w in log && Outlines(trace, i, w)
  }

  /** Ids aside, the log holds exactly one write per placement read. */
  ghost predicate Skeleton(trace: seq<Event>, moves: seq<GcRecord>, p: nat, log: seq<Write>) {
    && NoClash(log)
    && (forall w {:trigger HasOutline(trace, moves, p, w)} :: w in log ==> HasOutline(trace, moves, p, w))
    && (forall i: nat {:trigger Logged(trace, log, i)} :: Settled(trace, moves, p, i) ==> Logged(trace, log, i))
  }

  lemma {:induction false} NewsOutlined(trace: seq<Event>, news: seq<NewRecord>, moves: seq<GcRecord>, w: Write)
    requires Recorded(trace, news, moves) && w in InsertNews(EMPTY, news).log
    ensures HasOutline(trace, moves, 0, w)
  {
    var x := NewsWriteAt(news, w);
    if x == 0 {
      assert Settled(trace, moves, 0, 0) && Outlines(trace, 0, w);
    } else {
      var k := AllocationEvent(trace, news, moves, x - 1);
      assert Settled(trace, moves, 0, k + 1) && Outlines(trace, k + 1, w);
    }
  }

  lemma {:induction false} NewsLogged(trace: seq<Event>, news: seq<NewRecord>, moves: seq<GcRecord>, i: nat)
    requires Recorded(trace, news, moves) && Settled(trace, moves, 0, i)
    ensures Logged(trace, InsertNews(EMPTY, news).log, i)
  {
    var log := InsertNews(EMPTY, news).log;
    NewsLog(news);
    if i == 0 {
      assert log[0] in log && Outlines(trace, 0, log[0]);
    } else {
      var x := AllocationRecord(trace, news, moves, i - 1);
      assert log[x + 1] in log && Outlines(trace, i, log[x + 1]);
    }
  }

  lemma {:induction false} NewsApart(trace: seq<Event>, news: seq<NewRecord>, moves: seq<GcRecord>)
    requires Recorded(trace, news, moves)
    ensures NoClash(InsertNews(EMPTY, news).log)
  {
    var log := InsertNews(EMPTY, news).log;
    NewsLog(news);
    forall i, j | 0 <= i < j < |log| ensures log[i].addr != log[j].addr || log[i].time != log[j].time {
      if i == 0 {
        var k := AllocationEvent(trace, news, moves, j - 1);
      } else {
        assert log[i].time == news[i - 1].time && log[j].time == news[j - 1].time;
      }
    }
  }

  lemma {:induction false} SkeletonAt(trace: seq<Event>, news: seq<NewRecord>, moves: seq<GcRecord>, p: nat)
    requires Recorded(trace, news, moves) && p <= |moves|
    ensures Skeleton(trace, moves, p, Read(news, moves, p).log)
  {
    if p == 0 {
      NewsApart(trace, news, moves);
      forall w | w in InsertNews(EMPTY, news).log ensures HasOutline(trace, moves, 0, w) {
        NewsOutlined(trace, news, moves, w);
      }
      forall i: nat | Settled(trace, moves, 0, i) ensures Logged(trace, InsertNews(EMPTY, news).log, i) {
        NewsLogged(trace, news, moves, i);
      }
    } else {
      SkeletonAt(trace, news, moves, p - 1);
      var k := MoveEvent(trace, news, moves, p - 1);
      ReadsOnce(trace, news, moves, p - 1, k);
      SkeletonGrows(trace, moves, p - 1, k, Read(news, moves, p - 1).log, ReadWrite(news, moves, p - 1));
    }
  }

  lemma {:induction false} SkeletonGrows(trace: seq<Event>, moves: seq<GcRecord>, p: nat, k: nat, log: seq<Write>, w: Write)
    requires IsRead(trace, moves, p, k)
    requires Skeleton(trace, moves, p, log) && Outlines(trace, k + 1, w)
    ensures Skeleton(trace, moves, p + 1, log + [w])
  {
    var longer := log + [w];
    assert w in longer;
    SettledStep(trace, moves, p, k, k + 1);
    forall x | x in log ensures x.addr != w.addr || x.time != w.time {
      ElsewhereOrElsewhen(trace, moves, p, k, log, w, x);
    }
    forall x | x in longer ensures HasOutline(trace, moves, p + 1, x) {
      if x in log { OutlineStays(trace, moves, p, k, x); }
    }
    forall i: nat | Settled(trace, moves, p + 1, i) ensures Logged(trace, longer, i) {
      SettledStep(trace, moves, p, k, i);
      if i != k + 1 { LoggedStays(trace, log, w, i); }
    }
  }

  lemma {:induction false} ElsewhereOrElsewhen(trace: seq<Event>, moves: seq<GcRecord>, p: nat, k: nat, log: seq<Write>, w: Write, x: Write)
    requires IsRead(trace, moves, p, k)
    requires Skeleton(trace, moves, p, log) && Outlines(trace, k + 1, w) && x in log
    ensures x.addr != w.addr || x.time != w.time
  {
    assert HasOutline(trace, moves, p, x);
    var i: nat :| Settled(trace, moves, p, i) && Outlines(trace, i, x);
    SettledStep(trace, moves, p, k, i);
    if x.addr == w.addr { PutOrder(trace, i, k + 1); }
  }

  lemma {:induction false} OutlineStays(trace: seq<Event>, moves: seq<GcRecord>, p: nat, k: nat, x: Write)
    requires IsRead(trace, moves, p, k)
    requires HasOutline(trace, moves, p, x)
    ensures HasOutline(trace, moves, p + 1, x)
  {
    var i: nat :| Settled(trace, moves, p, i) && Outlines(trace, i, x);
    SettledStep(trace, moves, p, k, i);
  }

  lemma {:induction false} LoggedStays(trace: seq<Event>, log: seq<Write>, w: Write, i: nat)
    requires Logged(trace, log, i)
    ensures Logged(trace, log + [w], i)
  {
    var x :| x in log && Outlines(trace, i, x);
    assert x in log + [w];
  }

  // ------------------------------------------------------ what a lookup finds

  /** The write standing for an answering placement is what the query returns. */
  lemma {:induction false} AnswerIsFound(trace: seq<Event>, moves: seq<GcRecord>, p: nat, log: seq<Write>, a: U32, t: U64, i: nat, w: Write)
    requires InTimeOrder(trace) && Skeleton(trace, moves, p, log)
    requires Answering(trace, moves, p, a, t, i) && w in log && Outlines(trace, i, w)
    ensures QueryLog(log, a, t) == w.id
  {
    if Latest(trace, moves, p, a, t, i) {
      forall x | x in log && x.addr == a && x.time <= t ensures x.time < w.time || x == w {
        assert HasOutline(trace, moves, p, x);
        var j: nat :| Settled(trace, moves, p, j) && Outlines(trace, j, x);
        assert SettledAt(trace, moves, p, a, j);
        if x.time == w.time { NoClashUnique(log, x, w); }
      }
      QueryIsLatest(log, w, t);
    } else {
      SoleIsSole(trace, moves, p, log, a, i, w);
      QueryIsSole(log, w, t);
    }
  }

  lemma {:induction false} SoleIsSole(trace: seq<Event>, moves: seq<GcRecord>, p: nat, log: seq<Write>, a: U32, i: nat, w: Write)
    requires Skeleton(trace, moves, p, log) && Sole(trace, moves, p, a, i) && w in log && Outlines(trace, i, w)
    ensures forall x :: x in log && x.addr == a ==> x == w
  {
    forall x | x in log && x.addr == a ensures x == w {
      assert HasOutline(trace, moves, p, x);
      var j: nat :| Settled(trace, moves, p, j) && Outlines(trace, j, x);
      assert SettledAt(trace, moves, p, a, j);
      NoClashUnique(log, x, w);
    }
  }

  /** Of the placements read at an address up to a time, one is the latest. */
  lemma {:induction false} LatestExists(trace: seq<Event>, moves: seq<GcRecord>, p: nat, a: U32, t: U64, j: nat, n: nat) returns (i: nat)
    requires InTimeOrder(trace) && j <= n <= |trace|
    requires SettledAt(trace, moves, p, a, j) && Put(trace, j).time <= t
    requires forall x: nat :: SettledAt(trace, moves, p, a, x) && Put(trace, x).time <= t ==> x <= n
    ensures Latest(trace, moves, p, a, t, i)
  {
    if SettledAt(trace, moves, p, a, n) && Put(trace, n).time <= t {
      i := n;
      forall x: nat | SettledAt(trace, moves, p, a, x) && Put(trace, x).time <= t ensures Put(trace, x).time <= Put(trace, n).time {
        PutOrder(trace, x, n);
      }
    } else {
      i := LatestExists(trace, moves, p, a, t, j, n - 1);
    }
  }

  /** Where no placement answers, the query finds nothing. */
  lemma {:induction false} NothingIsFound(trace: seq<Event>, moves: seq<GcRecord>, p: nat, log: seq<Write>, a: U32, t: U64)
    requires InTimeOrder(trace) && Skeleton(trace, moves, p, log)
    requires forall i: nat :: !Answering(trace, moves, p, a, t, i)
    ensures QueryLog(log, a, t) == UNKNOWN
  {
    var vs := VersionsOf(log, a);
    forall v | v in vs ensures t < v.time {
      var j := VersionPut(trace, moves, p, log, a, v);
      if v.time <= t {
        var i := LatestExists(trace, moves, p, a, t, j, |trace|);
        assert Answering(trace, moves, p, a, t, i);
      }
    }
    if |vs| == 1 {
      var i := SoleVersion(trace, moves, p, log, a);
      assert Answering(trace, moves, p, a, t, i);
    }
    QueryUnknown(log, a, t);
  }

  lemma {:induction false} SoleVersion(trace: seq<Event>, moves: seq<GcRecord>, p: nat, log: seq<Write>, a: U32) returns (i: nat)
    requires InTimeOrder(trace) && Skeleton(trace, moves, p, log) && |VersionsOf(log, a)| == 1
    ensures Sole(trace, moves, p, a, i)
  {
    var v := VersionsOf(log, a)[0];
    i := VersionPut(trace, moves, p, log, a, v);
    forall j: nat | SettledAt(trace, moves, p, a, j) ensures j == i {
      SameVersion(trace, moves, p, log, a, i, j);
    }
  }

  lemma {:induction false} SameVersion(trace: seq<Event>, moves: seq<GcRecord>, p: nat, log: seq<Write>, a: U32, i: nat, j: nat)
    requires InTimeOrder(trace) && Skeleton(trace, moves, p, log) && |VersionsOf(log, a)| == 1
    requires SettledAt(trace, moves, p, a, i) && SettledAt(trace, moves, p, a, j)
    ensures i == j
  {
    PutVersion(trace, moves, p, log, a, i);
    PutVersion(trace, moves, p, log, a, j);
    PutOrder(trace, i, j);
  }

  lemma {:induction false} PutVersion(trace: seq<Event>, moves: seq<GcRecord>, p: nat, log: seq<Write>, a: U32, i: nat)
    requires Skeleton(trace, moves, p, log) && SettledAt(trace, moves, p, a, i)
    ensures exists v :: v in VersionsOf(log, a) && v.time == Put(trace, i).time
  {
    VersionsMembers(log, a);
    assert Logged(trace, log, i);
    var w :| w in log && Outlines(trace, i, w);
    assert Version(w.time, w.id) in VersionsOf(log, a);
  }

  lemma {:induction false} VersionPut(trace: seq<Event>, moves: seq<GcRecord>, p: nat, log: seq<Write>, a: U32, v: Version) returns (i: nat)
    requires Skeleton(trace, moves, p, log) && v in VersionsOf(log, a)
    ensures SettledAt(trace, moves, p, a, i) && Put(trace, i).time == v.time
  {
    VersionsMembers(log, a);
    var w := Write(a, v.time, v.id);
    assert HasOutline(trace, moves, p, w);
    i :| Settled(trace, moves, p, i) && Outlines(trace, i, w);
  }
}
