/** What the reading order of the gc files has to respect. */
module ReadingOrder {
  import opened Machine
  import opened AddrMap
  import opened InsertionLog
  import opened OnlineHeap
  import opened OfflineReading
  import opened HeapReconstruction
  import opened Sequences

  // And what is left of that when all relocations happen to be read in time order.

  // -------------------------------------------------------- a local condition

  /** Placement `i` is the last one at `a` among the first `k` events. */
  ghost predicate IsLast(trace: seq<Event>, k: nat, a: U32, i: nat) {
    && k <= |trace| && i <= k && Put(trace, i).addr == a
    && forall j :: i < j <= k ==> Put(trace, j).addr != a
  }

  /**
   Relocation `p`, event `k`, is read in time: what put its source's object there has
   been read; and where the heap holds nothing, not exactly one placement has been read.
   */
  ghost predicate Ready(trace: seq<Event>, moves: seq<GcRecord>, p: nat, k: nat)
    requires k < |trace| && trace[k].Move?
  {
    var a := trace[k].reloc.src;
    && (forall i: nat :: IsLast(trace, k, a, i) ==> Settled(trace, moves, p, i))
    && (a !in HeapAfter(trace, k) ==> forall i: nat :: !Sole(trace, moves, p, a, i))
  }

  ghost predicate ReadInTime(trace: seq<Event>, moves: seq<GcRecord>, n: nat) {
    forall p: nat, k: nat {:trigger Ready(trace, moves, p, k)} ::
      p < n <= |moves| && k < |trace| && trace[k] == Move(moves[p]) ==> Ready(trace, moves, p, k)
  }

  /** Placements read at a source up to the relocation's own time came before it. */
  lemma {:induction false} ReadBefore(trace: seq<Event>, moves: seq<GcRecord>, p: nat, k: nat, a: U32, i: nat)
    requires IsRead(trace, moves, p, k)
    requires SettledAt(trace, moves, p, a, i) && Put(trace, i).time <= moves[p].time
    ensures i <= k
  {
    SettledStep(trace, moves, p, k, i);
    assert k + 1 < i ==> Before(trace, k, i - 1);
  }

  /** The last placement before the relocation, once read, is what its lookup finds. */
  lemma {:induction false} LastAnswers(trace: seq<Event>, moves: seq<GcRecord>, p: nat, k: nat, i: nat)
    requires IsRead(trace, moves, p, k) && IsLast(trace, k, moves[p].src, i) && Settled(trace, moves, p, i)
    ensures Latest(trace, moves, p, moves[p].src, moves[p].time, i)
    ensures forall j: nat :: Answering(trace, moves, p, moves[p].src, moves[p].time, j) ==> j == i
  {
    var a, t := moves[p].src, moves[p].time;
    assert i > 0 ==> Before(trace, i - 1, k);
    assert SettledAt(trace, moves, p, a, i) && Put(trace, i).time <= t;
    forall j: nat | SettledAt(trace, moves, p, a, j) && Put(trace, j).time <= t ensures Put(trace, j).time <= Put(trace, i).time {
      ReadBefore(trace, moves, p, k, a, j);
      PutOrder(trace, i, j);
    }
    forall j: nat | Answering(trace, moves, p, a, t, j) ensures j == i {
      PutOrder(trace, i, j);
    }
  }

  /** Where the heap holds nothing, only a sole placement, and one still to come, can answer. */
  lemma {:induction false} UnheldAnswer(trace: seq<Event>, moves: seq<GcRecord>, p: nat, k: nat, i: nat)
    requires IsRead(trace, moves, p, k) && moves[p].src !in HeapAfter(trace, k)
    requires Answering(trace, moves, p, moves[p].src, moves[p].time, i)
    ensures Sole(trace, moves, p, moves[p].src, i) && k < i
  {
    var last := HeldIsLast(trace, k, moves[p].src);
    if Put(trace, i).time <= moves[p].time { ReadBefore(trace, moves, p, k, moves[p].src, i); }
  }

  /** An object first seen when it is moved is not read about before that move is. */
  lemma {:induction false} NotReadBefore(trace: seq<Event>, news: seq<NewRecord>, moves: seq<GcRecord>, p: nat, q: nat, i: nat)
    requires Recorded(trace, news, moves) && q <= p < |moves| && ReadInTime(trace, moves, p) && Settled(trace, moves, q, i)
    ensures Put(trace, i).obj != Foreign(moves[p])
    decreases q
  {
    if i > 0 && trace[i - 1].Move? {
      var m, k := trace[i - 1].reloc, i - 1;
      var x :| 0 <= x < q && moves[x] == m;
      assert m != moves[p];
      if m.src in HeapAfter(trace, k) {
        var last := HeldIsLast(trace, k, m.src);
        assert Ready(trace, moves, x, k) && IsLast(trace, k, m.src, last);
        NotReadBefore(trace, news, moves, p, x, last);
      }
    }
  }

  lemma {:induction false} ReadyIsGood(trace: seq<Event>, news: seq<NewRecord>, moves: seq<GcRecord>, p: nat, k: nat)
    requires Recorded(trace, news, moves) && p < |moves| && k < |trace| && trace[k] == Move(moves[p])
    requires ReadInTime(trace, moves, |moves|)
    ensures GoodRead(trace, moves, p, k)
  {
    var m := moves[p];
    ReadsOnce(trace, news, moves, p, k);
    assert Ready(trace, moves, p, k);
    if m.src in HeapAfter(trace, k) {
      var i := HeldIsLast(trace, k, m.src);
      assert IsLast(trace, k, m.src, i);
      LastAnswers(trace, moves, p, k, i);
      assert Answering(trace, moves, p, m.src, m.time, i);
    } else {
      forall i: nat ensures !Answering(trace, moves, p, m.src, m.time, i) {
        if Answering(trace, moves, p, m.src, m.time, i) { UnheldAnswer(trace, moves, p, k, i); }
      }
      forall j: nat | Settled(trace, moves, p, j) ensures Put(trace, j).obj != Foreign(m) {
        NotReadBefore(trace, news, moves, p, p, j);
      }
    }
  }

  /**
   Sufficient for the build, file by file: read in time, the map names every object
   from each address's first write on, and the i-th NEW record is i + 1.
   */
  lemma {:induction false} ReadInTimeReconstructs(trace: seq<Event>, newFiles: seq<seq<NewRecord>>, gcFiles: seq<seq<GcRecord>>)
    returns (naming: Naming)
    requires Recorded(trace, Concat(newFiles), Concat(gcFiles))
    requires ReadInTime(trace, Concat(gcFiles), |Concat(gcFiles)|)
    ensures Injective(naming) && FollowsFiles(Concat(newFiles), naming)
    ensures Reconstructs(trace, Build(newFiles, gcFiles).log, naming)
  {
    var news, moves := Concat(newFiles), Concat(gcFiles);
    forall p: nat, k: nat | p < |moves| && k < |trace| && trace[k] == Move(moves[p]) ensures GoodRead(trace, moves, p, k) {
      ReadyIsGood(trace, news, moves, p, k);
    }
    naming := GoodReadsReconstruct(trace, news, moves);
    ReadIsBuilt(newFiles, gcFiles);
  }

  // ---------------------------------------------------------- in time order

  ghost predicate InOrder(moves: seq<GcRecord>) {
    forall p, q :: 0 <= p < q < |moves| ==> moves[p].time < moves[q].time
  }

  function AllocatedAt(news: seq<NewRecord>, addr: U32): set<NewRecord> {
    set r | r in news && r.addr == addr
  }

  /** `trace[k]` moves an object the heap does not hold, out of an address allocated exactly once. */
  ghost predicate Phantom(trace: seq<Event>, news: seq<NewRecord>, k: nat) {
    && k < |trace| && trace[k].Move?
    && trace[k].reloc.src !in HeapAfter(trace, k)
    && |AllocatedAt(news, trace[k].reloc.src)| == 1
  }

  ghost predicate PhantomFree(trace: seq<Event>, news: seq<NewRecord>) {
    forall k :: !Phantom(trace, news, k)
  }

  lemma {:induction false} SettledInOrder(trace: seq<Event>, news: seq<NewRecord>, moves: seq<GcRecord>, p: nat, k: nat, i: nat)
    requires Recorded(trace, news, moves) && InOrder(moves) && p < |moves| && k < |trace| && trace[k] == Move(moves[p])
    ensures Settled(trace, moves, p, i) <==> i <= |trace| && (i == 0 || trace[i - 1].New? || i <= k)
  {
    if 0 < i <= |trace| && trace[i - 1].Move? {
      var m := trace[i - 1].reloc;
      assert Move(m) in trace;
      var x :| 0 <= x < |moves| && moves[x] == m;
      assert i - 1 < k ==> Before(trace, i - 1, k);
      assert k < i - 1 ==> Before(trace, k, i - 1);
      if x < p {
        assert moves[..p][x] == m;
      } else {
        assert m.time >= moves[p].time;
      }
    }
  }

  /** In time order, what answers where the heap holds nothing is the one allocation of a phantom. */
  lemma {:induction false} SoleIsPhantom(trace: seq<Event>, news: seq<NewRecord>, moves: seq<GcRecord>, p: nat, k: nat, i: nat)
    requires Recorded(trace, news, moves) && InOrder(moves) && p < |moves| && k < |trace| && trace[k] == Move(moves[p])
    requires moves[p].src !in HeapAfter(trace, k) && Sole(trace, moves, p, moves[p].src, i) && k < i
    ensures Phantom(trace, news, k)
  {
    var a := moves[p].src;
    SettledInOrder(trace, news, moves, p, k, i);
    var r := trace[i - 1].alloc;
    assert New(r) in trace;
    forall q | q in news && q.addr == a ensures q == r {
      var x :| 0 <= x < |news| && news[x] == q;
      var j := AllocationEvent(trace, news, moves, x);
      assert SettledAt(trace, moves, p, a, j + 1);
    }
    assert AllocatedAt(news, a) == {r};
  }

  lemma {:induction false} PhantomFreeIsInTime(trace: seq<Event>, news: seq<NewRecord>, moves: seq<GcRecord>)
    requires Recorded(trace, news, moves) && InOrder(moves) && PhantomFree(trace, news)
    ensures ReadInTime(trace, moves, |moves|)
  {
    forall p: nat, k: nat | p < |moves| && k < |trace| && trace[k] == Move(moves[p]) ensures Ready(trace, moves, p, k) {
      var a := moves[p].src;
      forall i: nat | IsLast(trace, k, a, i) ensures Settled(trace, moves, p, i) {
        SettledInOrder(trace, news, moves, p, k, i);
      }
      if i: nat :| a !in HeapAfter(trace, k) && Sole(trace, moves, p, a, i) {
        var last := HeldIsLast(trace, k, a);
        SoleIsPhantom(trace, news, moves, p, k, i);
        assert false;
      }
    }
  }

  lemma {:induction false} PhantomAllocation(trace: seq<Event>, news: seq<NewRecord>, moves: seq<GcRecord>, p: nat, k: nat) returns (x: nat, i: nat)
    requires Recorded(trace, news, moves) && InOrder(moves) && p < |moves| && k < |trace| && trace[k] == Move(moves[p])
    requires Phantom(trace, news, k)
    ensures x < |news| && k < i <= |trace| && trace[i - 1] == New(news[x]) && news[x].addr == moves[p].src
    ensures Sole(trace, moves, p, moves[p].src, i)
  {
    var a := moves[p].src;
    var none := HeldIsLast(trace, k, a);
    var r :| r in AllocatedAt(news, a);
    x :| 0 <= x < |news| && news[x] == r;
    var e := AllocationEvent(trace, news, moves, x);
    i := e + 1;
    assert SettledAt(trace, moves, p, a, i);
    forall j: nat | SettledAt(trace, moves, p, a, j) ensures j == i {
      SettledInOrder(trace, news, moves, p, k, j);
      assert k < j;
      assert New(trace[j - 1].alloc) in trace;
      OneElement(AllocatedAt(news, a), r, trace[j - 1].alloc);
      PutOrder(trace, i, j);
    }
  }

  lemma {:induction false} OneElement<T>(s: set<T>, x: T, y: T)
    requires |s| == 1 && x in s && y in s
    ensures x == y
  {
    var rest := s - {x};
    assert |rest| == 0;
    assert y !in rest;
  }

  /** A phantom relocation stores the id of an allocation that has not happened yet. */
  lemma {:induction false} PhantomStoresFutureId(trace: seq<Event>, news: seq<NewRecord>, moves: seq<GcRecord>, p: nat, k: nat) returns (x: nat)
    requires Recorded(trace, news, moves) && InOrder(moves) && p < |moves| && k < |trace| && trace[k] == Move(moves[p])
    requires Phantom(trace, news, k)
    ensures x < |news| && news[x].addr == moves[p].src && moves[p].time < news[x].time
    ensures Write(moves[p].dst, moves[p].time, x + 1) in Read(news, moves, |moves|).log
    ensures Write(news[x].addr, news[x].time, x + 1) in Read(news, moves, |moves|).log
  {
    var i;
    x, i := PhantomAllocation(trace, news, moves, p, k);
    assert Before(trace, k, i - 1);
    var w := Write(news[x].addr, news[x].time, x + 1);
    NewsLog(news);
    assert InsertNews(EMPTY, news).log[x + 1] == w;
    ReadGrows(news, moves, 0, p, w);
    ReadGrows(news, moves, 0, |moves|, w);
    FindsFuture(trace, news, moves, p, i, w);
  }

  lemma {:induction false} FindsFuture(trace: seq<Event>, news: seq<NewRecord>, moves: seq<GcRecord>, p: nat, i: nat, w: Write)
    requires Recorded(trace, news, moves) && p < |moves| && Sole(trace, moves, p, moves[p].src, i)
    requires w in Read(news, moves, p).log && Outlines(trace, i, w) && w.id != UNKNOWN
    ensures Write(moves[p].dst, moves[p].time, w.id) in Read(news, moves, |moves|).log
  {
    SkeletonAt(trace, news, moves, p);
    AnswerIsFound(trace, moves, p, Read(news, moves, p).log, moves[p].src, moves[p].time, i, w);
    var v := ReadWrite(news, moves, p);
    assert v in Read(news, moves, p + 1).log;
    ReadGrows(news, moves, p + 1, |moves|, v);
  }

  /**
   The reconstruction when relocations are read in time order: it is exact if and only
   if no relocation takes an object the heap does not hold out of an address that is
   allocated exactly once.
   */
  lemma {:induction false} TimeOrderedIff(trace: seq<Event>, news: seq<NewRecord>, moves: seq<GcRecord>)
    requires Recorded(trace, news, moves) && InOrder(moves)
    ensures (exists naming :: Injective(naming) && Reconstructs(trace, Read(news, moves, |moves|).log, naming))
            <==> PhantomFree(trace, news)
  {
    ReconstructionIff(trace, news, moves);
    if PhantomFree(trace, news) {
      PhantomFreeIsInTime(trace, news, moves);
      forall p: nat, k: nat | p < |moves| && k < |trace| && trace[k] == Move(moves[p]) ensures GoodRead(trace, moves, p, k) {
        ReadyIsGood(trace, news, moves, p, k);
      }
    } else {
      var k: nat :| Phantom(trace, news, k);
      assert Move(trace[k].reloc) in trace;
      var p :| 0 <= p < |moves| && moves[p] == trace[k].reloc;
      var x, i := PhantomAllocation(trace, news, moves, p, k);
      assert Answering(trace, moves, p, moves[p].src, moves[p].time, i);
      assert !GoodRead(trace, moves, p, k);
    }
  }

  // -------------------------------------------------------------- witnesses

  /** An object moves out of an address before anything is allocated there: the map takes it for the later allocation. */
  lemma {:induction false} PhantomHappens() returns (trace: seq<Event>, news: seq<NewRecord>, moves: seq<GcRecord>)
    ensures Recorded(trace, news, moves) && InOrder(moves) && Phantom(trace, news, 0)
    ensures !exists naming :: Injective(naming) && Reconstructs(trace, Read(news, moves, |moves|).log, naming)
  {
    var r, m := NewRecord(1, 1, 1, 16, 8, 5), GcRecord(8, 16, 2);
    trace, news, moves := [Move(m), New(r)], [r], [m];
    assert trace[0] == Move(m) && trace[1] == New(r) && news[0] == r && moves[0] == m;
    assert HeapAfter(trace, 0) == map[0 := Null];
    assert AllocatedAt(news, 8) == {r};
    assert Phantom(trace, news, 0);
    TimeOrderedIff(trace, news, moves);
  }

  /** A traced object moves twice and the file with the second move is read first: no naming is left, phantom or not. */
  lemma {:induction false} LateFileHappens()
    returns (trace: seq<Event>, newFiles: seq<seq<NewRecord>>, gcFiles: seq<seq<GcRecord>>)
    ensures Recorded(trace, Concat(newFiles), Concat(gcFiles)) && PhantomFree(trace, Concat(newFiles))
    ensures forall f :: f in gcFiles ==> InOrder(f)
    ensures !exists naming :: Injective(naming) && Reconstructs(trace, Build(newFiles, gcFiles).log, naming)
  {
    var r, m, n := NewRecord(1, 1, 1, 16, 8, 1), GcRecord(8, 16, 2), GcRecord(16, 24, 3);
    trace, newFiles, gcFiles := [New(r), Move(m), Move(n)], [[r]], [[n], [m]];
    var news, moves := Concat(newFiles), Concat(gcFiles);
    ConcatLast([], [r]);
    ConcatLast([[n]], [m]);
    ConcatLast([], [n]);
    assert newFiles == [] + [[r]] && gcFiles == [[n]] + [[m]] && [[n]] == [] + [[n]];
    assert news == [r] && moves == [n, m];
    LateTrace(trace, r, m, n);
    LateReadIsBad(trace, moves, r, m, n);
    BuildReconstructsIff(trace, newFiles, gcFiles);
  }

  lemma {:induction false} LateTrace(trace: seq<Event>, r: NewRecord, m: GcRecord, n: GcRecord)
    requires trace == [New(r), Move(m), Move(n)]
    requires r.addr == m.src == 8 && m.dst == n.src == 16 && n.dst == 24 && r.time == 1 && m.time == 2 && n.time == 3
    ensures Recorded(trace, [r], [n, m]) && PhantomFree(trace, [r])
    ensures Put(trace, 0).addr == 0 && Put(trace, 1).addr == 8 && Put(trace, 2).addr == 16
    ensures Put(trace, 1).obj == Put(trace, 3).obj == Allocated(r)
  {
    assert HeapAfter(trace, 1) == map[0 := Null, 8 := Allocated(r)];
    assert HeapAfter(trace, 2) == HeapAfter(trace, 1)[16 := Allocated(r)];
    assert [n, m][0] == n && [n, m][1] == m && [r][0] == r;
    assert trace[0] == New(r) && trace[1] == Move(m) && trace[2] == Move(n);
  }

  lemma {:induction false} LateReadIsBad(trace: seq<Event>, moves: seq<GcRecord>, r: NewRecord, m: GcRecord, n: GcRecord)
    requires trace == [New(r), Move(m), Move(n)] && moves == [n, m] && m != n && n.src == 16
    requires Put(trace, 0).addr == 0 && Put(trace, 1).addr == 8
    requires Put(trace, 1).obj == Put(trace, 3).obj
    ensures !GoodRead(trace, moves, 0, 2)
  {
    assert moves[..0] == [];
    forall i: nat ensures !SettledAt(trace, moves, 0, 16, i) { }
    assert forall i: nat :: !Answering(trace, moves, 0, n.src, n.time, i);
    assert Settled(trace, moves, 0, 1);
  }
}
