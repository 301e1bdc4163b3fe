/**
 Where object ids come from, and how they join the ALLOCATIONS table.
 */
module Identity {
  import opened Machine
  import opened AddrMap
  import opened InsertionLog
  import opened OnlineHeap

  // -------------------------------------------------------------- minting

  /** The store after the first `k` events, processed in the order given, whatever their times. */
  function Run(es: seq<Event>, k: nat): Store
    requires k <= |es|
  {
    if k == 0 then EMPTY
    else
      var s := Run(es, k - 1);
      match es[k - 1]
      case New(r) => InsertNew(s, r.addr, r.time)
      case Move(m) => InsertMove(s, m.src, m.dst, m.time)
  }

  /** Event `i` mints an id: every allocation does, and a relocation of an unknown source. */
  predicate IsMint(es: seq<Event>, i: nat)
    requires i < |es|
  {
    match es[i]
    case New(_) => true
    case Move(m) => QueryLog(Run(es, i).log, m.src, m.time) == UNKNOWN
  }

  function MintedBy(es: seq<Event>, i: nat): Option<U32>
    requires i < |es|
  {
    if !IsMint(es, i) then None
    else if es[i].New? then Some(Run(es, i).curId) else Some(Masked(Run(es, i).curId))
  }

  function Mints(es: seq<Event>, k: nat): nat
    requires k <= |es|
  {
    if k == 0 then 0 else Mints(es, k - 1) + if IsMint(es, k - 1) then 1 else 0
  }

  lemma {:induction false} MintsMonotone(es: seq<Event>, k: nat, n: nat)
    requires k <= n <= |es|
    ensures Mints(es, k) <= Mints(es, n)
  {
    if k < n { MintsMonotone(es, k, n - 1); }
  }

  lemma {:induction false} CounterStep(es: seq<Event>, k: nat)
    requires k < |es|
    ensures Run(es, k + 1).curId == if IsMint(es, k) then Next(Run(es, k).curId) else Run(es, k).curId
    ensures Run(es, k).curId < UNKNOWN ==> Run(es, k + 1).curId == Run(es, k).curId + Mints(es, k + 1) - Mints(es, k)
  {
  }

  lemma {:induction false} CounterCountsMints(es: seq<Event>, k: nat)
    requires k <= |es| && Mints(es, k) < TWO_31 - 1
    ensures Run(es, k).curId == Mints(es, k) + 1
  {
    if k > 0 {
      CounterCountsMints(es, k - 1);
      CounterStep(es, k - 1);
    }
  }

  /** The id of the `n`-th mint. */
  function NthId(e: Event, n: nat): int { if e.New? then n else TWO_31 + n }

  /** Below the limit, allocation ids and masked ids live apart, and neither is the unknown marker. */
  lemma {:induction false} MintedIdsApart(es: seq<Event>, i: nat)
    requires i < |es| && Mints(es, i + 1) < TWO_31 - 1 && IsMint(es, i)
    ensures MintedBy(es, i).value == NthId(es[i], Mints(es, i + 1)) < UNKNOWN
    ensures 0 < Mints(es, i + 1)
  {
    CounterCountsMints(es, i);
  }

  /** No two events mint the same id. */
  lemma {:induction false} MintedIdsDistinct(es: seq<Event>, i: nat, j: nat)
    requires i < j < |es| && Mints(es, j + 1) < TWO_31 - 1 && IsMint(es, i) && IsMint(es, j)
    ensures MintedBy(es, i).value != MintedBy(es, j).value
  {
    MintsMonotone(es, i + 1, j);
    MintedIdsApart(es, i);
    MintedIdsApart(es, j);
  }

  /** `id` is null's, or was minted by an event before position `k`. */
  ghost predicate Traceable(es: seq<Event>, k: nat, id: U32)
    requires k <= |es|
  {
    id == 0 || exists i :: 0 <= i < k && MintedBy(es, i) == Some(id)
  }

  lemma {:induction false} AnswerIsStored(log: seq<Write>, a: U32, t: U64)
    ensures QueryLog(log, a, t) != UNKNOWN ==> exists w :: w in log && w.addr == a && w.id == QueryLog(log, a, t)
  {
    var vs := VersionsOf(log, a);
    VersionsMembers(log, a);
    BestAnswers(vs, t);
    if QueryLog(log, a, t) != UNKNOWN {
      var k: int;
      if |vs| == 1 { k := 0; } else { k :| Answers(vs, t, k) && Best(vs, t).value == vs[k]; }
      assert vs[k] in vs && Write(a, vs[k].time, vs[k].id) in log;
    }
  }

  /** A write is an older one, or copies the id of an older one, or mints its own. */
  lemma {:induction false} WriteComesFrom(es: seq<Event>, k: nat, w: Write) returns (x: Write)
    requires 0 < k <= |es| && w in Run(es, k).log
    ensures x.id == w.id && (x in Run(es, k - 1).log || MintedBy(es, k - 1) == Some(w.id))
  {
    var log := Run(es, k - 1).log;
    x := w;
    if w !in log && !IsMint(es, k - 1) {
      var m := es[k - 1].reloc;
      AnswerIsStored(log, m.src, m.time);
      x :| x in log && x.addr == m.src && x.id == w.id;
    }
  }

  /** Every id ever stored is null's or goes back, through any number of relocations, to a mint. */
  lemma {:induction false} StoredIdsTraceable(es: seq<Event>, k: nat, w: Write)
    requires k <= |es| && w in Run(es, k).log && Mints(es, k) < TWO_31 - 1
    ensures Traceable(es, k, w.id)
  {
    if k > 0 {
      var log := Run(es, k - 1).log;
      var x := WriteComesFrom(es, k, w);
      if x in log { StoredIdsTraceable(es, k - 1, x); }
    }
  }

  /** The limit is tight: one mint later, a relocation of an unknown source stores the unknown marker itself. */
  lemma {:induction false} LimitIsTight(es: seq<Event>, i: nat)
    requires i < |es| && es[i].Move? && IsMint(es, i) && Mints(es, i) == TWO_31 - 2
    ensures Mints(es, i + 1) == TWO_31 - 1 && MintedBy(es, i) == Some(UNKNOWN)
    ensures Write(es[i].reloc.dst, es[i].reloc.time, UNKNOWN) in Run(es, i + 1).log
  {
    CounterCountsMints(es, i);
    assert Run(es, i + 1).log[|Run(es, i).log|] == Write(es[i].reloc.dst, es[i].reloc.time, UNKNOWN);
  }

  lemma {:induction false} AllocationMints(es: seq<Event>, i: nat)
    requires i < |es| && es[i].New?
    ensures Mints(es, i + 1) == Mints(es, i) + 1
    ensures Run(es, i + 1).log == Run(es, i).log + [Write(es[i].alloc.addr, es[i].alloc.time, Run(es, i).curId)]
  {
  }

  lemma {:induction false} AllocationsMint(es: seq<Event>, k: nat)
    requires k <= |es| && forall j :: 0 <= j < k ==> es[j].New? && es[j].alloc.addr == 8
    ensures Mints(es, k) == k && VersionsOf(Run(es, k).log, 16) == []
  {
    if k == 0 {
      assert [SEED][..0] == [];
    } else {
      AllocationsMint(es, k - 1);
      AllocationMints(es, k - 1);
      NotWritten(Run(es, k - 1).log, Write(8, es[k - 1].alloc.time, Run(es, k - 1).curId), 16);
    }
  }

  lemma {:induction false} NotWritten(log: seq<Write>, w: Write, a: U32)
    requires w.addr != a
    ensures VersionsOf(log + [w], a) == VersionsOf(log, a)
  {
    assert (log + [w])[..|log|] == log;
  }

  /** And some run reaches it: 2^31 - 2 allocations, then the relocation of an object never traced. */
  lemma {:induction false} LimitIsReached() returns (es: seq<Event>, n: nat)
    ensures n < |es| && es[n].Move? && Mints(es, n) == TWO_31 - 2 && MintedBy(es, n) == Some(UNKNOWN)
  {
    var r, m := NewRecord(1, 1, 1, 16, 8, 1), GcRecord(16, 24, 2);
    n := TWO_31 - 2;
    var news := seq(n, _ => New(r));
    es := news + [Move(m)];
    assert es[n] == Move(m) && forall j :: 0 <= j < n ==> es[j] == news[j];
    AllocationsMint(es, n);
    LimitIsTight(es, n);
  }

  // --------------------------------------------------- joining tagged traces

  /** Tags as the native side mints them, and relocations that stay clear of them. */
  ghost predicate Tagged(news: seq<NewRecord>, moves: seq<GcRecord>) {
    && |news| < TWO_31
    && (forall i, j :: 0 <= i < j < |news| ==> news[i].addr != news[j].addr)
    && (forall i :: 0 <= i < |news| ==> 0 < news[i].addr < UNKNOWN)
    && (forall m, i :: m in moves && 0 <= i < |news| ==> m.dst != news[i].addr)
    && (forall m :: m in moves ==> m.dst != 0 && m.dst != UNKNOWN)
  }

  lemma {:induction false} MovesElsewhere(s: Store, moves: seq<GcRecord>, a: U32)
    requires forall m :: m in moves ==> m.dst != a
    ensures VersionsOf(InsertMoves(s, moves).log, a) == VersionsOf(s.log, a)
  {
    if moves != [] {
      var k := |moves| - 1;
      MovesElsewhere(s, moves[..k], a);
      var log, longer := InsertMoves(s, moves[..k]).log, InsertMoves(s, moves).log;
      assert moves[k] in moves;
      assert longer[..|log|] == log;
    }
  }

  lemma {:induction false} NewsElsewhere(news: seq<NewRecord>, a: U32)
    requires forall i :: 0 <= i < |news| ==> news[i].addr != a
    ensures VersionsOf(InsertNews(EMPTY, news).log, a) == if a == 0 then [Version(0, 0)] else []
  {
    if news == [] {
      assert [SEED][..0] == [];
    } else {
      var k := |news| - 1;
      NewsElsewhere(news[..k], a);
      var log, longer := InsertNews(EMPTY, news[..k]).log, InsertNews(EMPTY, news).log;
      assert longer[..|log|] == log;
    }
  }

  lemma {:induction false} LastRecordLogged(news: seq<NewRecord>)
    requires 0 < |news| < TWO_31
    ensures var k := |news| - 1;
            InsertNews(EMPTY, news).log == InsertNews(EMPTY, news[..k]).log + [Write(news[k].addr, news[k].time, k + 1)]
  {
    NewsLog(news[..|news| - 1]);
  }

  lemma {:induction false} OneVersionPerTag(news: seq<NewRecord>, i: nat)
    requires i < |news| < TWO_31 && news[i].addr != 0
    requires forall p, q :: 0 <= p < q < |news| ==> news[p].addr != news[q].addr
    ensures VersionsOf(InsertNews(EMPTY, news).log, news[i].addr) == [Version(news[i].time, i + 1)]
  {
    var k := |news| - 1;
    var front := news[..k];
    var log, w := InsertNews(EMPTY, front).log, Write(news[k].addr, news[k].time, k + 1);
    LastRecordLogged(news);
    assert (log + [w])[..|log|] == log;
    assert forall p :: 0 <= p < k ==> front[p] == news[p];
    if i < k {
      OneVersionPerTag(front, i);
    } else {
      NewsElsewhere(front, news[i].addr);
    }
  }

  /** Every tag becomes its own allocation's id at every time; null stays null and unknown stays unknown. */
  lemma {:induction false} TagJoinsItsAllocation(news: seq<NewRecord>, moves: seq<GcRecord>, t: U64)
    requires Tagged(news, moves)
    ensures var log := InsertMoves(InsertNews(EMPTY, news), moves).log;
            && (forall i :: 0 <= i < |news| ==> QueryLog(log, news[i].addr, t) == i + 1)
            && QueryLog(log, 0, t) == 0 && QueryLog(log, UNKNOWN, t) == UNKNOWN
  {
    var s := InsertNews(EMPTY, news);
    forall i | 0 <= i < |news|
      ensures QueryLog(InsertMoves(s, moves).log, news[i].addr, t) == i + 1
    {
      MovesElsewhere(s, moves, news[i].addr);
      OneVersionPerTag(news, i);
    }
    MovesElsewhere(s, moves, 0);
    NewsElsewhere(news, 0);
    MovesElsewhere(s, moves, UNKNOWN);
    NewsElsewhere(news, UNKNOWN);
  }

  /** The references a tagged trace can carry. */
  ghost predicate Reference(news: seq<NewRecord>, a: U32) {
    a == 0 || a == UNKNOWN || exists i :: 0 <= i < |news| && news[i].addr == a
  }

  /** Translation keeps references apart and together, whenever each of them is recorded. */
  lemma {:induction false} ReferenceEqualityPreserved(news: seq<NewRecord>, moves: seq<GcRecord>, a: U32, b: U32, t: U64, u: U64)
    requires Tagged(news, moves) && Reference(news, a) && Reference(news, b)
    ensures var log := InsertMoves(InsertNews(EMPTY, news), moves).log;
            QueryLog(log, a, t) == QueryLog(log, b, u) <==> a == b
  {
    TagJoinsItsAllocation(news, moves, t);
    TagJoinsItsAllocation(news, moves, u);
  }

  /** The emitted table has, for each record, one row under its id, carrying its site and size. */
  lemma {:induction false} RowPerAllocation(news: seq<NewRecord>)
    requires |news| < TWO_31
    ensures var rows := RowsFrom(1, news);
            && |rows| == |news|
            && (forall i :: 0 <= i < |news| ==>
                  rows[i] == AllocationRow(i + 1, news[i].className, news[i].line, news[i].size, news[i].typeId))
            && (forall i, j :: 0 <= i < j < |rows| ==> rows[i].id != rows[j].id)
  {
    if news != [] { RowPerAllocation(news[..|news| - 1]); }
  }
}
