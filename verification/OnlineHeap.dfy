/** The heap as it was. */
module OnlineHeap {
  import opened Machine
  import opened AddrMap

  // The traced events applied one by one in time order.  What the offline tools rebuild
  // from their files is judged against this.

  datatype Event = New(alloc: NewRecord) | Move(reloc: GcRecord)

  function Time(e: Event): U64 { if e.New? then e.alloc.time else e.reloc.time }

  function Target(e: Event): U32 { if e.New? then e.alloc.addr else e.reloc.dst }

  /** Object identities: null, an allocation, or an object first seen when it is moved. */
  datatype Obj = Null | Allocated(alloc: NewRecord) | Foreign(reloc: GcRecord)

  type Heap = map<U32, Obj>

  function Placed(h: Heap, e: Event): Obj {
    match e
    case New(r) => Allocated(r)
    case Move(m) => if m.src in h then h[m.src] else Foreign(m)
  }

  /** The heap after the first `k` events. */
  function HeapAfter(trace: seq<Event>, k: nat): Heap
    requires k <= |trace|
  {
    if k == 0 then map[0 := Null]
    else
      var h := HeapAfter(trace, k - 1);
      h[Target(trace[k - 1]) := Placed(h, trace[k - 1])]
  }

  /** How many of the first `k` events remain when the last ones, later than `t`, are dropped. */
  function Cut(trace: seq<Event>, t: U64, k: nat): (n: nat)
    requires k <= |trace|
    ensures n <= k
  {
    if k == 0 || Time(trace[k - 1]) <= t then k else Cut(trace, t, k - 1)
  }

  /** The heap once every event up to and including time `t` has happened. */
  function HeapAt(trace: seq<Event>, t: U64): Heap { HeapAfter(trace, Cut(trace, t, |trace|)) }

  predicate Before(trace: seq<Event>, i: nat, j: nat)
    requires i < |trace| && j < |trace|
  {
    Time(trace[i]) < Time(trace[j])
  }

  /** Each event later than the one before; address 0 is null from time 0 on until it is written. */
  ghost predicate InTimeOrder(trace: seq<Event>) {
    && (forall i, j :: 0 <= i < j < |trace| ==> Before(trace, i, j))
    && (forall i :: 0 <= i < |trace| && Target(trace[i]) == 0 ==> 0 < Time(trace[i]))
  }

  /**
   `trace` lists in time order what the files recorded: `news` holds its
   allocations and `moves` its relocations, each in the order they are read,
   whatever that is.
   */
  ghost predicate Recorded(trace: seq<Event>, news: seq<NewRecord>, moves: seq<GcRecord>) {
    && InTimeOrder(trace)
    && (forall i, j :: 0 <= i < j < |news| ==> news[i].time != news[j].time)
    && (forall r :: r in news <==> New(r) in trace)
    && (forall i, j :: 0 <= i < j < |moves| ==> moves[i].time != moves[j].time)
    && (forall m :: m in moves <==> Move(m) in trace)
    && |news| + |moves| < TWO_31 - 1
  }

  lemma {:induction false} AllocationEvent(trace: seq<Event>, news: seq<NewRecord>, moves: seq<GcRecord>, i: nat) returns (k: nat)
    requires Recorded(trace, news, moves) && i < |news|
    ensures k < |trace| && trace[k] == New(news[i])
  {
    assert news[i] in news;
    k :| 0 <= k < |trace| && trace[k] == New(news[i]);
  }

  lemma {:induction false} AllocationRecord(trace: seq<Event>, news: seq<NewRecord>, moves: seq<GcRecord>, k: nat) returns (i: nat)
    requires Recorded(trace, news, moves) && k < |trace| && trace[k].New?
    ensures i < |news| && news[i] == trace[k].alloc
  {
    assert New(trace[k].alloc) in trace;
    i :| 0 <= i < |news| && news[i] == trace[k].alloc;
  }

  lemma {:induction false} MoveEvent(trace: seq<Event>, news: seq<NewRecord>, moves: seq<GcRecord>, p: nat) returns (k: nat)
    requires Recorded(trace, news, moves) && p < |moves|
    ensures k < |trace| && trace[k] == Move(moves[p])
  {
    assert moves[p] in moves;
    k :| 0 <= k < |trace| && trace[k] == Move(moves[p]);
  }

  type Naming = map<Obj, U32>

  ghost predicate Injective(naming: Naming) {
    forall o, p {:trigger naming[o], naming[p]} :: o in naming && p in naming && naming[o] == naming[p] ==> o == p
  }

  /** The query for `a` at `t` names the object the heap holds there, if it holds one. */
  ghost predicate NamedAt(trace: seq<Event>, log: seq<Write>, naming: Naming, a: U32, t: U64) {
    var h := HeapAt(trace, t);
    a in h ==> h[a] in naming && QueryLog(log, a, t) == naming[h[a]]
  }

  /** From the first write to an address on, every query names the object the heap holds there. */
  ghost predicate Reconstructs(trace: seq<Event>, log: seq<Write>, naming: Naming) {
    forall a: U32, t: U64 :: NamedAt(trace, log, naming, a, t)
  }

  /** Null is 0 and the i-th NEW record of the files is i + 1, as in the ALLOCATIONS table. */
  ghost predicate FollowsFiles(news: seq<NewRecord>, naming: Naming) {
    && Null in naming && naming[Null] == 0
    && forall i :: 0 <= i < |news| ==> Allocated(news[i]) in naming && naming[Allocated(news[i])] == i + 1
  }

  // ------------------------------------------------------------ placements

  datatype Placement = Placement(addr: U32, time: U64, obj: Obj)

  /** Placement 0 is the null seed; placement i is what event i - 1 puts in the heap. */
  function Put(trace: seq<Event>, i: nat): Placement
    requires i <= |trace|
  {
    if i == 0 then Placement(0, 0, Null)
    else
      var e := trace[i - 1];
      Placement(Target(e), Time(e), Placed(HeapAfter(trace, i - 1), e))
  }

  /** The heap holds, at each address, what was placed there last. */
  lemma {:induction false} HeldIsLast(trace: seq<Event>, k: nat, a: U32) returns (i: int)
    requires k <= |trace|
    ensures -1 <= i <= k
    ensures a in HeapAfter(trace, k) <==> i >= 0
    ensures i >= 0 ==> Put(trace, i).addr == a && Put(trace, i).obj == HeapAfter(trace, k)[a]
    ensures forall j :: i < j <= k ==> Put(trace, j).addr != a
  {
    if k == 0 {
      i := if a == 0 then 0 else -1;
    } else {
      i := HeldIsLast(trace, k - 1, a);
      if Put(trace, k).addr == a {
        i := k;
      }
    }
  }

  /** Placements to one address carry strictly increasing times. */
  lemma {:induction false} PutInTimeOrder(trace: seq<Event>, i: nat, j: nat)
    requires InTimeOrder(trace) && i < j <= |trace|
    requires i > 0 || Put(trace, j).addr == 0
    ensures Put(trace, i).time < Put(trace, j).time
  {
    assert i > 0 ==> Before(trace, i - 1, j - 1);
  }

  lemma {:induction false} CutSplits(trace: seq<Event>, t: U64, k: nat)
    requires InTimeOrder(trace) && k <= |trace|
    requires forall i :: k <= i < |trace| ==> t < Time(trace[i])
    ensures forall i :: 0 <= i < |trace| ==> (i < Cut(trace, t, k) <==> Time(trace[i]) <= t)
  {
    if k > 0 && t < Time(trace[k - 1]) {
      CutSplits(trace, t, k - 1);
    } else {
      forall i | 0 <= i < k - 1 ensures Time(trace[i]) < Time(trace[k - 1]) { assert Before(trace, i, k - 1); }
    }
  }

  /** At one address, the order of placements is the order of their times. */
  lemma {:induction false} PutOrder(trace: seq<Event>, i: nat, j: nat)
    requires InTimeOrder(trace) && i <= |trace| && j <= |trace| && Put(trace, i).addr == Put(trace, j).addr
    ensures i < j <==> Put(trace, i).time < Put(trace, j).time
    ensures i == j <==> Put(trace, i).time == Put(trace, j).time
  {
    if i < j { PutInTimeOrder(trace, i, j); }
    if j < i { PutInTimeOrder(trace, j, i); }
  }

  /** Right when it is placed, the heap holds it. */
  lemma {:induction false} HeldWhenPut(trace: seq<Event>, i: nat)
    requires InTimeOrder(trace) && i <= |trace|
    ensures var p := Put(trace, i);
            p.addr in HeapAt(trace, p.time) && HeapAt(trace, p.time)[p.addr] == p.obj
  {
    var p := Put(trace, i);
    var n := Cut(trace, p.time, |trace|);
    CutSplits(trace, p.time, |trace|);
    var last := HeldIsLast(trace, n, p.addr);
    assert i <= n;
    PutOrder(trace, i, last);
    if last > 0 { assert Time(trace[last - 1]) <= p.time; }
  }
}
