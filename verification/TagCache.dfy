/** The tag cache under concurrency. */
module TagCache {
  import opened Machine

  // Every thread owns a JVMTI environment that caches what the shared one answered, a
  // missing tag included, as -1 (cinst/native/native.cpp).  Each GetTag, SetTag and
  // counter increment is one atomic step, so a lookup can be overtaken between reading
  // the shared table and caching.

  type Thread = nat
  type Obj = nat

  /** Where a thread stands inside get_tag, or inside addTagNewRecord and set_tag. */
  datatype Pc =
    | Idle
    | ReadLocal(obj: Obj)
    | ReadShared(obj: Obj)
    | Cache(obj: Obj, seen: int)
    | SetLocal(obj: Obj, tag: int)
    | SetShared(obj: Obj, tag: int)

  datatype State = State(
    counter: int,
    shared: map<Obj, int>,
    local: map<(Thread, Obj), int>,
    pcs: map<Thread, Pc>)

  /** GetTag answers 0 for an object without a tag. */
  function Shared(s: State, o: Obj): int { if o in s.shared then s.shared[o] else 0 }

  function Local(s: State, t: Thread, o: Obj): int { if (t, o) in s.local then s.local[(t, o)] else 0 }

  function At(s: State, t: Thread): Pc { if t in s.pcs then s.pcs[t] else Idle }

  const START: State := State(10, map[], map[], map[])

  datatype Action =
    | StartLookup(obj: Obj)
    | Step
    | Answer(obj: Obj, tag: int)
    | Mint(obj: Obj)

  /** One atomic step of thread `t`.  The answer of a lookup is part of the step that ends it. */
  ghost predicate Next(s: State, t: Thread, a: Action, s': State) {
    match At(s, t)
    case Idle =>
      || (a.StartLookup? && s' == s.(pcs := s.pcs[t := ReadLocal(a.obj)]))
      || (a.Mint? && s' == s.(counter := s.counter + 1, pcs := s.pcs[t := SetLocal(a.obj, s.counter)]))
    case ReadLocal(o) =>
      if Local(s, t, o) != 0 then a == Answer(o, Local(s, t, o)) && s' == s.(pcs := s.pcs[t := Idle])
      else a == Step && s' == s.(pcs := s.pcs[t := ReadShared(o)])
    case ReadShared(o) =>
      a == Step && s' == s.(pcs := s.pcs[t := Cache(o, Shared(s, o))])
    case Cache(o, seen) =>
      var tag := if seen != 0 then seen else -1;
      a == Answer(o, tag) && s' == s.(local := s.local[(t, o) := tag], pcs := s.pcs[t := Idle])
    case SetLocal(o, tag) =>
      a == Step && s' == s.(local := s.local[(t, o) := tag], pcs := s.pcs[t := SetShared(o, tag)])
    case SetShared(o, tag) =>
      a == Step && s' == s.(shared := s.shared[o := tag], pcs := s.pcs[t := Idle])
  }

  datatype Label = Label(thread: Thread, action: Action)

  /** A run: states and the labels between them. */
  datatype Run = Run(states: seq<State>, labels: seq<Label>)

  /** Every object is tagged at most once: it has one allocation site. */
  ghost predicate TaggedOnce(labels: seq<Label>) {
    forall i, j :: 0 <= i < j < |labels| && labels[i].action.Mint? && labels[j].action.Mint? ==>
      labels[i].action.obj != labels[j].action.obj
  }

  ghost predicate StepAt(r: Run, i: nat)
    requires i < |r.labels| && |r.states| == |r.labels| + 1
  {
    Next(r.states[i], r.labels[i].thread, r.labels[i].action, r.states[i + 1])
  }

  ghost predicate IsRun(r: Run) {
    && |r.states| == |r.labels| + 1 && r.states[0] == START
    && (forall i :: 0 <= i < |r.labels| ==> StepAt(r, i))
    && TaggedOnce(r.labels)
  }

  // ----------------------------------------------------------- the invariant

  /** The tags minted by the first `k` steps. */
  ghost function Tags(r: Run, k: nat): map<Obj, int>
    requires |r.states| == |r.labels| + 1 && k <= |r.labels|
  {
    if k == 0 then map[]
    else Minted(Tags(r, k - 1), r.states[k - 1], r.labels[k - 1].action)
  }

  ghost function Minted(tags: map<Obj, int>, s: State, a: Action): map<Obj, int> {
    if a.Mint? then tags[a.obj := s.counter] else tags
  }

  ghost predicate IsTag(tags: map<Obj, int>, o: Obj, tag: int) { o in tags && tags[o] == tag }

  ghost predicate TagsOk(counter: int, tags: map<Obj, int>) {
    && 10 <= counter
    && (forall o :: o in tags ==> 10 <= tags[o] < counter)
    && (forall o, p {:trigger tags[o], tags[p]} :: o in tags && p in tags && tags[o] == tags[p] ==> o == p)
  }

  /** What a thread in the middle of a call knows. */
  ghost predicate PcOk(s: State, tags: map<Obj, int>, t: Thread) {
    match At(s, t)
    case Idle => true
    case ReadLocal(_) => true
    case ReadShared(o) => Local(s, t, o) == 0
    case Cache(o, seen) => Local(s, t, o) == 0 && (seen == 0 || IsTag(tags, o, seen))
    case SetLocal(o, tag) => IsTag(tags, o, tag)
    case SetShared(o, tag) => IsTag(tags, o, tag)
  }

  ghost predicate SharedOk(s: State, tags: map<Obj, int>, o: Obj) {
    Shared(s, o) == 0 || IsTag(tags, o, Shared(s, o))
  }

  ghost predicate LocalOk(s: State, tags: map<Obj, int>, t: Thread, o: Obj) {
    Local(s, t, o) == 0 || Local(s, t, o) == -1 || IsTag(tags, o, Local(s, t, o))
  }

  /**
   Each shared entry is empty or the object's one minted tag, each cached entry
   empty, -1 or that same tag, and no two objects have the same tag.
   */
  ghost predicate Inv(s: State, tags: map<Obj, int>) {
    && TagsOk(s.counter, tags)
    && (forall o :: SharedOk(s, tags, o))
    && (forall t, o :: LocalOk(s, tags, t, o))
    && (forall t :: PcOk(s, tags, t))
  }

  lemma {:induction false} StepKeepsTags(s: State, t: Thread, a: Action, s': State, tags: map<Obj, int>)
    requires TagsOk(s.counter, tags) && Next(s, t, a, s')
    ensures TagsOk(s'.counter, Minted(tags, s, a))
  {
  }

  lemma {:induction false} StepKeepsShared(s: State, t: Thread, a: Action, s': State, tags: map<Obj, int>, o: Obj)
    requires Inv(s, tags) && Next(s, t, a, s') && (a.Mint? ==> a.obj !in tags)
    ensures SharedOk(s', Minted(tags, s, a), o)
  {
    assert SharedOk(s, tags, o) && PcOk(s, tags, t);
  }

  lemma {:induction false} StepKeepsLocal(s: State, t: Thread, a: Action, s': State, tags: map<Obj, int>, u: Thread, o: Obj)
    requires Inv(s, tags) && Next(s, t, a, s') && (a.Mint? ==> a.obj !in tags)
    ensures LocalOk(s', Minted(tags, s, a), u, o)
  {
    assert LocalOk(s, tags, u, o) && PcOk(s, tags, t);
  }

  lemma {:induction false} StepKeepsPc(s: State, t: Thread, a: Action, s': State, tags: map<Obj, int>, u: Thread)
    requires Inv(s, tags) && Next(s, t, a, s') && (a.Mint? ==> a.obj !in tags)
    ensures PcOk(s', Minted(tags, s, a), u)
  {
    assert PcOk(s, tags, u) && PcOk(s, tags, t);
    if At(s, t).ReadShared? { assert SharedOk(s, tags, At(s, t).obj); }
  }

  lemma {:induction false} StepKeepsInv(s: State, t: Thread, a: Action, s': State, tags: map<Obj, int>)
    requires Inv(s, tags) && Next(s, t, a, s') && (a.Mint? ==> a.obj !in tags)
    ensures Inv(s', Minted(tags, s, a))
  {
    var now := Minted(tags, s, a);
    StepKeepsTags(s, t, a, s', tags);
    forall o ensures SharedOk(s', now, o) { StepKeepsShared(s, t, a, s', tags, o); }
    forall u, o ensures LocalOk(s', now, u, o) { StepKeepsLocal(s, t, a, s', tags, u, o); }
    forall u ensures PcOk(s', now, u) { StepKeepsPc(s, t, a, s', tags, u); }
  }

  lemma {:induction false} TagsComeFromMints(r: Run, k: nat, o: Obj)
    requires |r.states| == |r.labels| + 1 && k <= |r.labels| && o in Tags(r, k)
    ensures exists i :: 0 <= i < k && r.labels[i].action == Mint(o)
  {
    if r.labels[k - 1].action != Mint(o) { TagsComeFromMints(r, k - 1, o); }
  }

  /** The invariant holds in every state of every interleaving. */
  lemma {:induction false} Reachable(r: Run, k: nat)
    requires IsRun(r) && k <= |r.labels|
    ensures Inv(r.states[k], Tags(r, k))
  {
    if k > 0 {
      Reachable(r, k - 1);
      var l := r.labels[k - 1];
      assert StepAt(r, k - 1);
      if l.action.Mint? && l.action.obj in Tags(r, k - 1) {
        TagsComeFromMints(r, k - 1, l.action.obj);
        assert false;
      }
      StepKeepsInv(r.states[k - 1], l.thread, l.action, r.states[k], Tags(r, k - 1));
    }
  }

  // ---------------------------------------------------------------- answers

  /** What a thread has made up its mind to answer for an object; 0 while it has not. */
  ghost function View(s: State, t: Thread, o: Obj): int {
    if Local(s, t, o) != 0 then Local(s, t, o)
    else match At(s, t)
      case Cache(p, seen) => if p == o then (if seen != 0 then seen else -1) else 0
      case _ => 0
  }

  /** The step by which a thread makes up its mind: it reads the shared table, or tags the object itself. */
  ghost predicate Decides(s: State, l: Label, t: Thread, o: Obj) {
    l.thread == t && (At(s, t) == ReadShared(o) || (At(s, t).SetLocal? && At(s, t).obj == o))
  }

  ghost function Decision(s: State, t: Thread, o: Obj): int {
    match At(s, t)
    case SetLocal(_, tag) => tag
    case _ => if Shared(s, o) != 0 then Shared(s, o) else -1
  }

  /** Only the thread itself changes its view, and only by such a step. */
  lemma {:induction false} ViewStep(s: State, l: Label, s': State, tags: map<Obj, int>, t: Thread, o: Obj)
    requires Inv(s, tags) && Next(s, l.thread, l.action, s')
    ensures View(s', t, o) == if Decides(s, l, t, o) then Decision(s, t, o) else View(s, t, o)
    ensures l == Label(t, Answer(o, View(s, t, o))) || !(l.thread == t && l.action.Answer? && l.action.obj == o)
    ensures View(s, t, o) != 0 && Decides(s, l, t, o) ==> At(s, t).SetLocal?
  {
    assert PcOk(s, tags, t) && LocalOk(s, tags, t, o);
    if At(s, t).SetLocal? { assert IsTag(tags, At(s, t).obj, At(s, t).tag); }
  }

  lemma {:induction false} RunViewStep(r: Run, k: nat, t: Thread, o: Obj)
    requires IsRun(r) && k < |r.labels|
    ensures View(r.states[k + 1], t, o) ==
            if Decides(r.states[k], r.labels[k], t, o) then Decision(r.states[k], t, o) else View(r.states[k], t, o)
    ensures r.labels[k].thread == t && r.labels[k].action.Answer? && r.labels[k].action.obj == o ==>
              r.labels[k].action.tag == View(r.states[k], t, o) == View(r.states[k + 1], t, o)
  {
    Reachable(r, k);
    assert StepAt(r, k);
    ViewStep(r.states[k], r.labels[k], r.states[k + 1], Tags(r, k), t, o);
  }

  ghost predicate Answers(r: Run, k: nat, t: Thread, o: Obj, tag: int) {
    k < |r.labels| && r.labels[k] == Label(t, Answer(o, tag))
  }

  /** A thread tags an object in its own environment. */
  ghost predicate TagsItself(r: Run, k: nat, t: Thread, o: Obj)
    requires k < |r.labels| < |r.states|
  {
    r.labels[k].thread == t && At(r.states[k], t).SetLocal? && At(r.states[k], t).obj == o
  }

  // -------------------------------------------------- whole-run properties

  /** A lookup never answers 0; a positive answer is the object's own minted tag. */
  lemma {:induction false} AnswerIsTagOrMinusOne(r: Run, k: nat, t: Thread, o: Obj, tag: int)
    requires IsRun(r) && Answers(r, k, t, o, tag)
    ensures tag == -1 || (IsTag(Tags(r, k), o, tag) && 10 <= tag)
  {
    Reachable(r, k);
    RunViewStep(r, k, t, o);
    assert LocalOk(r.states[k], Tags(r, k), t, o) && PcOk(r.states[k], Tags(r, k), t);
    assert StepAt(r, k);
  }

  lemma {:induction false} TagsGrow(r: Run, i: nat, j: nat, o: Obj)
    requires IsRun(r) && i <= j <= |r.labels| && o in Tags(r, i)
    ensures o in Tags(r, j) && Tags(r, j)[o] == Tags(r, i)[o]
  {
    if i < j {
      TagsGrow(r, i, j - 1, o);
      TagsComeFromMints(r, j - 1, o);
    }
  }

  /** Equal positive answers, whenever and to whichever threads, are about the same object. */
  lemma {:induction false} AnswersIdentify(r: Run, i: nat, j: nat, t: Thread, u: Thread, o: Obj, p: Obj, tag: int)
    requires IsRun(r) && i <= j && Answers(r, i, t, o, tag) && Answers(r, j, u, p, tag) && tag > 0
    ensures o == p
  {
    AnswerIsTagOrMinusOne(r, i, t, o, tag);
    AnswerIsTagOrMinusOne(r, j, u, p, tag);
    TagsGrow(r, i, j, o);
    Reachable(r, j);
  }

  lemma {:induction false} ViewKept(r: Run, i: nat, k: nat, t: Thread, o: Obj)
    requires IsRun(r) && i <= k <= |r.labels| && View(r.states[i], t, o) != 0
    requires forall m :: i <= m < k ==> !TagsItself(r, m, t, o)
    ensures View(r.states[k], t, o) == View(r.states[i], t, o)
  {
    if i < k {
      ViewKept(r, i, k - 1, t, o);
      RunViewStep(r, k - 1, t, o);
      Reachable(r, k - 1);
      assert StepAt(r, k - 1) && !TagsItself(r, k - 1, t, o);
      ViewStep(r.states[k - 1], r.labels[k - 1], r.states[k], Tags(r, k - 1), t, o);
    }
  }

  /** Once a thread has answered for an object it keeps to that answer until it tags the object itself. */
  lemma {:induction false} AnswersStable(r: Run, i: nat, j: nat, t: Thread, o: Obj, x: int, y: int)
    requires IsRun(r) && i < j && Answers(r, i, t, o, x) && Answers(r, j, t, o, y)
    requires forall m :: i < m < j ==> !TagsItself(r, m, t, o)
    ensures x == y
  {
    RunViewStep(r, i, t, o);
    RunViewStep(r, j, t, o);
    AnswerIsTagOrMinusOne(r, i, t, o, x);
    ViewKept(r, i + 1, j, t, o);
  }

  // ------------------------------------------------------ when it decides

  lemma {:induction false} DecidedAt(r: Run, k: nat, t: Thread, o: Obj) returns (d: nat)
    requires IsRun(r) && k <= |r.labels| && View(r.states[k], t, o) != 0
    ensures d < k && Decides(r.states[d], r.labels[d], t, o)
    ensures View(r.states[k], t, o) == Decision(r.states[d], t, o)
    ensures forall m :: d < m < k ==> !Decides(r.states[m], r.labels[m], t, o)
  {
    RunViewStep(r, k - 1, t, o);
    if Decides(r.states[k - 1], r.labels[k - 1], t, o) {
      d := k - 1;
    } else {
      d := DecidedAt(r, k - 1, t, o);
    }
  }

  /**
   Every answer goes back to one step of the answering thread, its last decision:
   it is what the shared table held at that instant, or -1 if it held nothing, or
   the tag the thread was itself giving the object.
   */
  lemma {:induction false} AnswerLinearizes(r: Run, j: nat, t: Thread, o: Obj, x: int) returns (d: nat)
    requires IsRun(r) && Answers(r, j, t, o, x)
    ensures d < j && Decides(r.states[d], r.labels[d], t, o) && x == Decision(r.states[d], t, o)
    ensures forall m :: d < m < j ==> !Decides(r.states[m], r.labels[m], t, o)
  {
    RunViewStep(r, j, t, o);
    AnswerIsTagOrMinusOne(r, j, t, o, x);
    d := DecidedAt(r, j, t, o);
  }

  // ------------------------------------------------------------- freshness

  /** Step `k` completes the tagging of `o`. */
  ghost predicate Publishes(r: Run, k: nat, o: Obj, tag: int)
    requires |r.states| == |r.labels| + 1
  {
    k < |r.labels| && At(r.states[k], r.labels[k].thread) == SetShared(o, tag)
  }

  lemma {:induction false} SharedStep(s: State, l: Label, s': State, tags: map<Obj, int>, o: Obj)
    requires Inv(s, tags) && Next(s, l.thread, l.action, s') && IsTag(tags, o, Shared(s, o))
    ensures Shared(s', o) == Shared(s, o)
  {
    assert PcOk(s, tags, l.thread);
  }

  lemma {:induction false} PublishedStays(r: Run, k: nat, m: nat, o: Obj, tag: int)
    requires IsRun(r) && Publishes(r, k, o, tag) && k < m <= |r.labels|
    ensures Shared(r.states[m], o) == tag && IsTag(Tags(r, m), o, tag)
  {
    Reachable(r, m - 1);
    assert StepAt(r, m - 1);
    if m == k + 1 {
      assert PcOk(r.states[k], Tags(r, k), r.labels[k].thread);
      TagsGrow(r, k, m, o);
    } else {
      PublishedStays(r, k, m - 1, o, tag);
      SharedStep(r.states[m - 1], r.labels[m - 1], r.states[m], Tags(r, m - 1), o);
      TagsGrow(r, m - 1, m, o);
    }
  }

  /** A thread that has never answered for an object has nothing cached for it but a tag it gave itself. */
  lemma {:induction false} NeverAnswered(r: Run, k: nat, t: Thread, o: Obj)
    requires IsRun(r) && k <= |r.labels|
    requires forall m, x :: 0 <= m < k ==> !Answers(r, m, t, o, x)
    ensures Local(r.states[k], t, o) == 0 || IsTag(Tags(r, k), o, Local(r.states[k], t, o))
  {
    if k > 0 {
      NeverAnswered(r, k - 1, t, o);
      Reachable(r, k - 1);
      assert StepAt(r, k - 1);
      var s, l := r.states[k - 1], r.labels[k - 1];
      assert PcOk(s, Tags(r, k - 1), l.thread);
      if o in Tags(r, k - 1) { TagsGrow(r, k - 1, k, o); }
      if l.thread == t && At(s, t).Cache? && At(s, t).obj == o {
        assert Answers(r, k - 1, t, o, l.action.tag);
      }
    }
  }

  lemma {:induction false} ViewFresh(r: Run, k: nat, i: nat, j: nat, t: Thread, o: Obj, tag: int)
    requires IsRun(r) && Publishes(r, k, o, tag) && k < i <= j <= |r.labels|
    requires View(r.states[i], t, o) == 0 || View(r.states[i], t, o) == tag
    ensures View(r.states[j], t, o) == 0 || View(r.states[j], t, o) == tag
  {
    if i < j {
      ViewFresh(r, k, i, j - 1, t, o, tag);
      PublishedStays(r, k, j - 1, o, tag);
      RunViewStep(r, j - 1, t, o);
      Reachable(r, j - 1);
      assert PcOk(r.states[j - 1], Tags(r, j - 1), t);
    }
  }

  /** A thread whose first lookup of an object starts after its tagging completed answers with the minted tag, then and ever after. */
  lemma {:induction false} FirstLookupAfterTagging(r: Run, k: nat, i: nat, j: nat, t: Thread, o: Obj, tag: int, x: int)
    requires IsRun(r) && Publishes(r, k, o, tag) && k < i < j < |r.labels|
    requires r.labels[i] == Label(t, StartLookup(o)) && Answers(r, j, t, o, x)
    requires forall m, y :: 0 <= m < i ==> !Answers(r, m, t, o, y)
    ensures x == tag
  {
    NeverAnswered(r, i, t, o);
    PublishedStays(r, k, i, o, tag);
    assert StepAt(r, i);
    ViewFresh(r, k, i, j, t, o, tag);
    RunViewStep(r, j, t, o);
    AnswerIsTagOrMinusOne(r, j, t, o, x);
  }

  /** Thread `t` answers nothing strictly between the two steps. */
  ghost predicate Silent(r: Run, t: Thread, i: nat, j: nat)
    requires j <= |r.labels|
  {
    forall n :: i < n < j ==> !(r.labels[n].thread == t && r.labels[n].action.Answer?)
  }

  /** A lookup that finds -1 in the cache has nothing left to do but answer. */
  lemma {:induction false} StaysReading(r: Run, i: nat, m: nat, t: Thread, o: Obj)
    requires IsRun(r) && i < m <= |r.labels| && Silent(r, t, i, m)
    requires r.labels[i] == Label(t, StartLookup(o)) && Local(r.states[i], t, o) == -1
    ensures At(r.states[m], t) == ReadLocal(o) && Local(r.states[m], t, o) == -1
  {
    assert StepAt(r, m - 1);
    if m > i + 1 {
      StaysReading(r, i, m - 1, t, o);
    }
  }

  /** Thread `t` has answered -1 for the object and not tagged it itself since. */
  ghost predicate MissedBefore(r: Run, i: nat, t: Thread, o: Obj)
    requires i <= |r.labels| < |r.states|
  {
    exists m: nat :: m < i && Answers(r, m, t, o, -1) && KeepsAway(r, m, i, t, o)
  }

  ghost predicate KeepsAway(r: Run, m: nat, i: nat, t: Thread, o: Obj)
    requires i <= |r.labels| < |r.states|
  {
    forall n: nat :: m < n < i ==> !TagsItself(r, n, t, o)
  }

  lemma {:induction false} MissedStep(r: Run, i: nat, t: Thread, o: Obj)
    requires i < |r.labels| < |r.states|
    ensures MissedBefore(r, i + 1, t, o) <==> Answers(r, i, t, o, -1) || (MissedBefore(r, i, t, o) && !TagsItself(r, i, t, o))
  {
    if Answers(r, i, t, o, -1) {
      assert KeepsAway(r, i, i + 1, t, o);
    } else if m: nat :| m < i && Answers(r, m, t, o, -1) && KeepsAway(r, m, i, t, o) && !TagsItself(r, i, t, o) {
      assert KeepsAway(r, m, i + 1, t, o);
    }
    if MissedBefore(r, i + 1, t, o) && !Answers(r, i, t, o, -1) {
      var m: nat :| m < i + 1 && Answers(r, m, t, o, -1) && KeepsAway(r, m, i + 1, t, o);
      assert KeepsAway(r, m, i, t, o);
    }
  }

  lemma {:induction false} LocalStep(s: State, l: Label, s': State, tags: map<Obj, int>, t: Thread, o: Obj)
    requires Inv(s, tags) && Next(s, l.thread, l.action, s')
    ensures Local(s', t, o) == -1 <==>
              l == Label(t, Answer(o, -1)) ||
              (Local(s, t, o) == -1 && !(l.thread == t && At(s, t).SetLocal? && At(s, t).obj == o))
  {
    assert PcOk(s, tags, t);
  }

  /** What the cache holds, as a fact of the run: -1 is there exactly if the thread answered so and has not tagged the object since. */
  lemma {:induction false} CachedMinusOneIff(r: Run, i: nat, t: Thread, o: Obj)
    requires IsRun(r) && i <= |r.labels|
    ensures Local(r.states[i], t, o) == -1 <==> MissedBefore(r, i, t, o)
  {
    if i > 0 {
      CachedMinusOneIff(r, i - 1, t, o);
      Reachable(r, i - 1);
      assert StepAt(r, i - 1);
      LocalStep(r.states[i - 1], r.labels[i - 1], r.states[i], Tags(r, i - 1), t, o);
      MissedStep(r, i - 1, t, o);
    }
  }

  /**
   Exactly when the cache is coherent: a lookup started after the tagging completed
   answers the tag if and only if the thread has not answered -1 for the object before,
   or has tagged it itself since; that is, if no -1 is cached for it.
   */
  lemma {:induction false} LookupIsFreshIff(r: Run, k: nat, i: nat, j: nat, t: Thread, o: Obj, tag: int, x: int)
    requires IsRun(r) && Publishes(r, k, o, tag) && k < i < j < |r.labels|
    requires r.labels[i] == Label(t, StartLookup(o)) && Answers(r, j, t, o, x) && Silent(r, t, i, j)
    ensures x == tag <==> !MissedBefore(r, i, t, o)
    ensures x == tag <==> Local(r.states[i], t, o) != -1
  {
    AnswerIsTagOrMinusOne(r, j, t, o, x);
    RunViewStep(r, j, t, o);
    PublishedStays(r, k, i, o, tag);
    CachedMinusOneIff(r, i, t, o);
    Reachable(r, i);
    assert LocalOk(r.states[i], Tags(r, i), t, o) && StepAt(r, i) && StepAt(r, j);
    if Local(r.states[i], t, o) == -1 {
      StaysReading(r, i, j, t, o);
      PublishedIsPositive(r, k, i, o, tag);
    } else {
      ViewFresh(r, k, i, j, t, o, tag);
    }
  }

  lemma {:induction false} PublishedIsPositive(r: Run, k: nat, m: nat, o: Obj, tag: int)
    requires IsRun(r) && Publishes(r, k, o, tag) && k < m <= |r.labels|
    ensures tag >= 10
  {
    PublishedStays(r, k, m, o, tag);
    Reachable(r, m);
  }

  // ------------------------------------------------------------- staleness

  lemma {:induction false} Extend(r: Run, l: Label, s': State) returns (longer: Run)
    requires IsRun(r) && Next(r.states[|r.labels|], l.thread, l.action, s')
    requires l.action.Mint? ==> forall i :: 0 <= i < |r.labels| ==> r.labels[i].action != l.action
    ensures longer == Run(r.states + [s'], r.labels + [l]) && IsRun(longer)
  {
    longer := Run(r.states + [s'], r.labels + [l]);
    forall i | 0 <= i < |longer.labels| ensures StepAt(longer, i) {
      if i < |r.labels| { assert StepAt(r, i); }
    }
  }

  /** The cache is not coherent: a lookup can answer -1 for an object whose tag everyone can see. */
  lemma {:induction false} StaleAnswer() returns (r: Run)
    ensures IsRun(r) && Answers(r, 8, 1, 7, -1) && Shared(r.states[8], 7) == 10
  {
    r := Run([START], []);
    var s := START.(pcs := map[1 := ReadLocal(7)]);
    r := Extend(r, Label(1, StartLookup(7)), s);
    s := s.(pcs := s.pcs[1 := ReadShared(7)]);
    r := Extend(r, Label(1, Step), s);
    s := s.(pcs := s.pcs[1 := Cache(7, 0)]);
    r := Extend(r, Label(1, Step), s);
    s := s.(local := s.local[(1, 7) := -1], pcs := s.pcs[1 := Idle]);
    r := Extend(r, Label(1, Answer(7, -1)), s);
    s := s.(counter := 11, pcs := s.pcs[0 := SetLocal(7, 10)]);
    r := Extend(r, Label(0, Mint(7)), s);
    s := s.(local := s.local[(0, 7) := 10], pcs := s.pcs[0 := SetShared(7, 10)]);
    r := Extend(r, Label(0, Step), s);
    s := s.(shared := s.shared[7 := 10], pcs := s.pcs[0 := Idle]);
    r := Extend(r, Label(0, Step), s);
    s := s.(pcs := s.pcs[1 := ReadLocal(7)]);
    r := Extend(r, Label(1, StartLookup(7)), s);
    s := s.(pcs := s.pcs[1 := Idle]);
    r := Extend(r, Label(1, Answer(7, -1)), s);
  }

  // ------------------------------------------------------ tags in records

  /** While fewer than 2^32 - 11 tags are minted, each fits an address member and is neither null nor the unknown marker. */
  lemma {:induction false} TagsFitAddresses(r: Run, k: nat, o: Obj)
    requires IsRun(r) && k <= |r.labels| && r.states[k].counter <= UNKNOWN && o in Tags(r, k)
    ensures 0 < Tags(r, k)[o] < UNKNOWN
    ensures forall p :: p in Tags(r, k) && p != o ==> Tags(r, k)[p] % TWO_32 != Tags(r, k)[o] % TWO_32
  {
    Reachable(r, k);
  }

  /** What a lookup's answer becomes in a record: the tag itself, or the unknown marker. */
  lemma {:induction false} AnswerInRecord(r: Run, k: nat, t: Thread, o: Obj, tag: int)
    requires IsRun(r) && Answers(r, k, t, o, tag) && r.states[k].counter <= UNKNOWN
    ensures tag % TWO_32 == if tag == -1 then UNKNOWN else tag
    ensures tag != -1 ==> IsTag(Tags(r, k), o, tag % TWO_32)
  {
    AnswerIsTagOrMinusOne(r, k, t, o, tag);
    if tag != -1 { TagsFitAddresses(r, k, o); }
  }
}
