/** That calls on the tag cache finish, and with what. */
module TagProgress {
  import opened TagCache

  // A thread in the middle of a call always has exactly one next step and needs at most
  // three more; a lookup that runs to its end answers the tag whenever that is published
  // and no -1 is in its way.

  // ------------------------------------------------------------ single steps

  /** How many steps a call may still take. */
  function Rank(pc: Pc): nat {
    match pc
    case Idle => 0
    case ReadLocal(_) => 3
    case ReadShared(_) => 2
    case Cache(_, _) => 1
    case SetLocal(_, _) => 2
    case SetShared(_, _) => 1
  }

  /** In the middle of a call there is a next step, only one, and it brings the call nearer to its end. */
  lemma {:induction false} MidCallStep(s: State, t: Thread) returns (a: Action, s': State)
    requires At(s, t) != Idle
    ensures Next(s, t, a, s') && !a.Mint? && !a.StartLookup?
    ensures forall b, r :: Next(s, t, b, r) ==> b == a && r == s'
    ensures Rank(At(s', t)) < Rank(At(s, t))
  {
    match At(s, t)
    case ReadLocal(o) =>
      if Local(s, t, o) != 0 {
        a, s' := Answer(o, Local(s, t, o)), s.(pcs := s.pcs[t := Idle]);
      } else {
        a, s' := Step, s.(pcs := s.pcs[t := ReadShared(o)]);
      }
    case ReadShared(o) =>
      a, s' := Step, s.(pcs := s.pcs[t := Cache(o, Shared(s, o))]);
    case Cache(o, seen) =>
      var tag := if seen != 0 then seen else -1;
      a, s' := Answer(o, tag), s.(local := s.local[(t, o) := tag], pcs := s.pcs[t := Idle]);
    case SetLocal(o, tag) =>
      a, s' := Step, s.(local := s.local[(t, o) := tag], pcs := s.pcs[t := SetShared(o, tag)]);
    case SetShared(o, tag) =>
      a, s' := Step, s.(shared := s.shared[o := tag], pcs := s.pcs[t := Idle]);
  }

  /** Nobody else's step moves a thread. */
  lemma {:induction false} OthersStand(s: State, t: Thread, a: Action, s': State, u: Thread)
    requires Next(s, t, a, s') && u != t
    ensures At(s', u) == At(s, u)
  {
  }

  /** The steps a thread takes among steps `i` to `j` of a run. */
  function StepsOf(labels: seq<Label>, t: Thread, i: nat, j: nat): nat
    requires i <= j <= |labels|
  {
    if i == j then 0 else StepsOf(labels, t, i, j - 1) + if labels[j - 1].thread == t then 1 else 0
  }

  /** Whatever other threads do in between, a call is over after at most three more steps of its own. */
  lemma {:induction false} CallsAreShort(r: Run, i: nat, j: nat, t: Thread)
    requires IsRun(r) && i <= j <= |r.labels|
    requires forall k :: i <= k <= j ==> At(r.states[k], t) != Idle
    ensures StepsOf(r.labels, t, i, j) + Rank(At(r.states[j], t)) <= Rank(At(r.states[i], t)) <= 3
  {
    if i < j {
      CallsAreShort(r, i, j - 1, t);
      assert StepAt(r, j - 1);
      var l := r.labels[j - 1];
      if l.thread == t {
        var a, s' := MidCallStep(r.states[j - 1], t);
      } else {
        OthersStand(r.states[j - 1], l.thread, l.action, r.states[j], t);
      }
    }
  }

  // ------------------------------------------------------------ tag numbers

  function MintsBefore(labels: seq<Label>, k: nat): nat
    requires k <= |labels|
  {
    if k == 0 then 0 else MintsBefore(labels, k - 1) + if labels[k - 1].action.Mint? then 1 else 0
  }

  lemma {:induction false} CounterCounts(r: Run, k: nat)
    requires IsRun(r) && k <= |r.labels|
    ensures r.states[k].counter == 10 + MintsBefore(r.labels, k)
  {
    if k > 0 {
      CounterCounts(r, k - 1);
      assert StepAt(r, k - 1);
    }
  }

  /** The tag of an object is 10 plus the number of tags minted before its own. */
  lemma {:induction false} TagIsMintNumber(r: Run, k: nat, o: Obj) returns (i: nat)
    requires IsRun(r) && k <= |r.labels| && o in Tags(r, k)
    ensures i < k && r.labels[i].action == Mint(o) && Tags(r, k)[o] == 10 + MintsBefore(r.labels, i)
  {
    if r.labels[k - 1].action == Mint(o) {
      i := k - 1;
      CounterCounts(r, i);
    } else {
      i := TagIsMintNumber(r, k - 1, o);
    }
  }

  // -------------------------------------------------- what is published, when

  ghost predicate Published(r: Run, n: nat, o: Obj, tag: int)
    requires |r.states| == |r.labels| + 1
  {
    exists k: nat :: k < n && Publishes(r, k, o, tag)
  }

  /** The shared table holds exactly what has been published. */
  lemma {:induction false} SharedIffPublished(r: Run, n: nat, o: Obj)
    requires IsRun(r) && n <= |r.labels|
    ensures Shared(r.states[n], o) != 0 ==> Published(r, n, o, Shared(r.states[n], o))
    ensures forall tag :: Published(r, n, o, tag) ==> Shared(r.states[n], o) == tag && tag >= 10
  {
    if n > 0 {
      SharedIffPublished(r, n - 1, o);
      assert StepAt(r, n - 1);
      if Shared(r.states[n], o) != Shared(r.states[n - 1], o) {
        assert Publishes(r, n - 1, o, Shared(r.states[n], o));
      }
    }
    forall tag | Published(r, n, o, tag) ensures Shared(r.states[n], o) == tag && tag >= 10 {
      var k: nat :| k < n && Publishes(r, k, o, tag);
      PublishedStays(r, k, n, o, tag);
      PublishedIsPositive(r, k, n, o, tag);
    }
  }

  /** A tag that a thread has seen, or cached, is published, unless the thread is just publishing it. */
  ghost predicate SeenIsPublished(s: State, t: Thread, o: Obj) {
    && (Local(s, t, o) > 0 ==> Shared(s, o) == Local(s, t, o) || At(s, t) == SetShared(o, Local(s, t, o)))
    && (forall seen :: At(s, t) == Cache(o, seen) && seen != 0 ==> Shared(s, o) == seen)
  }

  lemma {:induction false} SeenStep(s: State, l: Label, s': State, tags: map<Obj, int>, t: Thread, o: Obj)
    requires Inv(s, tags) && Next(s, l.thread, l.action, s') && SeenIsPublished(s, t, o)
    ensures SeenIsPublished(s', t, o)
  {
    assert PcOk(s, tags, l.thread) && PcOk(s, tags, t) && SharedOk(s, tags, o);
  }

  lemma {:induction false} SeenInRun(r: Run, n: nat, t: Thread, o: Obj)
    requires IsRun(r) && n <= |r.labels|
    ensures SeenIsPublished(r.states[n], t, o)
  {
    if n > 0 {
      SeenInRun(r, n - 1, t, o);
      Reachable(r, n - 1);
      assert StepAt(r, n - 1);
      SeenStep(r.states[n - 1], r.labels[n - 1], r.states[n], Tags(r, n - 1), t, o);
    }
  }

  // ------------------------------------------------------- calls run to the end

  /** `longer` is `r` and then up to `most` steps, all of them thread `t`'s. */
  ghost predicate Continues(r: Run, longer: Run, t: Thread, most: nat) {
    && IsRun(r) && IsRun(longer) && |r.labels| <= |longer.labels| <= |r.labels| + most
    && longer.labels[..|r.labels|] == r.labels && longer.states[..|r.states|] == r.states
    && forall i :: |r.labels| <= i < |longer.labels| ==> longer.labels[i].thread == t
  }

  ghost function Last(r: Run): State
    requires |r.states| == |r.labels| + 1
  {
    r.states[|r.labels|]
  }

  /** One more step of a call in progress. */
  lemma {:induction false} OneStep(r: Run, t: Thread) returns (longer: Run, a: Action)
    requires IsRun(r) && At(Last(r), t) != Idle
    ensures Continues(r, longer, t, 1) && longer.labels == r.labels + [Label(t, a)]
    ensures Next(Last(r), t, a, Last(longer))
  {
    var s';
    a, s' := MidCallStep(Last(r), t);
    longer := Extend(r, Label(t, a), s');
  }

  lemma {:induction false} ContinuesOn(r: Run, q: Run, longer: Run, t: Thread, m: nat, n: nat)
    requires Continues(r, q, t, m) && Continues(q, longer, t, n)
    ensures Continues(r, longer, t, m + n)
  {
    assert longer.labels[..|r.labels|] == q.labels[..|r.labels|];
    assert longer.states[..|r.states|] == q.states[..|r.states|];
    forall i | |r.labels| <= i < |longer.labels| ensures longer.labels[i].thread == t {
      if i < |q.labels| { assert longer.labels[..|q.labels|][i] == q.labels[i]; }
    }
  }

  /** What a lookup that starts now and is not overtaken answers, by the tables. */
  ghost function Found(s: State, t: Thread, o: Obj): int {
    if Local(s, t, o) != 0 then Local(s, t, o) else if Shared(s, o) != 0 then Shared(s, o) else -1
  }

  lemma {:induction false} LookupEnds(r: Run, t: Thread, o: Obj) returns (longer: Run)
    requires IsRun(r) && At(Last(r), t) == Idle
    ensures Continues(r, longer, t, 4) && |longer.labels| > |r.labels|
    ensures Answers(longer, |longer.labels| - 1, t, o, Found(Last(r), t, o)) && At(Last(longer), t) == Idle
  {
    var s := Last(r);
    var started := Extend(r, Label(t, StartLookup(o)), s.(pcs := s.pcs[t := ReadLocal(o)]));
    assert Continues(r, started, t, 1);
    var q, a := OneStep(started, t);
    ContinuesOn(r, started, q, t, 1, 1);
    if Local(s, t, o) != 0 {
      longer := q;
    } else {
      var q', a' := OneStep(q, t);
      ContinuesOn(r, q, q', t, 2, 1);
      var a'';
      longer, a'' := OneStep(q', t);
      ContinuesOn(r, q', longer, t, 3, 1);
    }
  }

  /**
   From any run, an idle thread's lookup can run to its end in at most four steps.  It
   then answers the object's tag if that has been published and the thread holds no
   -1 of its own for it, and -1 otherwise.
   */
  lemma {:induction false} LookupAnswers(r: Run, t: Thread, o: Obj) returns (longer: Run, x: int)
    requires IsRun(r) && At(Last(r), t) == Idle
    ensures Continues(r, longer, t, 4) && |longer.labels| > |r.labels|
    ensures Answers(longer, |longer.labels| - 1, t, o, x) && At(Last(longer), t) == Idle
    ensures forall tag :: Published(r, |r.labels|, o, tag) && !MissedBefore(r, |r.labels|, t, o) ==> x == tag
    ensures MissedBefore(r, |r.labels|, t, o) ==> x == -1
    ensures (forall tag :: !Published(r, |r.labels|, o, tag)) ==> x == -1
  {
    var n, s := |r.labels|, Last(r);
    longer := LookupEnds(r, t, o);
    x := Found(s, t, o);
    CachedMinusOneIff(r, n, t, o);
    SharedIffPublished(r, n, o);
    SeenInRun(r, n, t, o);
    Reachable(r, n);
    assert LocalOk(s, Tags(r, n), t, o);
  }

  /** An idle thread can tag an object not tagged before in three steps; both tables then hold its number. */
  lemma {:induction false} TaggingEnds(r: Run, t: Thread, o: Obj) returns (longer: Run)
    requires IsRun(r) && At(Last(r), t) == Idle
    requires forall i :: 0 <= i < |r.labels| ==> r.labels[i].action != Mint(o)
    ensures Continues(r, longer, t, 3) && At(Last(longer), t) == Idle
    ensures var tag := 10 + MintsBefore(r.labels, |r.labels|);
            && Shared(Last(longer), o) == tag && Local(Last(longer), t, o) == tag
            && Published(longer, |longer.labels|, o, tag)
  {
    var s := Last(r);
    CounterCounts(r, |r.labels|);
    var minted := Extend(r, Label(t, Mint(o)), s.(counter := s.counter + 1, pcs := s.pcs[t := SetLocal(o, s.counter)]));
    assert Continues(r, minted, t, 1);
    var q, a := OneStep(minted, t);
    ContinuesOn(r, minted, q, t, 1, 1);
    var a';
    longer, a' := OneStep(q, t);
    ContinuesOn(r, q, longer, t, 2, 1);
    assert longer.states[|q.labels|] == Last(q);
    assert Publishes(longer, |q.labels|, o, s.counter);
  }
}
