/** Sequences of sequences put end to end, and positions in a sequence. */
module Sequences {
  function Concat<T>(parts: seq<seq<T>>): seq<T> {
    if parts == [] then [] else Concat(parts[..|parts| - 1]) + parts[|parts| - 1]
  }

  lemma {:induction false} ConcatLast<T>(parts: seq<seq<T>>, part: seq<T>)
    ensures Concat(parts + [part]) == Concat(parts) + part
  {
    assert (parts + [part])[..|parts|] == parts;
  }

  lemma {:induction false} ConcatSplit<T>(a: seq<seq<T>>, b: seq<seq<T>>)
    ensures Concat(a + b) == Concat(a) + Concat(b)
  {
    if b == [] {
      assert a + b == a;
    } else {
      var k := |b| - 1;
      assert (a + b)[..|a| + k] == a + b[..k];
      ConcatSplit(a, b[..k]);
    }
  }

  lemma {:induction false} ConcatFirst<T>(part: seq<T>, parts: seq<seq<T>>)
    ensures Concat([part] + parts) == part + Concat(parts)
  {
    ConcatSplit([part], parts);
    assert Concat([part][..0]) == [];
  }

  /** Positions in order, none twice. */
  ghost predicate Ascending(ps: seq<nat>) {
    forall i, j :: 0 <= i < j < |ps| ==> ps[i] < ps[j]
  }

  /** `ps` are exactly the positions that are marked, in order. */
  ghost predicate Marked(marks: seq<bool>, ps: seq<nat>) {
    Ascending(ps) && forall p: nat {:trigger p in ps} :: p in ps <==> p < |marks| && marks[p]
  }

  lemma {:induction false} MarkedLast(marks: seq<bool>, ps: seq<nat>, b: bool)
    requires Marked(marks, ps)
    ensures Marked(marks + [b], if b then ps + [|marks|] else ps)
  {
    var qs := if b then ps + [|marks|] else ps;
    assert forall i :: 0 <= i < |ps| ==> ps[i] in ps;
    forall p: nat ensures p in qs <==> p < |marks + [b]| && (marks + [b])[p] {
      assert p in ps <==> p < |marks| && marks[p];
    }
  }

  /** What `xs` reads at the positions `ps`. */
  ghost predicate ReadsOff<T>(xs: seq<T>, ps: seq<nat>, picked: seq<T>) {
    |picked| == |ps| && forall i {:trigger picked[i]} :: 0 <= i < |ps| ==> ps[i] < |xs| && picked[i] == xs[ps[i]]
  }

  lemma {:induction false} ReadsOffLast<T>(xs: seq<T>, ps: seq<nat>, picked: seq<T>, x: T)
    requires ReadsOff(xs, ps, picked)
    ensures ReadsOff(xs + [x], ps, picked) && ReadsOff(xs + [x], ps + [|xs|], picked + [x])
  {
    var qs, more := ps + [|xs|], picked + [x];
    forall i | 0 <= i < |qs| ensures qs[i] < |xs + [x]| && more[i] == (xs + [x])[qs[i]] {
      if i < |ps| { assert qs[i] == ps[i] && more[i] == picked[i]; }
    }
    assert forall i :: 0 <= i < |ps| ==> qs[i] == ps[i] && more[i] == picked[i];
  }
}
