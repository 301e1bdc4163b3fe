/** What the matcher's pairs are: safety for any input, and the exact pairs for well-timed ones. */
module Pairing {
  import opened Machine
  import opened Records
  import opened Merge
  import opened Matcher

  /** A row by position: the operation's in the merged stream and the line's. */
  datatype Pair = Pair(op: nat, line: nat)

  function Shifted(ps: seq<Pair>, ops: nat, lines: nat): (r: seq<Pair>)
    ensures |r| == |ps|
  {
    if ps == [] then [] else [Pair(ps[0].op + ops, ps[0].line + lines)] + Shifted(ps[1..], ops, lines)
  }

  lemma {:induction false} ShiftedAt(ps: seq<Pair>, ops: nat, lines: nat, n: nat)
    requires n < |ps|
    ensures Shifted(ps, ops, lines)[n] == Pair(ps[n].op + ops, ps[n].line + lines)
  {
    if n > 0 { ShiftedAt(ps[1..], ops, lines, n - 1); }
  }

  /** The positions behind the rows of `Match`. */
  function Pairs(ops: seq<OpRecord>, lines: seq<LineRecord>): seq<Pair>
    decreases |lines|
  {
    if lines == [] || ops == [] then []
    else if Time(ops[0]) > lines[0].time then Shifted(Pairs(ops, lines[1..]), 0, 1)
    else
      var rest := Take(ops, lines[0].time).rest;
      var used := |ops| - |rest|;
      [Pair(used - 1, 0)] + Shifted(Pairs(rest, lines[1..]), used, 1)
  }

  /** The line takes one of the first operations, and leaves those after it. */
  lemma {:induction false} TakeIsPosition(ops: seq<OpRecord>, t: U64)
    requires ops != [] && Time(ops[0]) <= t
    ensures var r := Take(ops, t);
            var k := |ops| - |r.rest| - 1;
            0 <= k && r.op == ops[k] && r.rest == ops[k + 1..] && Time(ops[k]) <= t
  {
    if |ops| > 1 && t - Time(ops[0]) > t - Time(ops[1]) && Time(ops[1]) < t {
      TakeIsPosition(ops[1..], t);
    }
  }

  ghost predicate RowAt(ops: seq<OpRecord>, lines: seq<LineRecord>, p: Pair, row: Row) {
    && p.op < |ops| && p.line < |lines| && row == Row(ops[p.op], lines[p.line])
    && Time(row.op) <= row.line.time
  }

  ghost predicate StrictlyMonotone(ps: seq<Pair>) {
    forall m, n :: 0 <= m < n < |ps| ==> ps[m].op < ps[n].op && ps[m].line < ps[n].line
  }

  ghost predicate Safe(ops: seq<OpRecord>, lines: seq<LineRecord>, rows: seq<Row>, ps: seq<Pair>) {
    && |ps| == |rows| && StrictlyMonotone(ps)
    && forall n :: 0 <= n < |rows| ==> RowAt(ops, lines, ps[n], rows[n])
  }

  lemma {:induction false} SafeShifted(ops: seq<OpRecord>, lines: seq<LineRecord>, used: nat, rows: seq<Row>, ps: seq<Pair>)
    requires used <= |ops| && lines != [] && Safe(ops[used..], lines[1..], rows, ps)
    ensures Safe(ops, lines, rows, Shifted(ps, used, 1))
    ensures forall n :: 0 <= n < |rows| ==> Shifted(ps, used, 1)[n].op >= used && Shifted(ps, used, 1)[n].line >= 1
  {
    var r := Shifted(ps, used, 1);
    forall n | 0 <= n < |rows| ensures RowAt(ops, lines, r[n], rows[n]) && r[n].op >= used && r[n].line >= 1 {
      ShiftedAt(ps, used, 1, n);
      assert RowAt(ops[used..], lines[1..], ps[n], rows[n]);
    }
    forall m, n | 0 <= m < n < |ps| ensures r[m].op < r[n].op && r[m].line < r[n].line {
      ShiftedAt(ps, used, 1, m);
      ShiftedAt(ps, used, 1, n);
    }
  }

  lemma {:induction false} SafeFirst(ops: seq<OpRecord>, lines: seq<LineRecord>, used: nat, row: Row, rows: seq<Row>, ps: seq<Pair>)
    requires 0 < used <= |ops| && lines != [] && Safe(ops[used..], lines[1..], rows, ps)
    requires RowAt(ops, lines, Pair(used - 1, 0), row)
    ensures Safe(ops, lines, [row] + rows, [Pair(used - 1, 0)] + Shifted(ps, used, 1))
  {
    SafeShifted(ops, lines, used, rows, ps);
  }

  /**
   With no assumption on any time: rows use operations and lines in order, none
   of either twice, and no row's operation is later than its line.
   */
  lemma {:induction false} MatchingIsSafe(ops: seq<OpRecord>, lines: seq<LineRecord>)
    ensures Safe(ops, lines, Match(ops, lines), Pairs(ops, lines))
    decreases |lines|
  {
    if lines != [] && ops != [] {
      var later := lines[1..];
      if Time(ops[0]) > lines[0].time {
        MatchingIsSafe(ops, later);
        assert ops[0..] == ops;
        SafeShifted(ops, lines, 0, Match(ops, later), Pairs(ops, later));
      } else {
        var taken := Take(ops, lines[0].time);
        TakeIsPosition(ops, lines[0].time);
        MatchingIsSafe(taken.rest, later);
        SafeFirst(ops, lines, |ops| - |taken.rest|, Row(taken.op, lines[0]), Match(taken.rest, later), Pairs(taken.rest, later));
      }
    }
  }

  // -------------------------------------------------- what each line consumes

  /**
   Line `line`, when `c` operations are gone, leaves `c'` gone: none more if no
   operation is left or the next is later than the line; otherwise all of a run of
   strictly later and later operations before the line, up to where that run ends.
   */
  ghost predicate Consumes(ops: seq<OpRecord>, line: LineRecord, c: nat, c': nat) {
    if c >= |ops| || Time(ops[c]) > line.time then c' == c
    else
      && c < c' <= |ops|
      && (forall i :: c < i < c' ==> Time(ops[i - 1]) < Time(ops[i]) < line.time)
      && (c' < |ops| ==> !(Time(ops[c' - 1]) < Time(ops[c']) < line.time))
  }

  /** Where the lookahead ends, whatever the first operation's time. */
  lemma {:induction false} TakeStartsAnywhere(ops: seq<OpRecord>, t: U64)
    requires ops != []
    ensures var c := |ops| - |Take(ops, t).rest|;
            && 0 < c && (forall i :: 0 < i < c ==> Time(ops[i - 1]) < Time(ops[i]) < t)
            && (c < |ops| ==> !(Time(ops[c - 1]) < Time(ops[c]) < t))
  {
    if |ops| > 1 && Time(ops[0]) < Time(ops[1]) < t {
      var tail := ops[1..];
      TakeStartsAnywhere(tail, t);
      var c := |tail| - |Take(tail, t).rest|;
      forall i | 0 < i < c + 1 ensures Time(ops[i - 1]) < Time(ops[i]) < t {
        if i > 1 { assert Time(tail[i - 2]) < Time(tail[i - 1]) < t; }
      }
    }
  }

  /** From line to line, and which operation each one takes: the last it consumes. */
  ghost predicate Walk(ops: seq<OpRecord>, lines: seq<LineRecord>, cs: seq<nat>, ps: seq<Pair>) {
    && |cs| == |lines| + 1 && cs[0] == 0
    && (forall j :: 0 <= j < |lines| ==> LineConsumes(ops, lines, cs, j))
    && ReadsWalk(cs, ps)
  }

  ghost predicate LineConsumes(ops: seq<OpRecord>, lines: seq<LineRecord>, cs: seq<nat>, j: nat)
    requires j < |lines| && j + 1 < |cs|
  {
    Consumes(ops, lines[j], cs[j], cs[j + 1])
  }

  predicate Takes(cs: seq<nat>, p: Pair) {
    p.line + 1 < |cs| && cs[p.line] < cs[p.line + 1] && p.op == cs[p.line + 1] - 1
  }

  /** `c` operations are gone before the walk over `cs` begins. */
  function Onward(cs: seq<nat>, c: nat): (r: seq<nat>)
    ensures |r| == |cs| + 1 && r[0] == 0
    ensures forall j :: 0 <= j < |cs| ==> r[j + 1] == cs[j] + c
  {
    [0] + seq(|cs|, j requires 0 <= j < |cs| => cs[j] + c)
  }

  lemma {:induction false} ConsumesOnward(ops: seq<OpRecord>, used: nat, line: LineRecord, c: nat, c': nat)
    requires used <= |ops| && Consumes(ops[used..], line, c, c')
    ensures Consumes(ops, line, c + used, c' + used)
  {
    var tail := ops[used..];
    if c < |tail| && Time(tail[c]) <= line.time {
      forall i | c + used < i < c' + used ensures Time(ops[i - 1]) < Time(ops[i]) < line.time {
        assert Time(tail[i - used - 1]) < Time(tail[i - used]) < line.time;
      }
    }
  }

  ghost predicate ReadsWalk(cs: seq<nat>, ps: seq<Pair>) {
    forall p {:trigger p in ps} :: p in ps <==> Takes(cs, p)
  }

  /** The pair of a first line that consumes `used` operations, if it consumes any. */
  function Own(used: nat): seq<Pair> {
    if used > 0 then [Pair(used - 1, 0)] else []
  }

  lemma {:induction false} ReadsOnward(used: nat, cs: seq<nat>, ps: seq<Pair>)
    requires cs != [] && cs[0] == 0 && ReadsWalk(cs, ps)
    ensures ReadsWalk(Onward(cs, used), Own(used) + Shifted(ps, used, 1))
  {
    forall p {:trigger p in Own(used) + Shifted(ps, used, 1)}
      ensures p in Own(used) + Shifted(ps, used, 1) <==> Takes(Onward(cs, used), p)
    {
      InShifted(ps, used, 1, p);
      TakesOnward(used, cs, p);
      if p.line > 0 && p.op >= used {
        var q := Pair(p.op - used, p.line - 1);
        assert q in ps <==> Takes(cs, q);
      }
    }
  }

  lemma {:induction false} TakesOnward(used: nat, cs: seq<nat>, p: Pair)
    requires cs != [] && cs[0] == 0
    ensures Takes(Onward(cs, used), p) <==>
            if p.line == 0 then used > 0 && p.op == used - 1
            else p.op >= used && Takes(cs, Pair(p.op - used, p.line - 1))
  {
    var r := Onward(cs, used);
    if 0 < p.line < |cs| {
      assert r[p.line] == cs[p.line - 1] + used;
      if p.line + 1 < |r| { assert r[p.line + 1] == cs[p.line] + used; }
    }
  }

  lemma {:induction false} LineOnward(ops: seq<OpRecord>, lines: seq<LineRecord>, used: nat, cs: seq<nat>, j: nat)
    requires used <= |ops| && j + 1 < |lines| && j + 1 < |cs| && LineConsumes(ops[used..], lines[1..], cs, j)
    ensures LineConsumes(ops, lines, Onward(cs, used), j + 1)
  {
    ConsumesOnward(ops, used, lines[j + 1], cs[j], cs[j + 1]);
  }

  /** The first line consumes `used` operations; the walk over the rest goes on from there. */
  lemma {:induction false} WalkOnward(ops: seq<OpRecord>, lines: seq<LineRecord>, used: nat, cs: seq<nat>, ps: seq<Pair>)
    requires lines != [] && used <= |ops| && Walk(ops[used..], lines[1..], cs, ps)
    requires Consumes(ops, lines[0], 0, used)
    ensures Walk(ops, lines, Onward(cs, used), Own(used) + Shifted(ps, used, 1))
  {
    var r := Onward(cs, used);
    ReadsOnward(used, cs, ps);
    forall j | 0 <= j < |lines| ensures LineConsumes(ops, lines, r, j) {
      if j > 0 { LineOnward(ops, lines, used, cs, j - 1); }
    }
  }

  /**
   With no assumption on any time: each line consumes what `Consumes` says, and the
   matcher pairs it with the last operation it consumes, or with none.
   */
  lemma {:induction false} PairsWalk(ops: seq<OpRecord>, lines: seq<LineRecord>) returns (cs: seq<nat>)
    ensures Walk(ops, lines, cs, Pairs(ops, lines))
    decreases |lines|
  {
    if lines == [] {
      cs := [0];
    } else if ops == [] || Time(ops[0]) > lines[0].time {
      cs := PairsWalk(ops, lines[1..]);
      assert ops[0..] == ops;
      WalkOnward(ops, lines, 0, cs, Pairs(ops, lines[1..]));
      cs := Onward(cs, 0);
      assert Own(0) + Shifted(Pairs(ops, lines[1..]), 0, 1) == Pairs(ops, lines);
    } else {
      var used := PairsAfterTake(ops, lines);
      TakeStartsAnywhere(ops, lines[0].time);
      cs := PairsWalk(ops[used..], lines[1..]);
      WalkOnward(ops, lines, used, cs, Pairs(ops[used..], lines[1..]));
      cs := Onward(cs, used);
    }
  }

  // ------------------------------------------------------------- exactness

  predicate OpsAt(ops: seq<OpRecord>, i: nat, j: nat)
    requires i < |ops| && j < |ops|
  {
    Time(ops[i]) < Time(ops[j])
  }

  predicate LinesAt(lines: seq<LineRecord>, i: nat, j: nat)
    requires i < |lines| && j < |lines|
  {
    lines[i].time < lines[j].time
  }

  predicate Differ(ops: seq<OpRecord>, lines: seq<LineRecord>, i: nat, j: nat)
    requires i < |ops| && j < |lines|
  {
    Time(ops[i]) != lines[j].time
  }

  /** Each stream in strict time order. */
  ghost predicate Increasing(ops: seq<OpRecord>, lines: seq<LineRecord>) {
    && (forall i, j :: 0 <= i < j < |ops| ==> OpsAt(ops, i, j))
    && (forall i, j :: 0 <= i < j < |lines| ==> LinesAt(lines, i, j))
  }

  ghost predicate NoTies(ops: seq<OpRecord>, lines: seq<LineRecord>) {
    forall i, j :: 0 <= i < |ops| && 0 <= j < |lines| ==> Differ(ops, lines, i, j)
  }

  /** Times as one thread's clock gives them: all different, each stream in order. */
  ghost predicate WellTimed(ops: seq<OpRecord>, lines: seq<LineRecord>) {
    Increasing(ops, lines) && NoTies(ops, lines)
  }

  lemma {:induction false} SuffixesIncreasing(ops: seq<OpRecord>, lines: seq<LineRecord>, m: nat, n: nat)
    requires Increasing(ops, lines) && m <= |ops| && n <= |lines|
    ensures Increasing(ops[m..], lines[n..])
  {
    forall i, j | 0 <= i < j < |ops[m..]| ensures OpsAt(ops[m..], i, j) { assert OpsAt(ops, m + i, m + j); }
    forall i, j | 0 <= i < j < |lines[n..]| ensures LinesAt(lines[n..], i, j) { assert LinesAt(lines, n + i, n + j); }
  }

  lemma {:induction false} SuffixesWellTimed(ops: seq<OpRecord>, lines: seq<LineRecord>, m: nat, n: nat)
    requires WellTimed(ops, lines) && m <= |ops| && n <= |lines|
    ensures WellTimed(ops[m..], lines[n..])
  {
    SuffixesIncreasing(ops, lines, m, n);
    forall i, j | 0 <= i < |ops[m..]| && 0 <= j < |lines[n..]| ensures Differ(ops[m..], lines[n..], i, j) {
      assert Differ(ops, lines, m + i, n + j);
    }
  }

  /** Operation `i` is the latest before line `j`, and comes after the line before it. */
  predicate LatestBefore(ops: seq<OpRecord>, lines: seq<LineRecord>, i: nat, j: nat) {
    && i < |ops| && j < |lines| && Time(ops[i]) < lines[j].time
    && (j > 0 ==> lines[j - 1].time < Time(ops[i]))
    && (i + 1 < |ops| ==> lines[j].time < Time(ops[i + 1]))
  }

  lemma {:induction false} TakeIsLatest(ops: seq<OpRecord>, lines: seq<LineRecord>)
    requires ops != [] && lines != [] && WellTimed(ops, lines) && Time(ops[0]) <= lines[0].time
    ensures var k := |ops| - |Take(ops, lines[0].time).rest| - 1;
            0 <= k && LatestBefore(ops, lines, k, 0)
  {
    var t := lines[0].time;
    assert Differ(ops, lines, 0, 0);
    if |ops| > 1 {
      assert Differ(ops, lines, 1, 0) && OpsAt(ops, 0, 1);
      if Time(ops[1]) < t {
        assert lines[0..] == lines;
        SuffixesWellTimed(ops, lines, 1, 0);
        TakeIsLatest(ops[1..], lines);
      }
    }
  }

  lemma {:induction false} LatestIsUnique(ops: seq<OpRecord>, lines: seq<LineRecord>, i: nat, k: nat)
    requires WellTimed(ops, lines) && LatestBefore(ops, lines, i, 0) && LatestBefore(ops, lines, k, 0)
    ensures i == k
  {
    if i != k { OpsMonotone(ops, lines, if i < k then i + 1 else k + 1, if i < k then k else i); }
  }

  lemma {:induction false} OpsMonotone(ops: seq<OpRecord>, lines: seq<LineRecord>, i: nat, j: nat)
    requires WellTimed(ops, lines) && i <= j < |ops|
    ensures Time(ops[i]) <= Time(ops[j])
  {
    assert i < j ==> OpsAt(ops, i, j);
  }

  lemma {:induction false} InShifted(ps: seq<Pair>, ops: nat, lines: nat, p: Pair)
    ensures p in Shifted(ps, ops, lines) <==>
            p.op >= ops && p.line >= lines && Pair(p.op - ops, p.line - lines) in ps
  {
    if ps != [] {
      InShifted(ps[1..], ops, lines, p);
      assert ps == [ps[0]] + ps[1..];
    }
  }

  /**
   The matcher meets its declarative specification.  A row pairs operation `i`
   with line `j` exactly if `i` is the latest operation before that line and
   comes after the previous one; the early return loses none.
   */
  lemma {:induction false} MatchesExactly(ops: seq<OpRecord>, lines: seq<LineRecord>, i: nat, j: nat)
    requires WellTimed(ops, lines)
    ensures Pair(i, j) in Pairs(ops, lines) <==> LatestBefore(ops, lines, i, j)
    decreases |lines|, 1
  {
    if lines != [] && ops != [] {
      if Time(ops[0]) <= lines[0].time {
        MatchesExactlyAfterTake(ops, lines, i, j);
      } else {
        MatchesExactlyAfterSkip(ops, lines, i, j);
      }
    }
  }

  lemma {:induction false} MatchesExactlyAfterSkip(ops: seq<OpRecord>, lines: seq<LineRecord>, i: nat, j: nat)
    requires WellTimed(ops, lines) && ops != [] && lines != [] && Time(ops[0]) > lines[0].time
    ensures Pair(i, j) in Pairs(ops, lines) <==> LatestBefore(ops, lines, i, j)
    decreases |lines|, 0
  {
    SkipFirst(ops, lines, i, j);
    PairsSkip(ops, lines, i, j);
    if j > 0 { MatchesExactly(ops, lines[1..], i, j - 1); }
  }

  lemma {:induction false} MatchesExactlyAfterTake(ops: seq<OpRecord>, lines: seq<LineRecord>, i: nat, j: nat)
    requires WellTimed(ops, lines) && ops != [] && lines != [] && Time(ops[0]) <= lines[0].time
    ensures Pair(i, j) in Pairs(ops, lines) <==> LatestBefore(ops, lines, i, j)
    decreases |lines|, 0
  {
    if j == 0 {
      FirstLineExactly(ops, lines, i);
    } else {
      var used := PairsTake(ops, lines, i, j);
      TakeFirst(ops, lines, used, i, j);
      if i >= used { MatchesExactly(ops[used..], lines[1..], i - used, j - 1); }
    }
  }

  lemma {:induction false} FirstLineExactly(ops: seq<OpRecord>, lines: seq<LineRecord>, i: nat)
    requires WellTimed(ops, lines) && ops != [] && lines != [] && Time(ops[0]) <= lines[0].time
    ensures Pair(i, 0) in Pairs(ops, lines) <==> LatestBefore(ops, lines, i, 0)
  {
    var used := PairsTake(ops, lines, i, 0);
    if LatestBefore(ops, lines, i, 0) { LatestIsUnique(ops, lines, i, used - 1); }
  }

  lemma {:induction false} PairsSkip(ops: seq<OpRecord>, lines: seq<LineRecord>, i: nat, j: nat)
    requires ops != [] && lines != [] && Time(ops[0]) > lines[0].time
    ensures Pair(i, j) in Pairs(ops, lines) <==> j > 0 && Pair(i, j - 1) in Pairs(ops, lines[1..])
  {
    InShifted(Pairs(ops, lines[1..]), 0, 1, Pair(i, j));
  }

  lemma {:induction false} PairsTake(ops: seq<OpRecord>, lines: seq<LineRecord>, i: nat, j: nat) returns (used: nat)
    requires ops != [] && lines != [] && WellTimed(ops, lines) && Time(ops[0]) <= lines[0].time
    ensures 0 < used <= |ops| && LatestBefore(ops, lines, used - 1, 0)
    ensures Pair(i, j) in Pairs(ops, lines) <==>
            (i == used - 1 && j == 0) ||
            (i >= used && j > 0 && Pair(i - used, j - 1) in Pairs(ops[used..], lines[1..]))
  {
    TakeIsLatest(ops, lines);
    used := PairsAfterTake(ops, lines);
    var later := Pairs(ops[used..], lines[1..]);
    InShifted(later, used, 1, Pair(i, j));
    InCons(Pair(used - 1, 0), Shifted(later, used, 1), Pair(i, j));
  }

  lemma {:induction false} InCons(p: Pair, ps: seq<Pair>, q: Pair)
    ensures q in [p] + ps <==> q == p || q in ps
  {
  }

  lemma {:induction false} PairsAfterTake(ops: seq<OpRecord>, lines: seq<LineRecord>) returns (used: nat)
    requires ops != [] && lines != [] && Time(ops[0]) <= lines[0].time
    ensures used == |ops| - |Take(ops, lines[0].time).rest| && 0 < used
    ensures Pairs(ops, lines) == [Pair(used - 1, 0)] + Shifted(Pairs(ops[used..], lines[1..]), used, 1)
  {
    TakeIsPosition(ops, lines[0].time);
    used := |ops| - |Take(ops, lines[0].time).rest|;
  }

  /** A first line that precedes every operation concerns none of them. */
  lemma {:induction false} SkipFirst(ops: seq<OpRecord>, lines: seq<LineRecord>, i: nat, j: nat)
    requires WellTimed(ops, lines) && ops != [] && lines != [] && Time(ops[0]) > lines[0].time
    ensures LatestBefore(ops, lines, i, j) <==> j > 0 && LatestBefore(ops, lines[1..], i, j - 1)
    ensures WellTimed(ops, lines[1..])
  {
    assert 0 < i < |ops| ==> OpsAt(ops, 0, i);
    assert ops[0..] == ops;
    SuffixesWellTimed(ops, lines, 0, 1);
  }

  /** Once the first line has taken operation `used - 1`, later lines concern those after it. */
  lemma {:induction false} TakeFirst(ops: seq<OpRecord>, lines: seq<LineRecord>, used: nat, i: nat, j: nat)
    requires WellTimed(ops, lines) && lines != [] && 0 < used <= |ops| && LatestBefore(ops, lines, used - 1, 0) && j > 0
    ensures LatestBefore(ops, lines, i, j) <==> i >= used && LatestBefore(ops[used..], lines[1..], i - used, j - 1)
    ensures WellTimed(ops[used..], lines[1..])
  {
    SuffixesWellTimed(ops, lines, used, 1);
    if i < |ops| && j < |lines| {
      assert i < used - 1 ==> OpsAt(ops, i, used - 1);
      assert j > 1 ==> LinesAt(lines, 0, j - 1);
      assert used < i ==> OpsAt(ops, used, i);
    }
  }

  // ------------------------------------------------------------------- ties

  /** Where the lookahead stops: everything passed over is earlier than the line, and the next one is not. */
  lemma {:induction false} TakeStops(ops: seq<OpRecord>, lines: seq<LineRecord>, t: U64)
    requires ops != [] && Increasing(ops, lines)
    ensures var u := |ops| - |Take(ops, t).rest| - 1;
            && 0 <= u && (u == 0 || Time(ops[u]) < t) && (u + 1 < |ops| ==> t <= Time(ops[u + 1]))
  {
    if |ops| > 1 {
      assert OpsAt(ops, 0, 1);
      if Time(ops[1]) < t {
        assert lines[0..] == lines;
        SuffixesIncreasing(ops, lines, 1, 0);
        TakeStops(ops[1..], lines, t);
      }
    }
  }

  /** Operation `i` and line `j` carry the same time. */
  predicate Tied(ops: seq<OpRecord>, lines: seq<LineRecord>, i: nat, j: nat) {
    i < |ops| && j < |lines| && Time(ops[i]) == lines[j].time
  }

  ghost predicate TakesTied(pairs: seq<Pair>, i: nat, j: nat) {
    Pair(i, j) in pairs || (i > 0 && Pair(i - 1, j) in pairs)
  }

  /** A tied line takes the operation of its own time, or the one before it. */
  lemma {:induction false} TiedLineTakes(ops: seq<OpRecord>, lines: seq<LineRecord>, i: nat, j: nat)
    requires Increasing(ops, lines) && Tied(ops, lines, i, j)
    ensures TakesTied(Pairs(ops, lines), i, j)
    decreases |lines|, 1
  {
    if Time(ops[0]) > lines[0].time {
      TiedAfterSkip(ops, lines, i, j);
    } else {
      TiedAfterTake(ops, lines, i, j);
    }
  }

  lemma {:induction false} TiedAfterSkip(ops: seq<OpRecord>, lines: seq<LineRecord>, i: nat, j: nat)
    requires Increasing(ops, lines) && Tied(ops, lines, i, j) && Time(ops[0]) > lines[0].time
    ensures TakesTied(Pairs(ops, lines), i, j)
    decreases |lines|, 0
  {
    assert i > 0 ==> OpsAt(ops, 0, i);
    assert ops[0..] == ops;
    SuffixesIncreasing(ops, lines, 0, 1);
    TiedLineTakes(ops, lines[1..], i, j - 1);
    PairsSkip(ops, lines, i, j);
    if i > 0 { PairsSkip(ops, lines, i - 1, j); }
  }

  lemma {:induction false} TiedAfterTake(ops: seq<OpRecord>, lines: seq<LineRecord>, i: nat, j: nat)
    requires Increasing(ops, lines) && Tied(ops, lines, i, j) && Time(ops[0]) <= lines[0].time
    ensures TakesTied(Pairs(ops, lines), i, j)
    decreases |lines|, 0
  {
    var used := FirstTaken(ops, lines);
    TiedPosition(ops, lines, used, i, j);
    var later := Pairs(ops[used..], lines[1..]);
    if j > 0 {
      SuffixesIncreasing(ops, lines, used, 1);
      TiedLineTakes(ops[used..], lines[1..], i - used, j - 1);
    }
    TakenIn(later, used, i, j);
  }

  /** What the first line takes, by position. */
  lemma {:induction false} FirstTaken(ops: seq<OpRecord>, lines: seq<LineRecord>) returns (used: nat)
    requires Increasing(ops, lines) && ops != [] && lines != [] && Time(ops[0]) <= lines[0].time
    ensures 0 < used <= |ops| && Time(ops[used - 1]) <= lines[0].time
    ensures used > 1 ==> Time(ops[used - 1]) < lines[0].time
    ensures used < |ops| ==> lines[0].time <= Time(ops[used])
    ensures Pairs(ops, lines) == [Pair(used - 1, 0)] + Shifted(Pairs(ops[used..], lines[1..]), used, 1)
  {
    used := PairsAfterTake(ops, lines);
    TakeStops(ops, lines, lines[0].time);
  }

  lemma {:induction false} TiedPosition(ops: seq<OpRecord>, lines: seq<LineRecord>, used: nat, i: nat, j: nat)
    requires Increasing(ops, lines) && Tied(ops, lines, i, j) && 0 < used <= |ops|
    requires Time(ops[used - 1]) <= lines[0].time && (used > 1 ==> Time(ops[used - 1]) < lines[0].time)
    requires used < |ops| ==> lines[0].time <= Time(ops[used])
    ensures if j == 0 then i == used - 1 || i == used else i >= used && Tied(ops[used..], lines[1..], i - used, j - 1)
  {
    assert j > 0 ==> LinesAt(lines, 0, j);
    assert i < used - 1 ==> OpsAt(ops, i, used - 1);
    assert used < i ==> OpsAt(ops, used, i);
  }

  lemma {:induction false} TakenIn(later: seq<Pair>, used: nat, i: nat, j: nat)
    requires 0 < used
    requires if j == 0 then i == used - 1 || i == used else i >= used && TakesTied(later, i - used, j - 1)
    ensures TakesTied([Pair(used - 1, 0)] + Shifted(later, used, 1), i, j)
  {
    InCons(Pair(used - 1, 0), Shifted(later, used, 1), Pair(i, j));
    InShifted(later, used, 1, Pair(i, j));
    if i > 0 {
      InCons(Pair(used - 1, 0), Shifted(later, used, 1), Pair(i - 1, j));
      InShifted(later, used, 1, Pair(i - 1, j));
    }
  }

  /** The rows are the latest operations between consecutive lines. */
  ghost predicate Exact(ops: seq<OpRecord>, lines: seq<LineRecord>) {
    forall i: nat, j: nat :: Pair(i, j) in Pairs(ops, lines) <==> LatestBefore(ops, lines, i, j)
  }

  /** The exact scope of that specification, for streams in strict time order: no operation ties with a line. */
  lemma {:induction false} ExactIffNoTies(ops: seq<OpRecord>, lines: seq<LineRecord>)
    requires Increasing(ops, lines)
    ensures Exact(ops, lines) <==> NoTies(ops, lines)
  {
    if NoTies(ops, lines) {
      forall i: nat, j: nat ensures Pair(i, j) in Pairs(ops, lines) <==> LatestBefore(ops, lines, i, j) {
        MatchesExactly(ops, lines, i, j);
      }
    } else {
      var i, j :| 0 <= i < |ops| && 0 <= j < |lines| && !Differ(ops, lines, i, j);
      TiedLineTakes(ops, lines, i, j);
      assert !LatestBefore(ops, lines, i, j) && (i > 0 ==> !LatestBefore(ops, lines, i - 1, j));
    }
  }

  /** Either can happen: an operation at the line's own time is taken from the first slot, not by the lookahead. */
  lemma {:induction false} TiesDiffer(a: OpRecord, b: OpRecord, line: LineRecord)
    requires Time(a) < Time(b) == line.time
    ensures Match([b], [line]) == [Row(b, line)] && !Exact([b], [line])
    ensures Match([a, b], [line]) == [Row(a, line)] && !Exact([a, b], [line])
  {
    assert [a, b][1..] == [b];
    assert Match([b][1..], [line][1..]) == [];
    assert !Differ([b], [line], 0, 0) && !Differ([a, b], [line], 1, 0);
    ExactIffNoTies([b], [line]);
    ExactIffNoTies([a, b], [line]);
  }
}
