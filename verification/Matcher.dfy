/**
 Pairing call-site records with container operations (`records` of
 cinst/scripts/build_container_db.py).
 */
module Matcher {
  import opened Machine
  import opened Layout
  import opened Records
  import opened Merge

  datatype Row = Row(op: OpRecord, line: LineRecord)

  datatype Taken = Taken(op: OpRecord, rest: seq<OpRecord>)

  /** The operation a line of time `t` takes, and what is left: the loop steps on while the next is later and before `t`. */
  function Take(ops: seq<OpRecord>, t: U64): (r: Taken)
    requires ops != []
    ensures |r.rest| < |ops|
  {
    if |ops| > 1 && t - Time(ops[0]) > t - Time(ops[1]) && Time(ops[1]) < t then Take(ops[1..], t)
    else Taken(ops[0], ops[1..])
  }

  datatype Step = Step(found: seq<Row>, rest: seq<OpRecord>)

  /** One line: skipped if it comes before the pending operation, otherwise paired. */
  function MatchOne(ops: seq<OpRecord>, line: LineRecord): Step
    requires ops != []
  {
    if Time(ops[0]) > line.time then Step([], ops)
    else var taken := Take(ops, line.time); Step([Row(taken.op, line)], taken.rest)
  }

  /** What the matcher yields for merged operations and lines. */
  function Match(ops: seq<OpRecord>, lines: seq<LineRecord>): seq<Row>
    decreases |lines|
  {
    if lines == [] || ops == [] then []
    else var step := MatchOne(ops, lines[0]); step.found + Match(step.rest, lines[1..])
  }

  // ---------------------------------------------------------------- the pass

  /** The operations not yet consumed: the lookahead slot, then what the selector still holds. */
  function Ahead(slot: Option<OpRecord>, pending: seq<OpRecord>): seq<OpRecord> {
    if slot.None? then [] else [slot.value] + pending
  }

  lemma {:induction false} AheadSplits(rs: seq<OpRecord>)
    ensures Ahead(First(rs), From(rs, 1)) == rs
    ensures First(rs) == None ==> From(rs, 1) == []
  {
  }

  lemma {:induction false} TakeStep(op: OpRecord, rest: seq<OpRecord>, t: U64)
    ensures Take([op] + rest, t) ==
            if rest != [] && Time(op) < Time(rest[0]) < t then Take(rest, t) else Taken(op, rest)
  {
    assert ([op] + rest)[1..] == rest;
  }

  /** The inner loop: from `first` on to the latest operation the lookahead accepts before time `t`. */
  method LookAhead(selector: ContainerBufferSelector, first: OpRecord, t: U64) returns (op: OpRecord, next: Option<OpRecord>)
    requires selector.Valid()
    modifies selector.list, selector.map_
    ensures selector.Valid() && (next == None ==> selector.Pending() == [])
    ensures Take([first] + old(selector.Pending()), t) == Taken(op, Ahead(next, selector.Pending()))
  {
    ghost var taken := Take([first] + selector.Pending(), t);
    op := first;
    TakeStep(op, selector.Pending(), t);
    AheadSplits(selector.Pending());
    next := selector.Read();
    while next != None && t - Time(op) > t - Time(next.value) && Time(next.value) < t
      invariant selector.Valid() && (next == None ==> selector.Pending() == [])
      invariant var rest := Ahead(next, selector.Pending());
                taken == if rest != [] && Time(op) < Time(rest[0]) < t then Take(rest, t) else Taken(op, rest)
      decreases |Ahead(next, selector.Pending())|
    {
      op := next.value;
      TakeStep(op, selector.Pending(), t);
      AheadSplits(selector.Pending());
      next := selector.Read();
    }
  }

  method MatchRecords(lineBuf: Bytes, listBuf: Option<Bytes>, mapBuf: Option<Bytes>) returns (rows: seq<Row>)
    ensures rows == Match(Merged(OpsOf(LIST, listBuf), OpsOf(MAP, mapBuf)), LinesIn(lineBuf))
  {
    var selector := new ContainerBufferSelector(listBuf, mapBuf);
    if listBuf == None && mapBuf == None {
      return [];
    }
    rows := MatchLines(selector, LinesIn(lineBuf));
  }

  /** The loop over the lines, ending early when no operation is left. */
  method MatchLines(selector: ContainerBufferSelector, lines: seq<LineRecord>) returns (rows: seq<Row>)
    requires selector.Valid()
    modifies selector.list, selector.map_
    ensures rows == Match(old(selector.Pending()), lines)
  {
    rows := [];
    ghost var ops := selector.Pending();
    ghost var ahead := ops;
    AheadSplits(ops);
    var next := selector.Read();
    for i := 0 to |lines|
      invariant selector.Valid() && Holds(next, selector.Pending(), ahead) && Progress(ops, lines, rows, ahead, i)
    {
      ProgressStep(ops, lines, rows, ahead, i);
      if next == None {
        return;
      }
      var found;
      found, next, ahead := MatchLine(selector, next.value, lines[i], ahead);
      rows := rows + found;
    }
  }

  /** The lookahead slot and the selector together hold the operations `ahead`. */
  ghost predicate Holds(slot: Option<OpRecord>, pending: seq<OpRecord>, ahead: seq<OpRecord>) {
    ahead == Ahead(slot, pending) && (slot == None ==> pending == [])
  }

  ghost predicate Progress(ops: seq<OpRecord>, lines: seq<LineRecord>, rows: seq<Row>, ahead: seq<OpRecord>, i: nat) {
    i <= |lines| && Match(ops, lines) == rows + Match(ahead, lines[i..])
  }

  lemma {:induction false} ProgressStep(ops: seq<OpRecord>, lines: seq<LineRecord>, rows: seq<Row>, ahead: seq<OpRecord>, i: nat)
    requires Progress(ops, lines, rows, ahead, i) && i < |lines|
    ensures ahead == [] ==> rows == Match(ops, lines)
    ensures ahead != [] ==>
              var step := MatchOne(ahead, lines[i]);
              Progress(ops, lines, rows + step.found, step.rest, i + 1)
  {
    assert lines[i..][1..] == lines[i + 1..];
  }

  /** The body of that loop. */
  method MatchLine(selector: ContainerBufferSelector, r1: OpRecord, r2: LineRecord, ghost ahead: seq<OpRecord>)
    returns (found: seq<Row>, next: Option<OpRecord>, ghost rest: seq<OpRecord>)
    requires selector.Valid() && Holds(Some(r1), selector.Pending(), ahead)
    modifies selector.list, selector.map_
    ensures selector.Valid() && Holds(next, selector.Pending(), rest) && MatchOne(ahead, r2) == Step(found, rest)
  {
    if Time(r1) > r2.time {
      return [], Some(r1), ahead;
    }
    var op;
    op, next := LookAhead(selector, r1, r2.time);
    found := [Row(op, r2)];
    rest := Ahead(next, selector.Pending());
  }
}
