/** What the address map's log of insertions says, without looking at slots. */
module InsertionLog {
  import opened Machine
  import opened AddrMap

  lemma {:induction false} VersionsMembers(log: seq<Write>, a: U32)
    ensures forall v :: v in VersionsOf(log, a) <==> Write(a, v.time, v.id) in log
  {
    if log != [] {
      var n := |log| - 1;
      VersionsMembers(log[..n], a);
      assert log == log[..n] + [log[n]];
    }
  }

  /** A write that beats every other write to its address up to time `t` answers the query. */
  lemma {:induction false} QueryIsLatest(log: seq<Write>, w: Write, t: U64)
    requires w in log && w.time <= t
    requires forall x :: x in log && x.addr == w.addr && x.time <= t ==> x.time < w.time || x == w
    ensures QueryLog(log, w.addr, t) == w.id
  {
    var vs := VersionsOf(log, w.addr);
    VersionsMembers(log, w.addr);
    var v := Version(w.time, w.id);
    assert v in vs;
    var j :| 0 <= j < |vs| && vs[j] == v;
    BestAnswers(vs, t);
    assert Best(vs, t).Some?;
    var k :| Answers(vs, t, k) && Best(vs, t).value == vs[k];
    assert vs[k] in vs && vs[j].time <= t;
    assert Write(w.addr, vs[k].time, vs[k].id) == w;
  }

  lemma {:induction false} NewsLog(news: seq<NewRecord>)
    requires |news| < TWO_31
    ensures var s := InsertNews(EMPTY, news);
            && s.curId == |news| + 1
            && |s.log| == |news| + 1 && s.log[0] == SEED
            && forall i :: 0 <= i < |news| ==> s.log[i + 1] == Write(news[i].addr, news[i].time, i + 1)
  {
    if news != [] {
      var n := |news| - 1;
      NewsLog(news[..n]);
      assert forall i :: 0 <= i < n ==> news[..n][i] == news[i];
    }
  }

  lemma {:induction false} NewsWriteAt(news: seq<NewRecord>, w: Write) returns (p: nat)
    requires |news| < TWO_31 && w in InsertNews(EMPTY, news).log
    ensures p <= |news| && w == if p == 0 then SEED else Write(news[p - 1].addr, news[p - 1].time, p)
  {
    var log := InsertNews(EMPTY, news).log;
    NewsLog(news);
    p :| 0 <= p < |log| && log[p] == w;
  }

  lemma {:induction false} QueryUnknown(log: seq<Write>, a: U32, t: U64)
    requires |VersionsOf(log, a)| != 1
    requires forall v :: v in VersionsOf(log, a) ==> t < v.time
    ensures QueryLog(log, a, t) == UNKNOWN
  {
    BestAnswers(VersionsOf(log, a), t);
  }

  /** No two writes share both address and time. */
  ghost predicate NoClash(log: seq<Write>) {
    forall i, j :: 0 <= i < j < |log| ==> log[i].addr != log[j].addr || log[i].time != log[j].time
  }

  lemma {:induction false} NoClashUnique(log: seq<Write>, x: Write, y: Write)
    requires NoClash(log) && x in log && y in log && x.addr == y.addr && x.time == y.time
    ensures x == y
  {
    var i :| 0 <= i < |log| && log[i] == x;
    var j :| 0 <= j < |log| && log[j] == y;
    assert i < j || j < i || i == j;
  }

  ghost predicate TimesApart(vs: seq<Version>) {
    forall i, j :: 0 <= i < j < |vs| ==> vs[i].time != vs[j].time
  }

  lemma {:induction false} NoClashTimesApart(log: seq<Write>, a: U32)
    requires NoClash(log)
    ensures TimesApart(VersionsOf(log, a))
  {
    if log != [] {
      var k := |log| - 1;
      NoClashTimesApart(log[..k], a);
      VersionsMembers(log[..k], a);
      forall v | v in VersionsOf(log[..k], a) && log[k].addr == a ensures v.time != log[k].time {
        var i :| 0 <= i < k && log[..k][i] == Write(a, v.time, v.id);
        assert log[i] == log[..k][i];
      }
    }
  }

  /** The only write to an address answers for every time. */
  lemma {:induction false} QueryIsSole(log: seq<Write>, w: Write, t: U64)
    requires NoClash(log) && w in log && forall x :: x in log && x.addr == w.addr ==> x == w
    ensures VersionsOf(log, w.addr) == [Version(w.time, w.id)] && QueryLog(log, w.addr, t) == w.id
  {
    var vs := VersionsOf(log, w.addr);
    VersionsMembers(log, w.addr);
    NoClashTimesApart(log, w.addr);
    assert Version(w.time, w.id) in vs;
    forall i | 0 <= i < |vs| ensures vs[i] == Version(w.time, w.id) {
      assert vs[i] in vs && Write(w.addr, vs[i].time, vs[i].id) in log;
    }
    assert |vs| >= 2 ==> vs[0].time != vs[1].time;
  }
}
