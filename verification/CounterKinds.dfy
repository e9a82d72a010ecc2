/** Which totals an observation raises, told from the events alone. */
module CounterKinds {
  import opened Calendar
  import opened Record
  import opened CounterModel
  import opened CounterRuns
  import opened CounterTally

  datatype Total = MeshRequests | MeshSessions | MeshIdentified | WebRequests | WebNotFound | ClockBehind

  function ValueOf(t: Total, c: Counts): nat {
    match t
    case MeshRequests => c.meshRequests
    case MeshSessions => c.meshSessions
    case MeshIdentified => c.meshIdentifiedRequests
    case WebRequests => c.webRequests
    case WebNotFound => c.webNotFound
    case ClockBehind => c.clockBehind
  }

  /** Whether an observation is one that a total counts; `behind` when its day was over already. */
  predicate CountedIn(t: Total, o: Observation, behind: bool) {
    match t
    case MeshRequests => o == MeshRequest(true) || o == MeshRequest(false)
    case MeshSessions => o == MeshSession
    case MeshIdentified => o == MeshRequest(true)
    case WebRequests => o == WebRequest(true) || o == WebRequest(false)
    case WebNotFound => o == WebRequest(false)
    case ClockBehind => behind
  }

  /** How many observations of the events fall on `d` and are counted in `t`. */
  function Number(first: Date, es: seq<Event>, d: Date, t: Total): nat {
    if es == [] then 0
    else
      var prev := es[..|es| - 1];
      Number(first, prev, d, t) +
      match es[|es| - 1]
      case Observe(obs, now, _) =>
        if DayAfter(first, es) == d && CountedIn(t, obs, Before(now.today, DayAfter(first, prev))) then 1 else 0
      case _ => 0
  }

  /** Each of the six totals of a day is what it was plus the number of observations of its kind. */
  lemma {:induction false} TallyCountsKinds(first: Date, es: seq<Event>, d: Date, base: Counts, t: Total)
    ensures ValueOf(t, Tally(first, es, d, base)) == ValueOf(t, base) + Number(first, es, d, t)
  {
    hide DayAfter;
    if es != [] {
      TallyCountsKinds(first, es[..|es| - 1], d, base, t);
    }
  }

  /** One observation, whatever its write does: each total of the day it is counted for, from zero on a new
      day, rises by one if the observation is of its kind, and not otherwise. */
  lemma RecordedCountsKinds(s: Running, obs: Observation, now: Reading, o: Outcome, t: Total)
    requires IsDate(s.mem.date)
    ensures var r := Recorded(s, obs, now, o);
            ValueOf(t, r.mem.counts) ==
            (if Before(s.mem.date, now.today) then 0 else ValueOf(t, s.mem.counts))
            + (if CountedIn(t, obs, Before(now.today, s.mem.date)) then 1 else 0)
  {
    hide Appended;
  }

  /** The day an observation counts for is the latest of the first open day and all clock days so far. */
  lemma {:induction false} DayAfterIsLatest(first: Date, es: seq<Event>)
    ensures var day := DayAfter(first, es);
            && AtMost(first, day)
            && (forall k :: 0 <= k < |es| && (es[k].Observe? || es[k].FlushAt?) ==> AtMost(es[k].now.today, day))
            && (day == first
                || exists k :: 0 <= k < |es| && (es[k].Observe? || es[k].FlushAt?) && es[k].now.today == day)
  {
    if es != [] {
      var n := |es| - 1;
      var prev := es[..n];
      DayAfterIsLatest(first, prev);
      var before, day := DayAfter(first, prev), DayAfter(first, es);
      assert AtMost(before, day);
      AtMostTransitive(first, before, day);
      forall k | 0 <= k < n && (es[k].Observe? || es[k].FlushAt?) ensures AtMost(es[k].now.today, day) {
        assert es[k] == prev[k];
        AtMostTransitive(es[k].now.today, before, day);
      }
      if day == before && day != first {
        var k :| 0 <= k < n && (prev[k].Observe? || prev[k].FlushAt?) && prev[k].now.today == before;
        assert es[k] == prev[k];
      }
    }
  }

  /** A clock reading earlier than the latest day before it. */
  predicate IsBehind(first: Date, es: seq<Event>, k: nat)
    requires k < |es|
  {
    (es[k].Observe? || es[k].FlushAt?) && Before(es[k].now.today, DayAfter(first, es[..k]))
  }

  predicate SomeBehind(first: Date, es: seq<Event>) {
    exists k :: 0 <= k < |es| && IsBehind(first, es, k)
  }

  /** Over any life, however its writes end: the open day is the latest day, and the process has warned if and
      only if some reading was behind. */
  lemma {:induction false} WarnedIffBehind(s: Running, es: seq<Event>)
    requires IsDate(s.mem.date) && forall k :: 0 <= k < |es| ==> es[k].Observe? || es[k].FlushAt?
    ensures var t := Run(Alive(s), es);
            && t.mem.Some? && t.mem.value.date == DayAfter(s.mem.date, es)
            && (t.mem.value.warnedBehind <==>
                  s.mem.warnedBehind || SomeBehind(s.mem.date, es))
  {
    hide Step, SomeBehind, DayAfter;
    if es == [] {
      NoneBehind(s.mem.date);
    } else {
      var prev, e := es[..|es| - 1], es[|es| - 1];
      WarnedIffBehind(s, prev);
      SomeBehindSnoc(s.mem.date, es);
      var mid := Run(Alive(s), prev);
      WarnsNow(Running(mid.file, mid.mem.value), e);
    }
  }

  lemma NoneBehind(first: Date)
    ensures !SomeBehind(first, []) && DayAfter(first, []) == first
  {
  }

  lemma SomeBehindSnoc(first: Date, es: seq<Event>)
    requires es != [] && (es[|es| - 1].Observe? || es[|es| - 1].FlushAt?)
    ensures var (prev, e) := (es[..|es| - 1], es[|es| - 1]);
            && (SomeBehind(first, es) <==> SomeBehind(first, prev) || Before(e.now.today, DayAfter(first, prev)))
            && DayAfter(first, es) == Later(DayAfter(first, prev), e.now.today)
  {
    var n := |es| - 1;
    var prev := es[..n];
    forall k | 0 <= k < n ensures IsBehind(first, prev, k) == IsBehind(first, es, k) {
      assert prev[..k] == es[..k];
    }
    assert IsBehind(first, es, n) == Before(es[n].now.today, DayAfter(first, prev));
  }

  lemma WarnsNow(s: Running, e: Event)
    requires IsDate(s.mem.date) && (e.Observe? || e.FlushAt?)
    ensures var t := Step(Alive(s), e);
            && t.mem.Some? && t.mem.value.date == Later(s.mem.date, e.now.today)
            && (t.mem.value.warnedBehind <==> s.mem.warnedBehind || Before(e.now.today, s.mem.date))
  {
    hide Buffer;
  }
}
