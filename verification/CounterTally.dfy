/** The counter refines a simple tally: every observation counts for one day, the latest day seen so far. */
module CounterTally {
  import opened Calendar
  import opened Record
  import opened RecordProofs
  import opened CounterFile
  import opened CounterModel
  import opened CounterRuns

  // ----- The tally

  function Later(a: Date, b: Date): Date {
    if Before(a, b) then b else a
  }

  /** The running maximum of the first open day and every day the clock was read on. */
  function DayAfter(first: Date, es: seq<Event>): Date {
    if es == [] then first
    else
      var day := DayAfter(first, es[..|es| - 1]);
      match es[|es| - 1]
      case Observe(_, now, _) => Later(day, now.today)
      case FlushAt(now, _) => Later(day, now.today)
      case _ => day
  }

  /** The totals of `d` after the events, from `base` before them: an observation counts for the day
      the maximum has reached, and as behind when its own day is earlier than the maximum before it. */
  function Tally(first: Date, es: seq<Event>, d: Date, base: Counts): Counts {
    if es == [] then base
    else
      var prev := es[..|es| - 1];
      var c := Tally(first, prev, d, base);
      match es[|es| - 1]
      case Observe(obs, now, _) =>
        if DayAfter(first, es) != d then c
        else Add(if Before(now.today, DayAfter(first, prev)) then AddBehind(c) else c, obs)
      case _ => c
  }

  // ----- The counter against the tally

  /** The totals a process stands for: what the file shows, with the open day's from memory. */
  function Visible(s: Running, d: Date): Counts {
    if d == s.mem.date then s.mem.counts else SeenOr0(s.file, d)
  }

  /** The file can be appended to and holds exactly what was flushed. */
  ghost predicate Exact(s: Running) {
    && Consistent(s.file, s.mem)
    && Heals(Fragment(s.file))
    && s.mem.flushed == SeenOr0(s.file, s.mem.date)
    && FourDigitYear(s.mem.date)
  }

  lemma ExactIsDate(s: Running)
    requires Exact(s)
    ensures IsDate(s.mem.date)
  {
    hide Seen, Heals;
  }

  lemma AppendExact(s: Running, now: Reading)
    requires Exact(s) && s.mem.counts.Fits()
    ensures var r := Appended(s, now, Done);
            && Exact(r) && r.mem == s.mem.(flushed := s.mem.counts)
            && (forall d :: Visible(r, d) == Visible(s, d))
            && (forall d :: SeenOr0(r.file, d) == Visible(s, d))
            && (forall d :: Seen(r.file, d).Some? ==> AtMost(d, s.mem.date))
  {
    hide Lines, LastFor, Heals, Buffer, Fragment;
    EmptyFile();
    WholeAppend(s.file, s.mem, now);
    AppendKeeps(s, now, Done);
  }

  lemma RollExact(s: Running, now: Reading)
    requires Exact(s) && s.mem.counts.Fits() && FourDigitYear(now.today)
    ensures var r := Rolled(s, now, Done);
            && Exact(r) && r.mem.date == Later(s.mem.date, now.today)
            && (forall d :: Visible(r, d) == Visible(s, d))
            && r.mem.counts == (if Before(s.mem.date, now.today) then ZERO else s.mem.counts)
  {
    hide Seen, Heals, Appended, Fragment;
    AppendExact(s, now);
    RollKeeps(s, now, Done);
    if Before(s.mem.date, now.today) {
      assert Seen(s.file, now.today).None? && Seen(Appended(s, now, Done).file, now.today).None?;
    }
  }

  lemma RecordExact(s: Running, obs: Observation, now: Reading)
    requires Exact(s) && s.mem.counts.Fits() && FourDigitYear(now.today)
    ensures var r := Recorded(s, obs, now, Done);
            && Exact(r) && r.mem.date == Later(s.mem.date, now.today)
            && (forall d :: Visible(r, d) ==
                  if d != r.mem.date then Visible(s, d)
                  else Add(if Before(now.today, s.mem.date) then AddBehind(Visible(s, d)) else Visible(s, d), obs))
  {
    hide Seen, Heals, Rolled, Fragment;
    RollExact(s, now);
    RecordKeeps(s, obs, now, Done);
    var q := Rolled(s, now, Done);
    assert Visible(q, q.mem.date) == q.mem.counts;
  }

  lemma FlushExact(s: Running, now: Reading)
    requires Exact(s) && s.mem.counts.Fits() && FourDigitYear(now.today)
    ensures var r := Flushed(s, now, Done);
            && Exact(r) && r.mem.date == Later(s.mem.date, now.today)
            && (forall d :: Visible(r, d) == Visible(s, d))
            && (forall d :: SeenOr0(r.file, d) == Visible(s, d))
  {
    hide Seen, Heals, Rolled, Appended, Fragment;
    RollExact(s, now);
    var q := Rolled(s, now, Done);
    AppendExact(q, now);
  }

  // ----- Whole runs

  /** Observations and flushes of one process whose writes succeed, on days a record can name. */
  predicate Smooth(es: seq<Event>) {
    forall i :: 0 <= i < |es| ==>
      match es[i]
      case Observe(_, now, o) => o.Done? && FourDigitYear(now.today)
      case FlushAt(now, o) => o.Done? && FourDigitYear(now.today)
      case _ => false
  }

  /** No total outgrows a u64 on the way. */
  ghost predicate InRange(s: Running, es: seq<Event>)
    requires IsDate(s.mem.date)
  {
    forall k :: 0 <= k <= |es| ==>
      var t := Run(Alive(s), es[..k]); t.mem.Some? ==> t.mem.value.counts.Fits()
  }

  lemma InRangePrefix(s: Running, es: seq<Event>)
    requires IsDate(s.mem.date) && es != [] && InRange(s, es)
    ensures InRange(s, es[..|es| - 1])
    ensures var t := Run(Alive(s), es[..|es| - 1]); t.mem.Some? ==> t.mem.value.counts.Fits()
  {
    hide Run;
    var prev := es[..|es| - 1];
    forall k | 0 <= k <= |prev|
      ensures var t := Run(Alive(s), prev[..k]); t.mem.Some? ==> t.mem.value.counts.Fits()
    {
      assert prev[..k] == es[..k];
    }
  }

  /** For every such run: file plus memory hold exactly the tally, and the open day is the running maximum. */
  lemma {:induction false} CounterIsTally(s: Running, es: seq<Event>, d: Date)
    requires Exact(s) && Smooth(es) && InRange(s, es)
    ensures var t := Run(Alive(s), es);
            && t.mem.Some? && Exact(Running(t.file, t.mem.value))
            && t.mem.value.date == DayAfter(s.mem.date, es)
            && Visible(Running(t.file, t.mem.value), d) == Tally(s.mem.date, es, d, Visible(s, d))
  {
    hide Seen, Heals, Recorded, Flushed, Visible, Fragment;
    if es != [] {
      var prev, e := es[..|es| - 1], es[|es| - 1];
      InRangePrefix(s, es);
      CounterIsTally(s, prev, d);
      var mid := Run(Alive(s), prev);
      var m := Running(mid.file, mid.mem.value);
      match e {
        case Observe(obs, now, _) => RecordExact(m, obs, now);
        case FlushAt(now, _) => FlushExact(m, now);
      }
    }
  }

  /** A process started on any file whose fragment can be appended to, or is compacted away, is exact. */
  lemma StartExact(file: string, now: Reading, renamed: bool)
    requires Heals(Fragment(Tidied(file, renamed))) && FourDigitYear(now.today)
    ensures Exact(Opened(file, now, renamed))
    ensures forall d :: Visible(Opened(file, now, renamed), d) == SeenOr0(file, d)
  {
    hide Lines, LastFor, Heals, Fragment, Entries, Tidied, Seen;
    OpenKeeps(file, now, renamed);
    ResumedIsDate(file, now.today);
  }

  /** How much of a run is on disk after it: all of it after a flush, all but the last observation when
      that one opened a new day, and otherwise no more than before. */
  function Saved(first: Date, es: seq<Event>): (k: nat)
    ensures k <= |es|
  {
    if es == [] then 0
    else
      var prev := es[..|es| - 1];
      match es[|es| - 1]
      case FlushAt(_, _) => |es|
      case Observe(_, now, _) => if Before(DayAfter(first, prev), now.today) then |prev| else Saved(first, prev)
      case _ => Saved(first, prev)
  }

  /** What a run has not saved is observations, all of them counted for its open day. */
  lemma {:induction false} UnsavedIsOpenDay(first: Date, es: seq<Event>, i: nat)
    requires Smooth(es) && Saved(first, es) <= i < |es|
    ensures es[i].Observe? && DayAfter(first, es[..i + 1]) == DayAfter(first, es)
  {
    assert es[..|es|] == es;
    if i < |es| - 1 {
      var prev := es[..|es| - 1];
      UnsavedIsOpenDay(first, prev, i);
      assert prev[..i + 1] == es[..i + 1];
    }
  }

  lemma RecordFile(s: Running, obs: Observation, now: Reading, d: Date)
    requires Exact(s) && s.mem.counts.Fits()
    ensures SeenOr0(Recorded(s, obs, now, Done).file, d) ==
            if Before(s.mem.date, now.today) then Visible(s, d) else SeenOr0(s.file, d)
  {
    hide Seen, Heals, Appended, Fragment;
    AppendExact(s, now);
  }

  /** For every such run from a saved state: the file shows exactly the tally of the saved part. */
  lemma {:induction false} FileIsSavedTally(s: Running, es: seq<Event>, d: Date)
    requires Exact(s) && s.mem.counts == s.mem.flushed && Smooth(es) && InRange(s, es)
    ensures SeenOr0(Run(Alive(s), es).file, d) ==
            Tally(s.mem.date, es[..Saved(s.mem.date, es)], d, SeenOr0(s.file, d))
  {
    hide Seen, Heals, Fragment, Recorded, Flushed, DayAfter, Tally;
    var k := Saved(s.mem.date, es);
    if es == [] {
      TallyNil(s.mem.date, d, SeenOr0(s.file, d));
      assert es[..k] == [];
    } else {
      var prev, e := es[..|es| - 1], es[|es| - 1];
      InRangePrefix(s, es);
      CounterIsTally(s, prev, d);
      FileIsSavedTally(s, prev, d);
      var mid := Run(Alive(s), prev);
      var m := Running(mid.file, mid.mem.value);
      assert Visible(s, d) == SeenOr0(s.file, d);
      match e {
        case Observe(obs, now, _) =>
          RecordFile(m, obs, now, d);
          assert es[..|prev|] == prev && es[..Saved(s.mem.date, prev)] == prev[..Saved(s.mem.date, prev)];
        case FlushAt(now, _) =>
          FlushExact(m, now);
          TallyFlush(s.mem.date, es, d, SeenOr0(s.file, d));
          assert es[..k] == es;
      }
    }
  }

  lemma TallyNil(first: Date, d: Date, base: Counts)
    ensures Tally(first, [], d, base) == base
  {
  }

  lemma TallyFlush(first: Date, es: seq<Event>, d: Date, base: Counts)
    requires es != [] && es[|es| - 1].FlushAt?
    ensures Tally(first, es, d, base) == Tally(first, es[..|es| - 1], d, base)
  {
  }

  /** A kill loses exactly the unsaved observations: after any such run, whatever clock the next process
      starts under and whether or not it compacts, it stands for the tally of the saved part, has nothing
      unsaved, and is exact again when a record can name its clock's day. */
  lemma KillLosesOnlyUnsaved(s: Running, es: seq<Event>, now: Reading, renamed: bool, d: Date)
    requires Exact(s) && s.mem.counts == s.mem.flushed && Smooth(es) && InRange(s, es)
    ensures var r := Opened(Run(Alive(s), es).file, now, renamed);
            && Run(Alive(s), es + [Kill, Start(now, renamed)]) == Alive(r)
            && Visible(r, d) == SeenOr0(r.file, d) ==
               Tally(s.mem.date, es[..Saved(s.mem.date, es)], d, SeenOr0(s.file, d))
            && r.mem.counts == r.mem.flushed
            && (FourDigitYear(now.today) ==> Exact(r))
  {
    hide Seen, Heals, Fragment, Tally, DayAfter, Opened, Tidied;
    FileIsSavedTally(s, es, d);
    CounterIsTally(s, es, d);
    var t := Run(Alive(s), es);
    RunConcat(Alive(s), es, [Kill, Start(now, renamed)]);
    KillAndStart(t, now, renamed);
    OpenKeeps(t.file, now, renamed);
    TidiedSeen(t.file, renamed);
    EmptyFile();
    if FourDigitYear(now.today) {
      StartExact(t.file, now, renamed);
    }
  }

  // ----- Conservation

  /** Every observation raises exactly one of these three totals. */
  function Size(c: Counts): nat {
    c.meshRequests + c.meshSessions + c.webRequests
  }

  function Observed(es: seq<Event>): nat {
    if es == [] then 0 else Observed(es[..|es| - 1]) + (if es[|es| - 1].Observe? then 1 else 0)
  }

  predicate Distinct(ds: seq<Date>) {
    forall i, j :: 0 <= i < j < |ds| ==> ds[i] != ds[j]
  }

  ghost function Sizes(first: Date, es: seq<Event>, ds: seq<Date>, base: Date -> Counts): nat {
    if ds == [] then 0
    else Sizes(first, es, ds[..|ds| - 1], base) + Size(Tally(first, es, ds[|ds| - 1], base(ds[|ds| - 1])))
  }

  lemma TallySize(first: Date, es: seq<Event>, d: Date, base: Counts)
    requires es != []
    ensures Size(Tally(first, es, d, base)) == Size(Tally(first, es[..|es| - 1], d, base)) +
            if es[|es| - 1].Observe? && DayAfter(first, es) == d then 1 else 0
  {
    hide DayAfter;
  }

  lemma {:induction false} SizesStep(first: Date, es: seq<Event>, ds: seq<Date>, base: Date -> Counts)
    requires es != [] && Distinct(ds)
    ensures Sizes(first, es, ds, base) == Sizes(first, es[..|es| - 1], ds, base) +
            if es[|es| - 1].Observe? && DayAfter(first, es) in ds then 1 else 0
  {
    hide DayAfter, Tally, Size;
    if ds != [] {
      var n := |ds| - 1;
      SizesStep(first, es, ds[..n], base);
      TallySize(first, es, ds[n], base(ds[n]));
      assert ds == ds[..n] + [ds[n]];
    }
  }

  /** No observation is lost or counted twice: over any set of days holding all the days reached,
      the totals grow by exactly the number of observations. */
  lemma {:induction false} EachObservationOnce(first: Date, es: seq<Event>, ds: seq<Date>, base: Date -> Counts)
    requires Distinct(ds) && forall k :: 0 <= k <= |es| ==> DayAfter(first, es[..k]) in ds
    ensures Sizes(first, es, ds, base) == Sizes(first, [], ds, base) + Observed(es)
  {
    hide DayAfter, Sizes;
    if es != [] {
      var prev := es[..|es| - 1];
      forall k | 0 <= k <= |prev| ensures DayAfter(first, prev[..k]) in ds {
        assert prev[..k] == es[..k];
      }
      EachObservationOnce(first, prev, ds, base);
      assert es[..|es|] == es;
      SizesStep(first, es, ds, base);
    }
  }
}
