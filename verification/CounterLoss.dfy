/** What failed writes cost while a process lives: exactly the unsaved totals of a day that could not be saved
    when the next one began. */
module CounterLoss {
  import opened Calendar
  import opened Record
  import opened RecordProofs
  import opened CounterFile
  import opened CounterModel
  import opened CounterRuns
  import opened CounterTally
  import opened CounterBounds

  /** A write that succeeds, or fails with nothing written. */
  predicate IsClean(o: Outcome) {
    o.Done? || o == Torn(0)
  }

  /** Observations and flushes of one process, on days a record can name, whose writes are clean. */
  predicate AllClean(es: seq<Event>) {
    forall i :: 0 <= i < |es| ==>
      match es[i]
      case Observe(_, now, o) => IsClean(o) && FourDigitYear(now.today)
      case FlushAt(now, o) => IsClean(o) && FourDigitYear(now.today)
      case _ => false
  }

  /** What the observations add to total `i`; one is behind when its day is earlier than the latest so far. */
  function CountedOf(first: Date, es: seq<Event>, i: nat): nat
    requires i < 6
  {
    if es == [] then 0
    else
      var prev := es[..|es| - 1];
      CountedOf(first, prev, i) +
      match es[|es| - 1]
      case Observe(obs, now, _) => Added(obs, Before(now.today, DayAfter(first, prev))).Get(i)
      case _ => 0
  }

  /** What was counted for the latest day since that day was last saved. */
  function UnsavedOf(first: Date, es: seq<Event>, i: nat): nat
    requires i < 6
  {
    if es == [] then 0
    else
      var prev := es[..|es| - 1];
      var (day, before) := (DayAfter(first, prev), UnsavedOf(first, prev, i));
      match es[|es| - 1]
      case Observe(obs, now, _) =>
        (if Before(day, now.today) then 0 else before) + Added(obs, Before(now.today, day)).Get(i)
      case FlushAt(now, o) => if Before(day, now.today) || o.Done? then 0 else before
      case _ => before
  }

  /** A new day begins and the save of the old one fails. */
  predicate FailsToSave(day: Date, e: Event) {
    match e
    case Observe(_, now, o) => Before(day, now.today) && !o.Done?
    case FlushAt(now, o) => Before(day, now.today) && !o.Done?
    case _ => false
  }

  /** What every failed save at the beginning of a new day found unsaved. */
  function LostOf(first: Date, es: seq<Event>, i: nat): nat
    requires i < 6
  {
    if es == [] then 0
    else
      var prev := es[..|es| - 1];
      var fails := FailsToSave(DayAfter(first, prev), es[|es| - 1]);
      LostOf(first, prev, i) + (if fails then UnsavedOf(first, prev, i) else 0)
  }

  // ----- One step

  /** By how much memory is ahead of what it knows to be saved. */
  function Ahead(s: Running, i: nat): int
    requires i < 6
  {
    s.mem.counts.Get(i) - s.mem.flushed.Get(i)
  }

  lemma NothingWritten(s: Running, now: Reading)
    requires IsDate(s.mem.date)
    ensures Appended(s, now, Torn(0)) == s
  {
    hide HEADER, RecordText;
    assert s.file + "" == s.file;
  }

  lemma CleanRoll(s: Running, now: Reading, o: Outcome)
    requires Exact(s) && s.mem.counts.Fits() && FourDigitYear(now.today) && IsClean(o)
    ensures var (r, rolls) := (Rolled(s, now, o), Before(s.mem.date, now.today));
            && Exact(r) && r.mem.date == Later(s.mem.date, now.today)
            && (rolls ==> r.mem.counts == r.mem.flushed == ZERO)
            && (!rolls ==> r.mem.counts == s.mem.counts && r.mem.flushed == s.mem.flushed)
            && (forall d :: Visible(r, d) ==
                  if rolls && !o.Done? && d == s.mem.date then s.mem.flushed else Visible(s, d))
  {
    hide Seen, Heals, Appended, Fragment;
    RollKeeps(s, now, o);
    if o.Done? {
      RollExact(s, now);
    } else {
      NothingWritten(s, now);
    }
    if Before(s.mem.date, now.today) {
      assert Seen(s.file, now.today).None?;
    }
  }

  /** Exactly what one event adds, to the day it leaves open, and takes, from the day it found open. */
  ghost predicate Moves(s: Running, e: Event, t: System, i: nat)
    requires i < 6
  {
    && t.mem.Some?
    && forall d :: Visible(Running(t.file, t.mem.value), d).Get(i) +
                     (if d == s.mem.date && FailsToSave(s.mem.date, e) then Ahead(s, i) else 0)
                   == Visible(s, d).Get(i) + (if d == t.mem.value.date then AddedBy(Alive(s), e, i) else 0)
  }

  lemma CleanRecord(s: Running, obs: Observation, now: Reading, o: Outcome, i: nat)
    requires Exact(s) && s.mem.counts.Fits() && FourDigitYear(now.today) && IsClean(o) && i < 6
    ensures var (e, rolls) := (Observe(obs, now, o), Before(s.mem.date, now.today));
            var t := Step(Alive(s), e);
            && Moves(s, e, t, i) && t.mem.Some? && Exact(Running(t.file, t.mem.value))
            && t.mem.value.date == Later(s.mem.date, now.today)
            && Ahead(Running(t.file, t.mem.value), i) ==
               (if rolls then 0 else Ahead(s, i)) + AddedBy(Alive(s), e, i)
  {
    hide Seen, Heals, Rolled, Fragment, Added;
    CleanRoll(s, now, o);
    RecordKeeps(s, obs, now, o);
    AddedIs(Rolled(s, now, o).mem.counts, obs, Before(now.today, s.mem.date), i);
  }

  lemma CleanFlush(s: Running, now: Reading, o: Outcome, i: nat)
    requires Exact(s) && s.mem.counts.Fits() && FourDigitYear(now.today) && IsClean(o) && i < 6
    ensures var (e, rolls) := (FlushAt(now, o), Before(s.mem.date, now.today));
            var t := Step(Alive(s), e);
            && Moves(s, e, t, i) && t.mem.Some? && Exact(Running(t.file, t.mem.value))
            && t.mem.value.date == Later(s.mem.date, now.today)
            && Ahead(Running(t.file, t.mem.value), i) ==
               if rolls || o.Done? then 0 else Ahead(s, i)
  {
    hide Seen, Heals, Rolled, Appended, Fragment;
    CleanRoll(s, now, o);
    var r := Rolled(s, now, o);
    if o.Done? {
      AppendExact(r, now);
    } else {
      NothingWritten(r, now);
    }
  }

  /** Over different days, what is added is added once and what is lost is lost once. */
  lemma {:induction false} HeldMoves(s: Running, e: Event, t: System, ds: seq<Date>, i: nat)
    requires i < 6 && Distinct(ds) && Moves(s, e, t, i)
    ensures Held(t, ds, i) + (if s.mem.date in ds && FailsToSave(s.mem.date, e) then Ahead(s, i) else 0)
            == Held(Alive(s), ds, i) + (if t.mem.value.date in ds then AddedBy(Alive(s), e, i) else 0)
  {
    hide Visible, AddedBy, FailsToSave;
    if ds != [] {
      var n := |ds| - 1;
      HeldMoves(s, e, t, ds[..n], i);
      assert ds == ds[..n] + [ds[n]] && ds[n] !in ds[..n];
    }
  }

  // ----- Whole runs

  /** For every run of one process in which writes may fail with nothing written: the file can be appended to
      throughout, memory is ahead of it by exactly what was counted since the last save, and each total over
      all days is exactly its start plus what was counted less what failed saves at new days found unsaved. */
  lemma {:induction false} LossIsExact(s: Running, es: seq<Event>, ds: seq<Date>, i: nat)
    requires Exact(s) && s.mem.counts == s.mem.flushed && AllClean(es) && InRange(s, es) && i < 6
    requires Distinct(ds) && forall k :: 0 <= k <= |es| ==> DayAfter(s.mem.date, es[..k]) in ds
    ensures var (first, t) := (s.mem.date, Run(Alive(s), es));
            && t.mem.Some? && Exact(Running(t.file, t.mem.value)) && t.mem.value.date == DayAfter(first, es)
            && Ahead(Running(t.file, t.mem.value), i) == UnsavedOf(first, es, i)
            && Held(t, ds, i) + LostOf(first, es, i) == Held(Alive(s), ds, i) + CountedOf(first, es, i)
  {
    hide Exact, Step, Held, Added, Moves;
    ExactIsDate(s);
    if es != [] {
      var prev, e := es[..|es| - 1], es[|es| - 1];
      forall k | 0 <= k <= |prev| ensures DayAfter(s.mem.date, prev[..k]) in ds {
        assert prev[..k] == es[..k];
      }
      InRangePrefix(s, es);
      LossIsExact(s, prev, ds, i);
      var mid := Run(Alive(s), prev);
      var m := Running(mid.file, mid.mem.value);
      match e {
        case Observe(obs, now, o) => CleanRecord(m, obs, now, o, i);
        case FlushAt(now, o) => CleanFlush(m, now, o, i);
      }
      assert es[..|prev|] == prev && es[..|es|] == es;
      HeldMoves(m, e, Step(mid, e), ds, i);
    }
  }
}
