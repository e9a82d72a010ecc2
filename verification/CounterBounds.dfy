/** The other side of "never shrinks": over every run, no count is invented and none is counted twice. */
module CounterBounds {
  import opened Calendar
  import opened Text
  import opened Record
  import opened CounterFile
  import opened CounterModel
  import opened CounterRuns
  import opened CounterTally

  /** What one observation adds: its own totals, and one more when the clock is behind the open day. */
  function Added(o: Observation, behind: bool): Counts {
    Add(if behind then AddBehind(ZERO) else ZERO, o)
  }

  /** What an event adds to total `i`. */
  function AddedBy(s: System, e: Event, i: nat): nat
    requires i < 6
  {
    match (s.mem, e)
    case (Some(m), Observe(obs, now, _)) => Added(obs, Before(now.today, m.date)).Get(i)
    case _ => 0
  }

  /** What the observations of a run add to total `i`. */
  function Raised(s: System, es: seq<Event>, i: nat): nat
    requires Sane(s) && i < 6
  {
    if es == [] then 0
    else
      var prev := es[..|es| - 1];
      Raised(s, prev, i) + AddedBy(Run(s, prev), es[|es| - 1], i)
  }

  /** What the system stands for: the open day from memory, the other days from the file. */
  function Total(s: System, d: Date): Counts {
    match s.mem
    case None => SeenOr0(s.file, d)
    case Some(m) => Visible(Running(s.file, m), d)
  }

  /** Total `i` over several days, in memory and file together. */
  function Held(s: System, ds: seq<Date>, i: nat): nat
    requires i < 6
  {
    if ds == [] then 0 else Held(s, ds[..|ds| - 1], i) + Total(s, ds[|ds| - 1]).Get(i)
  }

  /** Total `i` over several days, as a reader of the file sees it. */
  function Shown(file: string, ds: seq<Date>, i: nat): nat
    requires i < 6
  {
    if ds == [] then 0 else Shown(file, ds[..|ds| - 1], i) + SeenOr0(file, ds[|ds| - 1]).Get(i)
  }

  lemma ShownBelowOpen(file: string, m: Mem, i: nat)
    requires Consistent(file, m) && i < 6
    ensures SeenOr0(file, m.date).Get(i) <= m.counts.Get(i)
  {
    hide Seen;
  }

  lemma AddedIs(c: Counts, o: Observation, behind: bool, i: nat)
    requires i < 6
    ensures Add(if behind then AddBehind(c) else c, o).Get(i) == c.Get(i) + Added(o, behind).Get(i)
  {
  }

  lemma RollBound(s: Running, now: Reading, o: Outcome, d: Date, i: nat)
    requires Consistent(s.file, s.mem) && i < 6
    ensures Visible(Rolled(s, now, o), d).Get(i) <= Visible(s, d).Get(i)
  {
    hide Seen, Buffer, Appended;
    AnyAppend(s, now, o);
    RollKeeps(s, now, o);
    ShownBelowOpen(s.file, s.mem, i);
    ShownBelowOpen(Rolled(s, now, o).file, Rolled(s, now, o).mem, i);
    assert Seen(Appended(s, now, o).file, d) == Seen(s.file, d)
           || (d == s.mem.date && Seen(Appended(s, now, o).file, d) == Some(s.mem.counts));
  }

  lemma AppendBound(s: Running, now: Reading, o: Outcome, d: Date)
    requires Consistent(s.file, s.mem)
    ensures Visible(Appended(s, now, o), d) == Visible(s, d)
  {
    hide Seen, Buffer;
    AnyAppend(s, now, o);
    assert Seen(Appended(s, now, o).file, d) == Seen(s.file, d) || d == s.mem.date;
  }

  lemma StepBound(s: System, e: Event, d: Date, i: nat)
    requires Inv(s) && i < 6
    ensures var t := Step(s, e);
            Total(t, d).Get(i) <= Total(s, d).Get(i) +
              if t.mem.Some? && t.mem.value.date == d then AddedBy(s, e, i) else 0
  {
    hide Seen, Rolled, Appended, Opened, Added;
    match (s.mem, e) {
      case (Some(m), Observe(obs, now, o)) =>
        var r := Rolled(Running(s.file, m), now, o);
        RollBound(Running(s.file, m), now, o, d, i);
        AddedIs(r.mem.counts, obs, Before(now.today, m.date), i);
      case (Some(m), FlushAt(now, o)) =>
        var r := Rolled(Running(s.file, m), now, o);
        RollBound(Running(s.file, m), now, o, d, i);
        RollKeeps(Running(s.file, m), now, o);
        AppendBound(r, now, o, d);
      case (Some(m), Kill) => ShownBelowOpen(s.file, m, i);
      case (None, Start(now, renamed)) => OpenKeeps(s.file, now, renamed);
      case _ =>
    }
  }

  /** One observation raises one day's totals, so the sum over different days rises once. */
  lemma {:induction false} HeldStep(s: System, e: Event, ds: seq<Date>, i: nat)
    requires Inv(s) && i < 6 && Distinct(ds)
    ensures var t := Step(s, e);
            Held(t, ds, i) <= Held(s, ds, i) +
              if t.mem.Some? && t.mem.value.date in ds then AddedBy(s, e, i) else 0
  {
    hide Step, Total, AddedBy;
    if ds != [] {
      var n := |ds| - 1;
      HeldStep(s, e, ds[..n], i);
      StepBound(s, e, ds[n], i);
      assert ds == ds[..n] + [ds[n]] && ds[n] !in ds[..n];
    }
  }

  lemma {:induction false} ShownBelowHeld(s: System, ds: seq<Date>, i: nat)
    requires Inv(s) && i < 6
    ensures Shown(s.file, ds, i) <= Held(s, ds, i)
  {
    hide Seen;
    if ds != [] {
      ShownBelowHeld(s, ds[..|ds| - 1], i);
      if s.mem.Some? {
        ShownBelowOpen(s.file, s.mem.value, i);
      }
    }
  }

  /** Over every run, with every failed or torn write, kill, restart and clock: each total, summed over any
      days, is at most what the system stood for at the start plus what the observations made add. */
  lemma {:induction false} NothingInvented(s: System, es: seq<Event>, ds: seq<Date>, i: nat)
    requires Inv(s) && Distinct(ds) && i < 6
    ensures Shown(Run(s, es).file, ds, i) <= Held(Run(s, es), ds, i) <= Held(s, ds, i) + Raised(s, es, i)
  {
    hide Step, Held, Shown, AddedBy;
    ViewNeverShrinks(s, es);
    ShownBelowHeld(Run(s, es), ds, i);
    if es != [] {
      var prev := es[..|es| - 1];
      NothingInvented(s, prev, ds, i);
      ViewNeverShrinks(s, prev);
      HeldStep(Run(s, prev), es[|es| - 1], ds, i);
    }
  }
}
