/** The tally over any number of lives of the process, each ended by a kill and a start. */
module CounterLives {
  import opened Calendar
  import opened Record
  import opened RecordProofs
  import opened CounterFile
  import opened CounterModel
  import opened CounterRuns
  import opened CounterTally

  /** What one process does until it is killed, and the start of the next. */
  datatype Life = Life(es: seq<Event>, now: Reading, renamed: bool)

  function EventsOf(lives: seq<Life>): seq<Event> {
    if lives == [] then []
    else lives[0].es + [Kill, Start(lives[0].now, lives[0].renamed)] + EventsOf(lives[1..])
  }

  /** The process the start after a life brings up. */
  ghost function Reborn(s: Running, life: Life): (r: Running)
    requires IsDate(s.mem.date)
    ensures IsDate(r.mem.date)
  {
    ResumedIsDate(Run(Alive(s), life.es).file, life.now.today);
    Opened(Run(Alive(s), life.es).file, life.now, life.renamed)
  }

  /** Every life's writes succeed, on days a record can name, with totals that stay u64s. */
  ghost predicate AllSmooth(s: Running, lives: seq<Life>)
    requires IsDate(s.mem.date)
    decreases |lives|
  {
    lives == [] ||
    (Smooth(lives[0].es) && InRange(s, lives[0].es) && FourDigitYear(lives[0].now.today)
     && AllSmooth(Reborn(s, lives[0]), lives[1..]))
  }

  /** The totals of `d` over the lives: each adds the tally of what it saved, from its own open day. */
  ghost function LivesTally(s: Running, lives: seq<Life>, d: Date, base: Counts): Counts
    requires IsDate(s.mem.date)
    decreases |lives|
  {
    if lives == [] then base
    else
      var (day, es) := (s.mem.date, lives[0].es);
      LivesTally(Reborn(s, lives[0]), lives[1..], d, Tally(day, es[..Saved(day, es)], d, base))
  }

  /** A life opens on its clock's day, or on the newest day in the file when the clock is behind that. */
  lemma RebornDay(s: Running, life: Life)
    requires IsDate(s.mem.date)
    ensures var (day, file) := (Reborn(s, life).mem.date, Run(Alive(s), life.es).file);
            && AtMost(life.now.today, day) && (day == life.now.today || Seen(file, day).Some?)
            && (forall d :: Seen(file, d).Some? ==> AtMost(d, day))
  {
    hide Seen, Opened, Run;
    OpenKeeps(Run(Alive(s), life.es).file, life.now, life.renamed);
  }

  /** However often the process is killed, the counter stands for exactly what its lives saved: nothing
      saved is lost or counted twice, and it is ready for the next life. */
  lemma {:induction false} CounterIsTallyOfLives(s: Running, lives: seq<Life>, d: Date)
    requires Exact(s) && s.mem.counts == s.mem.flushed && AllSmooth(s, lives)
    ensures var t := Run(Alive(s), EventsOf(lives));
            && t.mem.Some? && Exact(Running(t.file, t.mem.value)) && t.mem.value.counts == t.mem.value.flushed
            && Visible(Running(t.file, t.mem.value), d) == LivesTally(s, lives, d, SeenOr0(s.file, d))
    decreases |lives|
  {
    hide Exact, Seen, Opened, Tally, Saved, Smooth, InRange, Visible;
    if lives == [] {
      SavedVisible(s, d);
    } else {
      var life := lives[0];
      assert IsDate(s.mem.date) by { ExactIsDate(s); }
      KillLosesOnlyUnsaved(s, life.es, life.now, life.renamed, d);
      RunConcat(Alive(s), life.es + [Kill, Start(life.now, life.renamed)], EventsOf(lives[1..]));
      CounterIsTallyOfLives(Reborn(s, life), lives[1..], d);
    }
  }

  lemma SavedVisible(s: Running, d: Date)
    requires Exact(s) && s.mem.counts == s.mem.flushed
    ensures Visible(s, d) == SeenOr0(s.file, d)
  {
    hide Seen, Heals;
  }
}
