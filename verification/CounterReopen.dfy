/** When a day that is over stays over: across kills and restarts, exactly once a newer day is in the file. */
module CounterReopen {
  import opened Calendar
  import opened Text
  import opened Record
  import opened RecordProofs
  import opened CounterFile
  import opened CounterModel
  import opened CounterRuns

  /** One more session counted, and saved. */
  function Again(now: Reading): seq<Event> {
    [Observe(MeshSession, now, Done), FlushAt(now, Done)]
  }

  function OneMore(c: Counts): Counts {
    Add(c, MeshSession)
  }

  lemma RunAgain(s: Running, now: Reading)
    requires s.mem.date == now.today
    ensures Run(Alive(s), Again(now)) == Alive(Flushed(Recorded(s, MeshSession, now, Done), now, Done))
  {
    hide Recorded, Flushed;
    var es := Again(now);
    assert es[..1] == [Observe(MeshSession, now, Done)] && es[..1][..0] == [];
    assert Run(Alive(s), es[..1]) == Alive(Recorded(s, MeshSession, now, Done));
  }

  /** A process that has saved everything counts one more session on its open day and saves it: a reader sees
      the new total exactly when the file's fragment let the record be read. */
  lemma AgainSeen(s: Running, now: Reading)
    requires s.mem.date == now.today && s.mem.counts == s.mem.flushed
    ensures var t := Run(Alive(s), Again(now));
            && t.mem == Some(s.mem.(counts := OneMore(s.mem.counts), flushed := OneMore(s.mem.counts)))
            && Fragment(t.file) == ""
            && Seen(t.file, now.today) ==
               if Heals(Fragment(s.file)) && FourDigitYear(now.today) && OneMore(s.mem.counts).Fits()
               then Some(OneMore(s.mem.counts)) else Seen(s.file, now.today)
  {
    hide Seen, Heals, Fragment, Buffer;
    RunAgain(s, now);
    var mem := s.mem.(counts := OneMore(s.mem.counts));
    WholeAppend(s.file, mem, now);
  }

  ghost predicate NewerRecorded(file: string, d: Date) {
    exists x :: Before(d, x) && Seen(file, x).Some?
  }

  /** A kill, a start on the day `now` reads, and two more sessions. */
  function Reopening(now: Reading): seq<Event> {
    [Kill, Start(now, false)] + Again(now) + Again(now)
  }

  lemma Restarted(s: System, now: Reading)
    requires Inv(s)
    ensures Run(s, [Kill, Start(now, false)]) == Alive(Opened(s.file, now, false))
  {
    hide Opened;
    if s.mem.Some? {
      KillAndStart(s, now, false);
    } else {
      var es := [Kill, Start(now, false)];
      assert es[..1] == [Kill] && es[..1][..0] == [];
      assert Run(s, [Kill]) == s;
    }
  }

  /** While no newer date is in the file, a restart under a clock that reads `d` opens `d` again. */
  lemma StartReopens(file: string, now: Reading)
    requires !NewerRecorded(file, now.today)
    ensures var r := Opened(file, now, false);
            r.mem.date == now.today && r.mem.counts == r.mem.flushed == SeenOr0(file, now.today)
            && (forall x :: Seen(r.file, x) == Seen(file, x))
  {
    hide Seen, Opened;
    OpenKeeps(file, now, false);
  }

  /** ... and what is then counted changes what a reader sees for it, even behind a fragment that spoils
      the first record. */
  lemma Reopened(s: System, now: Reading)
    requires Inv(s) && FourDigitYear(now.today) && !NewerRecorded(s.file, now.today)
    requires OneMore(OneMore(SeenOr0(s.file, now.today))).Fits()
    ensures Seen(Run(s, Reopening(now)).file, now.today) == Some(OneMore(OneMore(SeenOr0(s.file, now.today))))
  {
    hide Seen, Opened, Again, Heals, Fragment, Run;
    var c := SeenOr0(s.file, now.today);
    var head := [Kill, Start(now, false)];
    RunConcat(s, head + Again(now), Again(now));
    RunConcat(s, head, Again(now));
    Restarted(s, now);
    StartReopens(s.file, now);
    var r := Opened(s.file, now, false);
    AgainSeen(r, now);
    var t := Run(Alive(r), Again(now));
    AgainSeen(Running(t.file, t.mem.value), now);
    EmptyFile();
  }

  /** For every consistent state and every day a record can name, with room for two more sessions: no run,
      with whatever clocks, kills and restarts, changes what a reader sees for the day, if and only if a
      newer date is already in the file. */
  lemma FrozenIffNewerRecorded(s: System, d: Date)
    requires Inv(s) && IsDate(d) && FourDigitYear(d) && OneMore(OneMore(SeenOr0(s.file, d))).Fits()
    ensures (forall es :: Seen(Run(s, es).file, d) == Seen(s.file, d)) <==> NewerRecorded(s.file, d)
  {
    hide Seen, Run;
    if NewerRecorded(s.file, d) {
      var x :| Before(d, x) && Seen(s.file, x).Some?;
      forall es ensures Seen(Run(s, es).file, d) == Seen(s.file, d) {
        RecordedPastIsFrozen(s, es, d, x);
      }
    } else {
      var now := Reading(d, 0);
      Reopened(s, now);
      assert Seen(Run(s, Reopening(now)).file, d) != Seen(s.file, d);
    }
  }

  /** A day closed and written, then reopened: the process has moved on to `later`, but dies before anything
      of `later` is saved, and the next one starts under a clock that reads `d`. */
  lemma ClosedDayIsReopened(d: Reading, later: Reading)
    requires Before(d.today, later.today) && FourDigitYear(d.today)
    ensures var one := [Start(d, false), Observe(MeshSession, d, Done), Observe(MeshSession, later, Done)];
            var two := [Kill, Start(d, false)] + Again(d);
            var s, t := Run(System("", None), one), Run(System("", None), one + two);
            && s.mem.Some? && s.mem.value.date == later.today
            && Seen(s.file, d.today) == Some(ZERO.(meshSessions := 1))
            && Seen(t.file, d.today) == Some(ZERO.(meshSessions := 2))
  {
    hide Seen, Fragment, Again, Run;
    var empty := System("", None);
    var one := [Start(d, false), Observe(MeshSession, d, Done), Observe(MeshSession, later, Done)];
    FirstLife(d, later);
    ViewNeverShrinks(empty, one);
    RunConcat(empty, one, [Kill, Start(d, false)] + Again(d));
    SecondLife(Run(empty, one), d);
  }

  lemma SecondLife(s: System, now: Reading)
    requires Inv(s) && Fragment(s.file) == "" && !NewerRecorded(s.file, now.today)
    requires FourDigitYear(now.today) && OneMore(SeenOr0(s.file, now.today)).Fits()
    ensures Seen(Run(s, [Kill, Start(now, false)] + Again(now)).file, now.today) ==
            Some(OneMore(SeenOr0(s.file, now.today)))
  {
    hide Seen, Opened, Heals, Fragment, Again, Run;
    RunConcat(s, [Kill, Start(now, false)], Again(now));
    Restarted(s, now);
    StartReopens(s.file, now);
    TidiedFragment(s.file);
    AgainSeen(Opened(s.file, now, false), now);
    EmptyFile();
  }

  lemma TidiedFragment(file: string)
    requires Fragment(file) == ""
    ensures forall now :: Fragment(Opened(file, now, false).file) == ""
  {
    hide Fragment, Lines, Entries, Resumed;
  }

  lemma FirstLife(d: Reading, later: Reading)
    requires Before(d.today, later.today) && FourDigitYear(d.today)
    ensures var s := Run(System("", None),
                         [Start(d, false), Observe(MeshSession, d, Done), Observe(MeshSession, later, Done)]);
            && s.mem.Some? && s.mem.value.date == later.today && Fragment(s.file) == ""
            && (forall x :: Seen(s.file, x) == if x == d.today then Some(ZERO.(meshSessions := 1)) else None)
  {
    hide Seen, Heals, Fragment, Buffer, Opened;
    var es := [Start(d, false), Observe(MeshSession, d, Done), Observe(MeshSession, later, Done)];
    assert es[..2] == [Start(d, false), Observe(MeshSession, d, Done)];
    assert es[..2][..1] == [Start(d, false)] && [Start(d, false)][..0] == [];
    OpensEmpty(d);
    EmptyFile();
    var mem := Mem(d.today, ZERO.(meshSessions := 1), ZERO, false);
    assert Run(System("", None), [Start(d, false)]) == Alive(Opened("", d, false));
    assert Run(System("", None), es[..2]) == Alive(Running("", mem));
    WholeAppend("", mem, later);
  }

  lemma OpensEmpty(now: Reading)
    ensures Opened("", now, false) == Running("", Mem(now.today, ZERO, ZERO, false))
  {
  }
}
