/** What the counter promises over whole runs: with every clock move, failed or torn write, kill,
    restart and compaction. */
module CounterRuns {
  import opened Calendar
  import opened Text
  import opened Record
  import opened RecordProofs
  import opened CounterFile
  import opened CounterModel

  /** The file, and the process counting into it, if one is alive. */
  datatype System = System(file: string, mem: Option<Mem>)

  // A kill in the middle of a write is a torn write and then a kill; a kill in the middle of a
  // compaction is a start that does, or does not, reach its rename and then a kill.
  datatype Event =
    | Observe(obs: Observation, now: Reading, o: Outcome)
    | FlushAt(now: Reading, o: Outcome)
    | Kill
    | Start(now: Reading, renamed: bool)

  predicate Sane(s: System) {
    s.mem.Some? ==> IsDate(s.mem.value.date)
  }

  function Alive(r: Running): System {
    System(r.file, Some(r.mem))
  }

  function Step(s: System, e: Event): System
    requires Sane(s)
  {
    match (s.mem, e)
    case (Some(m), Observe(obs, now, o)) => Alive(Recorded(Running(s.file, m), obs, now, o))
    case (Some(m), FlushAt(now, o)) => Alive(Flushed(Running(s.file, m), now, o))
    case (Some(_), Kill) => s.(mem := None)
    case (None, Start(now, renamed)) => Alive(Opened(s.file, now, renamed))
    case _ => s
  }

  lemma StepSane(s: System, e: Event)
    requires Sane(s)
    ensures Sane(Step(s, e))
  {
    hide Lines, Entries, HEADER, RecordText;
    if s.mem.None? && e.Start? {
      ResumedIsDate(s.file, e.now.today);
    }
  }

  function Run(s: System, es: seq<Event>): (r: System)
    requires Sane(s)
    ensures Sane(r)
  {
    if es == [] then s
    else
      StepSane(Run(s, es[..|es| - 1]), es[|es| - 1]);
      Step(Run(s, es[..|es| - 1]), es[|es| - 1])
  }

  lemma {:induction false} RunConcat(s: System, a: seq<Event>, b: seq<Event>)
    requires Sane(s)
    ensures Run(s, a + b) == Run(Run(s, a), b)
  {
    hide Step;
    if b == [] {
      assert a + b == a;
    } else {
      var n := |b| - 1;
      RunConcat(s, a, b[..n]);
      assert (a + b)[..|a + b| - 1] == a + b[..n];
    }
  }

  lemma KillAndStart(s: System, now: Reading, renamed: bool)
    requires Sane(s) && s.mem.Some?
    ensures Run(s, [Kill, Start(now, renamed)]) == Alive(Opened(s.file, now, renamed))
  {
    hide Opened;
    var es := [Kill, Start(now, renamed)];
    assert es[..1] == [Kill] && es[..1][..0] == [];
    assert Run(s, [Kill]) == System(s.file, None);
  }

  // ----- What one append does to what a reader sees

  lemma RecordTextIsLine(d: Date, c: Counts, now: Reading)
    requires IsDate(d)
    ensures var t := RecordText(d, c, now);
            t != "" && t[|t| - 1] == '\n' && '\n' !in t[..|t| - 1]
  {
    hide DateText, Stamp, RecordText, KeyFields;
    var t := RecordText(d, c, now);
    RecordTextShape(d, c, now);
    DateTextNoSpace(d);
    StampNoSpace(now);
    KeyFieldsText(c, 0);
    var a, b := "DAY date=" + DateText(d) + " tz=UTC", KeyFields(c, 0);
    assert t[..|t| - 1] == a + b + " written=" + Stamp(now);
    NewlineIsSpace();
    assert '\n' !in DateText(d) && '\n' !in Stamp(now);
  }

  lemma {:induction false} KeyFieldsText(c: Counts, i: nat)
    requires i <= 6
    ensures '\n' !in KeyFields(c, i)
    decreases 6 - i
  {
    hide KeyFields, Field;
    NewlineIsSpace();
    if i == 6 {
      KeyFieldsEnd(c);
    } else {
      KeyFieldsText(c, i + 1);
      KeyFieldsCons(c, i);
      FieldNoSpace(c, i);
    }
  }

  lemma LastForSnoc(lines: seq<string>, line: string, d: Date)
    ensures LastFor(lines + [line], d) ==
            match RecordOf(line)
            case Some((date, c)) => if date == d then Some(c) else LastFor(lines, d)
            case None => LastFor(lines, d)
  {
    hide RecordOf;
    assert (lines + [line])[..|lines|] == lines;
  }

  /** A whole record appended to any file: the reader sees it for its day exactly when the file's
      final fragment lets it be read, and sees every other day as before. */
  lemma RecordAppended(file: string, d: Date, c: Counts, now: Reading)
    requires IsDate(d)
    ensures var after := file + RecordText(d, c, now);
            && Fragment(after) == ""
            && forall x :: Seen(after, x) ==
                 if x == d && Heals(Fragment(file)) && FourDigitYear(d) && c.Fits() then Some(c) else Seen(file, x)
  {
    hide Lines, Fragment, RecordText, RecordOf, LastFor, Heals;
    var t, f := RecordText(d, c, now), Fragment(file);
    RecordTextIsLine(d, c, now);
    var line := f + t[..|t| - 1];
    assert f + t == line + "\n" + "";
    LinesAppend(file, t);
    LinesCons(line, "");
    NoNewlineNoLines("");
    assert line + "\n" == f + t;
    assert Lines(f + t) == [f + t];
    GluedRecord(f, d, c, now);
    forall x ensures Seen(file + t, x) ==
      if x == d && Heals(f) && FourDigitYear(d) && c.Fits() then Some(c) else Seen(file, x)
    {
      LastForSnoc(Lines(file), f + t, x);
    }
  }

  /** A record torn anywhere before its newline is invisible. */
  lemma RecordTorn(file: string, d: Date, c: Counts, now: Reading, n: nat)
    requires IsDate(d) && n < |RecordText(d, c, now)|
    ensures forall x :: Seen(file + RecordText(d, c, now)[..n], x) == Seen(file, x)
  {
    hide Lines, Fragment, RecordText, LastFor;
    var t := RecordText(d, c, now);
    RecordTextIsLine(d, c, now);
    assert t[..n] <= t[..|t| - 1];
    LinesAppend(file, t[..n]);
    NoNewlineNoLines(Fragment(file) + t[..n]);
    assert Lines(file + t[..n]) == Lines(file);
  }

  lemma HeaderTorn(n: nat)
    ensures forall x :: Seen(Prefix(HEADER, n), x) == None
    ensures Fragment(HEADER) == ""
  {
    hide Lines, Fragment, HEADER, RecordOf, LastFor;
    HeaderLines();
    if n <= |HEADER| {
      assert HEADER == HEADER[..n] + HEADER[n..];
      LinesAppend(HEADER[..n], HEADER[n..]);
    }
    SkipNonRecords(Lines(Prefix(HEADER, n)));
  }

  lemma EmptyFile()
    ensures forall x :: Seen("", x) == None
    ensures Fragment("") == "" && Heals("")
  {
  }

  /** `write_all` of a whole buffer. */
  lemma WholeAppend(file: string, mem: Mem, now: Reading)
    requires IsDate(mem.date)
    ensures var after := file + Buffer(file, mem, now);
            && Fragment(after) == ""
            && forall x :: Seen(after, x) ==
                 if x == mem.date && Heals(Fragment(file)) && FourDigitYear(mem.date) && mem.counts.Fits()
                 then Some(mem.counts) else Seen(file, x)
  {
    hide Lines, Fragment, HEADER, RecordText, LastFor, Heals;
    var t := RecordText(mem.date, mem.counts, now);
    EmptyFile();
    HeaderTorn(|HEADER|);
    if file == "" {
      assert file + Buffer(file, mem, now) == HEADER + t && Prefix(HEADER, |HEADER|) == HEADER;
      RecordAppended(HEADER, mem.date, mem.counts, now);
    } else {
      assert "" + t == t;
      RecordAppended(file, mem.date, mem.counts, now);
    }
  }

  /** A write that stops short of its end shows a reader nothing new. */
  lemma TornAppend(file: string, mem: Mem, now: Reading, n: nat)
    requires IsDate(mem.date) && n < |Buffer(file, mem, now)|
    ensures forall x :: Seen(file + Buffer(file, mem, now)[..n], x) == Seen(file, x)
  {
    hide Lines, Fragment, HEADER, RecordText, LastFor;
    var t := RecordText(mem.date, mem.counts, now);
    if file == "" {
      EmptyFile();
      if n <= |HEADER| {
        assert file + (HEADER + t)[..n] == Prefix(HEADER, n);
        HeaderTorn(n);
      } else {
        assert file + (HEADER + t)[..n] == HEADER + t[..n - |HEADER|];
        RecordTorn(HEADER, mem.date, mem.counts, now, n - |HEADER|);
        HeaderTorn(|HEADER|);
        assert Prefix(HEADER, |HEADER|) == HEADER;
      }
    } else {
      assert "" + t == t;
      RecordTorn(file, mem.date, mem.counts, now, n);
    }
  }

  /** However an append ends, it can only change the open day, and only to the open day's totals. */
  lemma AnyAppend(s: Running, now: Reading, o: Outcome)
    requires IsDate(s.mem.date)
    ensures forall x :: || Seen(Appended(s, now, o).file, x) == Seen(s.file, x)
                        || (x == s.mem.date && Seen(Appended(s, now, o).file, x) == Some(s.mem.counts))
  {
    hide Lines, HEADER, RecordText, LastFor, Buffer, Heals;
    WholeAppend(s.file, s.mem, now);
    if o.Torn? && o.n < |Buffer(s.file, s.mem, now)| {
      TornAppend(s.file, s.mem, now, o.n);
    } else if o.Torn? {
      assert Prefix(Buffer(s.file, s.mem, now), o.n) == Buffer(s.file, s.mem, now);
    }
  }

  // ----- The invariant

  /** Nothing in the file is newer than the open day, and nothing it shows for that day exceeds its totals. */
  ghost predicate Consistent(file: string, m: Mem) {
    && IsDate(m.date)
    && forall d :: Seen(file, d).Some? ==>
         AtMost(d, m.date) && (d == m.date ==> Seen(file, d).value.AtMost(m.counts))
  }

  ghost predicate Inv(s: System) {
    s.mem.Some? ==> Consistent(s.file, s.mem.value)
  }

  /** `b` shows every day `a` shows, with totals at least as large. */
  ghost predicate Grows(a: string, b: string) {
    forall d :: Seen(a, d).Some? ==> Seen(b, d).Some? && Seen(a, d).value.AtMost(Seen(b, d).value)
  }

  ghost predicate SameBelow(a: string, b: string, day: Date) {
    forall d :: Before(d, day) ==> Seen(a, d) == Seen(b, d)
  }

  lemma CountsTransitive(a: Counts, b: Counts, c: Counts)
    requires a.AtMost(b) && b.AtMost(c)
    ensures a.AtMost(c)
  {
  }

  lemma AppendKeeps(s: Running, now: Reading, o: Outcome)
    requires Consistent(s.file, s.mem)
    ensures var r := Appended(s, now, o);
            Consistent(r.file, s.mem) && Grows(s.file, r.file) && SameBelow(s.file, r.file, s.mem.date)
  {
    hide Lines, Buffer, LastFor, Seen;
    AnyAppend(s, now, o);
  }

  lemma RollKeeps(s: Running, now: Reading, o: Outcome)
    requires Consistent(s.file, s.mem)
    ensures var r := Rolled(s, now, o);
            && Consistent(r.file, r.mem) && Grows(s.file, r.file) && SameBelow(s.file, r.file, s.mem.date)
            && AtMost(s.mem.date, r.mem.date)
  {
    hide Lines, Appended, LastFor, Seen;
    AppendKeeps(s, now, o);
    if Before(s.mem.date, now.today) {
      var f := Appended(s, now, o).file;
      assert forall d :: Seen(f, d).Some? ==> AtMost(d, s.mem.date);
    } else {
      assert now.today == s.mem.date || Before(now.today, s.mem.date);
    }
  }

  lemma AddGrows(c: Counts, obs: Observation)
    ensures c.AtMost(Add(c, obs)) && c.AtMost(AddBehind(c)) && c.AtMost(Add(AddBehind(c), obs))
  {
  }

  lemma ConsistentCounts(file: string, m: Mem, c: Counts)
    requires Consistent(file, m) && m.counts.AtMost(c)
    ensures Consistent(file, m.(counts := c))
  {
    hide Seen;
    if Seen(file, m.date).Some? {
      CountsTransitive(Seen(file, m.date).value, m.counts, c);
    }
  }

  lemma RecordKeeps(s: Running, obs: Observation, now: Reading, o: Outcome)
    requires Consistent(s.file, s.mem)
    ensures var r := Recorded(s, obs, now, o);
            && Consistent(r.file, r.mem) && Grows(s.file, r.file) && SameBelow(s.file, r.file, s.mem.date)
            && AtMost(s.mem.date, r.mem.date)
  {
    hide Seen, Rolled;
    RollKeeps(s, now, o);
    var r := Rolled(s, now, o);
    AddGrows(r.mem.counts, obs);
    ConsistentCounts(r.file, r.mem, Recorded(s, obs, now, o).mem.counts);
  }

  lemma GrowsTransitive(a: string, b: string, c: string)
    requires Grows(a, b) && Grows(b, c)
    ensures Grows(a, c)
  {
    hide Seen;
    forall d | Seen(a, d).Some? ensures Seen(c, d).Some? && Seen(a, d).value.AtMost(Seen(c, d).value) {
      CountsTransitive(Seen(a, d).value, Seen(b, d).value, Seen(c, d).value);
    }
  }

  lemma BeforeTransitive(a: Date, b: Date, c: Date)
    requires Before(a, b) && AtMost(b, c)
    ensures Before(a, c)
  {
  }

  lemma FlushKeeps(s: Running, now: Reading, o: Outcome)
    requires Consistent(s.file, s.mem)
    ensures var r := Flushed(s, now, o);
            && Consistent(r.file, r.mem) && Grows(s.file, r.file) && SameBelow(s.file, r.file, s.mem.date)
            && AtMost(s.mem.date, r.mem.date)
  {
    hide Seen, Rolled, Buffer;
    RollKeeps(s, now, o);
    var r := Rolled(s, now, o);
    AppendKeeps(r, now, o);
    GrowsTransitive(s.file, r.file, Appended(r, now, o).file);
    forall d | Before(d, s.mem.date) ensures Seen(s.file, d) == Seen(Appended(r, now, o).file, d) {
      BeforeTransitive(d, s.mem.date, r.mem.date);
    }
  }

  lemma {:induction false} LookupIsIn(es: seq<Entry>, d: Date)
    requires Lookup(es, d).Some?
    ensures Lookup(es, d).value in es && Lookup(es, d).value.date == d
  {
    if es[0].date != d {
      LookupIsIn(es[1..], d);
    }
  }

  lemma {:induction false} LookupFinds(es: seq<Entry>, i: nat)
    requires Sorted(es) && i < |es|
    ensures Lookup(es, es[i].date) == Some(es[i])
  {
    if i > 0 {
      LookupFinds(es[1..], i - 1);
    }
  }

  /** A start resumes what the file shows for its newest date, or opens a later day at zero. */
  lemma ResumedSeen(file: string, today: Date)
    requires IsDate(today)
    ensures var (date, counts) := Resumed(Entries(Lines(file)), today);
            && IsDate(date) && AtMost(today, date)
            && (forall d :: Seen(file, d).Some? ==> AtMost(d, date))
            && (date == today || Seen(file, date).Some?)
            && counts == SeenOr0(file, date)
  {
    hide Lines, RecordOf;
    var es := Entries(Lines(file));
    EntriesAreLast(Lines(file));
    ResumedIsDate(file, today);
    var (date, counts) := Resumed(es, today);
    forall d | Seen(file, d).Some? ensures AtMost(d, date) {
      LookupIsIn(es, d);
    }
    assert CountsOf(Lookup(es, date)) == Seen(file, date);
    if date != today || (es != [] && es[|es| - 1].date == today) {
      LookupFinds(es, |es| - 1);
    } else if Lookup(es, today).Some? {
      LookupIsIn(es, today);
    }
  }

  function SeenOr0(file: string, d: Date): Counts {
    match Seen(file, d) case None => ZERO case Some(c) => c
  }

  /** Whether or not a due compaction reaches its rename, a start changes nothing a reader sees. */
  lemma TidiedSeen(file: string, renamed: bool)
    ensures forall d :: Seen(Tidied(file, renamed), d) == Seen(file, d)
    ensures Fragment(Tidied(file, renamed)) == Fragment(file) || Fragment(Tidied(file, renamed)) == ""
  {
    hide Lines, Compacted, LastFor, Fragment, Entries, RecordLines;
    CompactionPreserves(file);
  }

  lemma OpenKeeps(file: string, now: Reading, renamed: bool)
    ensures var r := Opened(file, now, renamed);
            && Consistent(r.file, r.mem) && (forall d :: Seen(r.file, d) == Seen(file, d))
            && r.mem.counts == r.mem.flushed == SeenOr0(r.file, r.mem.date)
            && AtMost(now.today, r.mem.date) && (r.mem.date == now.today || Seen(file, r.mem.date).Some?)
  {
    hide Seen, Entries, Lines, Tidied;
    ResumedSeen(file, now.today);
    TidiedSeen(file, renamed);
    var r := Opened(file, now, renamed);
    forall d | Seen(r.file, d).Some?
      ensures AtMost(d, r.mem.date) && (d == r.mem.date ==> Seen(r.file, d).value.AtMost(r.mem.counts)) {}
  }

  // ----- Safety over every run

  lemma CountsReflexive(c: Counts)
    ensures c.AtMost(c)
  {
  }

  lemma SameGrows(a: string, b: string)
    requires forall d :: Seen(a, d) == Seen(b, d)
    ensures Grows(a, b)
  {
    hide Seen;
    forall d | Seen(a, d).Some? ensures Seen(a, d).value.AtMost(Seen(b, d).value) {
      CountsReflexive(Seen(a, d).value);
    }
  }

  lemma StepKeeps(s: System, e: Event)
    requires Inv(s)
    ensures var t := Step(s, e);
            && Inv(t) && Grows(s.file, t.file)
            && (s.mem.Some? ==> SameBelow(s.file, t.file, s.mem.value.date))
            && (s.mem.None? ==> forall d :: Seen(t.file, d) == Seen(s.file, d))
            && (s.mem.Some? && t.mem.Some? ==> AtMost(s.mem.value.date, t.mem.value.date))
  {
    hide Seen, Recorded, Flushed, Opened;
    match (s.mem, e) {
      case (Some(m), Observe(obs, now, o)) => RecordKeeps(Running(s.file, m), obs, now, o);
      case (Some(m), FlushAt(now, o)) => FlushKeeps(Running(s.file, m), now, o);
      case (None, Start(now, renamed)) =>
        OpenKeeps(s.file, now, renamed);
        SameGrows(s.file, Step(s, e).file);
      case _ => SameGrows(s.file, Step(s, e).file);
    }
  }

  /** Over every run, what a reader sees for a date never shrinks and never disappears. */
  lemma {:induction false} ViewNeverShrinks(s: System, es: seq<Event>)
    requires Inv(s)
    ensures Inv(Run(s, es)) && Grows(s.file, Run(s, es).file)
  {
    hide Seen, Step;
    if es == [] {
      SameGrows(s.file, s.file);
    } else {
      var prev := es[..|es| - 1];
      ViewNeverShrinks(s, prev);
      StepKeeps(Run(s, prev), es[|es| - 1]);
      GrowsTransitive(s.file, Run(s, prev).file, Run(s, es).file);
    }
  }

  /** Over every run, restarts included, a date older than one already recorded is frozen. */
  lemma {:induction false} RecordedPastIsFrozen(s: System, es: seq<Event>, d: Date, newer: Date)
    requires Inv(s) && Seen(s.file, newer).Some? && Before(d, newer)
    ensures Seen(Run(s, es).file, d) == Seen(s.file, d)
  {
    hide Seen, Step;
    if es != [] {
      var prev := es[..|es| - 1];
      var mid := Run(s, prev);
      RecordedPastIsFrozen(s, prev, d, newer);
      ViewNeverShrinks(s, prev);
      StepKeeps(mid, es[|es| - 1]);
      if mid.mem.Some? {
        BeforeTransitive(d, newer, mid.mem.value.date);
      }
    }
  }

  /** Until a kill the open day never moves back and every date below it is frozen; across kills and restarts
      a date below the open day is frozen once any newer date is recorded. */
  lemma {:induction false} OpenDayIsAFloor(s: System, es: seq<Event>, d: Date)
    requires Inv(s) && s.mem.Some?
    ensures var t := Run(s, es);
            && (Kill !in es ==> t.mem.Some? && AtMost(s.mem.value.date, t.mem.value.date))
            && (Before(d, s.mem.value.date) && (Kill !in es || exists x :: Before(d, x) && Seen(s.file, x).Some?) ==>
                  Seen(t.file, d) == Seen(s.file, d))
  {
    hide Seen, Recorded, Flushed, Opened;
    if x :| Before(d, x) && Seen(s.file, x).Some? {
      RecordedPastIsFrozen(s, es, d, x);
    }
    if es != [] && Kill !in es {
      var prev := es[..|es| - 1];
      var mid := Run(s, prev);
      OpenDayIsAFloor(s, prev, d);
      ViewNeverShrinks(s, prev);
      StepKeeps(mid, es[|es| - 1]);
      assert es[|es| - 1] in es;
      AtMostTransitive(s.mem.value.date, mid.mem.value.date, Run(s, es).mem.value.date);
      if Before(d, s.mem.value.date) {
        BeforeTransitive(d, s.mem.value.date, mid.mem.value.date);
      }
    }
  }

  lemma AtMostTransitive(a: Date, b: Date, c: Date)
    requires AtMost(a, b) && AtMost(b, c)
    ensures AtMost(a, c)
  {
  }
}
