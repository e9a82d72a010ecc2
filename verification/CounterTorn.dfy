/** What a torn save does to the saves after it. */
module CounterTorn {
  import opened Text
  import opened Record
  import opened RecordProofs
  import opened RecordCuts
  import opened Calendar
  import opened CounterFile
  import opened CounterModel
  import opened CounterRuns
  import opened CounterReopen

  /** A save that stops after `m` characters, and the next one, which succeeds. */
  function TornThenSaved(now: Reading, m: nat, later: Reading): seq<Event> {
    [FlushAt(now, Torn(m)), FlushAt(later, Done)]
  }

  lemma RunTornThenSaved(s: Running, now: Reading, m: nat, later: Reading)
    requires IsDate(s.mem.date)
    ensures Run(Alive(s), TornThenSaved(now, m, later)) ==
            Step(Alive(Flushed(s, now, Torn(m))), FlushAt(later, Done))
  {
    hide Flushed;
    var es := TornThenSaved(now, m, later);
    assert es[..1] == [FlushAt(now, Torn(m))] && [FlushAt(now, Torn(m))][..0] == [];
    assert Run(Alive(s), es[..1]) == Alive(Flushed(s, now, Torn(m)));
  }

  /** For every process with unsaved totals and every cut of its save: the next save succeeds and the process
      counts it as saved, and its totals are seen, by a reader then and after any kill and start, if and only
      if the fragment the cut leaves lets them be read. Every other day is as it was. */
  lemma SavedIsReadIffCutHeals(s: Running, now: Reading, m: nat, later: Reading)
    requires IsDate(s.mem.date) && s.mem.counts != s.mem.flushed && AtMost(now.today, s.mem.date)
    requires m < |Buffer(s.file, s.mem, now)|
    ensures var t := Run(Alive(s), TornThenSaved(now, m, later));
            var day := s.mem.date;
            var isRead := Heals(Fragment(s.file + Buffer(s.file, s.mem, now)[..m]));
            && t.mem.Some? && t.mem.value.counts == t.mem.value.flushed
            && (AtMost(later.today, day) ==> t.mem.value.date == day && t.mem.value.counts == s.mem.counts)
            && (forall x :: Seen(t.file, x) ==
                  if x == day && isRead && FourDigitYear(day) && s.mem.counts.Fits() then Some(s.mem.counts)
                  else Seen(s.file, x))
            && (forall x, start, renamed :: Seen(Opened(t.file, start, renamed).file, x) == Seen(t.file, x))
  {
    hide Seen, Heals, Fragment, Buffer, Opened, Run;
    var cut := s.file + Buffer(s.file, s.mem, now)[..m];
    RunTornThenSaved(s, now, m, later);
    TornAppend(s.file, s.mem, now, m);
    TornFlush(s, now, m);
    var mem := Flushed(s, now, Torn(m)).mem;
    WholeAppend(cut, mem, later);
    SavedFlush(Running(cut, mem), later);
    var t := Step(Alive(Running(cut, mem)), FlushAt(later, Done));
    forall x, start, renamed ensures Seen(Opened(t.file, start, renamed).file, x) == Seen(t.file, x) {
      OpenKeeps(t.file, start, renamed);
    }
  }

  lemma TornFlush(s: Running, now: Reading, m: nat)
    requires IsDate(s.mem.date) && s.mem.counts != s.mem.flushed && AtMost(now.today, s.mem.date)
    requires m < |Buffer(s.file, s.mem, now)|
    ensures var r := Flushed(s, now, Torn(m));
            && r.file == s.file + Buffer(s.file, s.mem, now)[..m]
            && r.mem.date == s.mem.date && r.mem.counts == s.mem.counts && r.mem.flushed == s.mem.flushed
  {
    hide HEADER, RecordText;
  }

  lemma SavedFlush(s: Running, later: Reading)
    requires IsDate(s.mem.date) && s.mem.counts != s.mem.flushed
    ensures var r := Flushed(s, later, Done);
            && r.file == s.file + Buffer(s.file, s.mem, later) && r.mem.counts == r.mem.flushed
            && (AtMost(later.today, s.mem.date) ==> r.mem.date == s.mem.date && r.mem.counts == s.mem.counts)
  {
    hide HEADER, RecordText;
  }

  // ----- Which cuts those are

  lemma {:induction false} HeaderLineCut(line: string, rest: string, m: nat)
    requires '\n' !in line && line != "" && line[0] == '#' && m <= |line| + 1
    ensures var text := line + "\n" + rest;
            Heals(Fragment(text[..m])) <==> m == 0 || text[m - 1] == '\n'
  {
    hide Heals, Lines, Fragment;
    var text := line + "\n" + rest;
    NothingHeals();
    if m <= |line| {
      assert text[..m] == line[..m];
      NoNewlineNoLines(line[..m]);
      if m > 0 {
        HashNeverHeals(line[..m]);
      }
    } else {
      assert text[..m] == line + "\n" + "";
      LinesCons(line, "");
      EmptyFile();
    }
  }

  /** Past its first line, a cut of the header is a cut of what follows that line. */
  lemma NextLineCut(line: string, rest: string, m: nat)
    requires '\n' !in line && |line| + 1 <= m <= |line + "\n" + rest|
    ensures Fragment((line + "\n" + rest)[..m]) == Fragment(rest[..m - |line| - 1])
  {
    hide Lines, Fragment;
    assert (line + "\n" + rest)[..m] == line + "\n" + rest[..m - |line| - 1];
    LinesCons(line, rest[..m - |line| - 1]);
  }

  /** A cut in the header heals if and only if it is at the start of a line. */
  lemma HeaderCutHeals(m: nat)
    requires m <= |HEADER|
    ensures Heals(Fragment(HEADER[..m])) <==> m == 0 || HEADER[m - 1] == '\n'
  {
    hide Heals, Fragment, HEADER1, HEADER2, HEADER3;
    Header1IsText();
    Header2IsText();
    Header3IsText();
    var last := HEADER3 + "\n" + "";
    var tail := HEADER2 + "\n" + last;
    var n1, n2 := |HEADER1| + 1, |HEADER2| + 1;
    assert HEADER == HEADER1 + "\n" + tail;
    if m <= n1 {
      HeaderLineCut(HEADER1, tail, m);
    } else {
      NextLineCut(HEADER1, tail, m);
      assert HEADER[m - 1] == tail[m - n1 - 1];
      if m <= n1 + n2 {
        HeaderLineCut(HEADER2, last, m - n1);
      } else {
        NextLineCut(HEADER2, last, m - n1);
        assert tail[m - n1 - 1] == last[m - n1 - n2 - 1];
        HeaderLineCut(HEADER3, "", m - n1 - n2);
      }
    }
  }

  /** The cuts of one save, header and record, that heal. */
  predicate IsGoodSaveCut(file: string, mem: Mem, m: nat)
    requires IsDate(mem.date)
  {
    if file != "" then IsGoodCut(mem.date, mem.counts, m)
    else if m <= |HEADER| then m == 0 || HEADER[m - 1] == '\n'
    else IsGoodCut(mem.date, mem.counts, m - |HEADER|)
  }

  /** For every save to a file without a fragment, and every cut of it: which cuts heal, by position. */
  lemma SaveCutHeals(file: string, mem: Mem, now: Reading, m: nat)
    requires IsDate(mem.date) && Fragment(file) == "" && m < |Buffer(file, mem, now)|
    ensures Heals(Fragment(file + Buffer(file, mem, now)[..m])) <==> IsGoodSaveCut(file, mem, m)
  {
    hide Heals, Fragment, HEADER, RecordText, IsGoodCut;
    var text := RecordText(mem.date, mem.counts, now);
    HeaderTorn(|HEADER|);
    if file == "" && m <= |HEADER| {
      assert file + Buffer(file, mem, now)[..m] == HEADER[..m];
      HeaderCutHeals(m);
    } else if file == "" {
      assert file + Buffer(file, mem, now)[..m] == HEADER + text[..m - |HEADER|];
      RecordCutFragment(HEADER, mem, now, m - |HEADER|);
      CutHeals(mem.date, mem.counts, now, m - |HEADER|);
    } else {
      assert Buffer(file, mem, now) == text;
      RecordCutFragment(file, mem, now, m);
      CutHeals(mem.date, mem.counts, now, m);
    }
  }

  lemma RecordCutFragment(file: string, mem: Mem, now: Reading, n: nat)
    requires IsDate(mem.date) && Fragment(file) == "" && n < |RecordText(mem.date, mem.counts, now)|
    ensures Fragment(file + RecordText(mem.date, mem.counts, now)[..n]) ==
            RecordText(mem.date, mem.counts, now)[..n]
  {
    hide RecordText, Lines, Fragment;
    RecordTextIsLine(mem.date, mem.counts, now);
    var cut := RecordText(mem.date, mem.counts, now)[..n];
    LinesAppend(file, cut);
    assert "" + cut == cut;
    NoNewlineNoLines(cut);
  }

  // ----- A save that succeeds and is gone

  const ONE := ZERO.(meshSessions := 1)

  lemma FirstSession(now: Reading)
    ensures Run(System("", None), [Start(now, false), Observe(MeshSession, now, Done)]) ==
            Alive(Running("", Mem(now.today, ONE, ZERO, false)))
  {
    hide Opened;
    var es := [Start(now, false), Observe(MeshSession, now, Done)];
    assert es[..1] == [Start(now, false)] && [Start(now, false)][..0] == [];
    OpensEmpty(now);
    assert Run(System("", None), [Start(now, false)]) == Alive(Opened("", now, false));
  }

  /** From an empty file: one session, a save cut after its first character or after its record's first
      character, a save that succeeds. The counter holds the session as saved; a reader sees nothing, and after
      a kill and a start it is gone. */
  lemma SavedRecordIsLost(now: Reading, m: nat)
    requires m == 1 || m == |HEADER| + 1
    ensures var es := [Start(now, false), Observe(MeshSession, now, Done)] + TornThenSaved(now, m, now);
            var t := Run(System("", None), es);
            && t.mem.Some? && t.mem.value.counts == t.mem.value.flushed == ONE
            && Seen(t.file, now.today) == None
            && Run(t, [Kill, Start(now, false)]).mem.Some?
            && Run(t, [Kill, Start(now, false)]).mem.value.counts == ZERO
  {
    hide HEADER, RecordText, Heals, Seen, Opened, Run, TornThenSaved, Fragment, IsGoodCut;
    var r := Running("", Mem(now.today, ONE, ZERO, false));
    FirstSession(now);
    RunConcat(System("", None), [Start(now, false), Observe(MeshSession, now, Done)], TornThenSaved(now, m, now));
    EmptyFile();
    SmallCuts(now);
    SaveCutHeals("", r.mem, now, m);
    SavedIsReadIffCutHeals(r, now, m, now);
    var t := Run(Alive(r), TornThenSaved(now, m, now));
    KillAndStart(t, now, false);
    StartReopens(t.file, now);
  }

  lemma SmallCuts(now: Reading)
    ensures |HEADER| > 1 && HEADER[0] != '\n' && |RecordText(now.today, ONE, now)| > 1
    ensures !IsGoodCut(now.today, ONE, 1)
  {
    hide HEADER1, HEADER2, HEADER3, KeyFields, DateText;
    Header1IsText();
  }
}
