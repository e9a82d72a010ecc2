/** What a start does to the file, told from its lines. */
module CounterStart {
  import opened Calendar
  import opened Record
  import opened CounterFile
  import opened CounterModel

  ghost predicate IsRecordFor(line: string, d: Date) {
    RecordOf(line).Some? && RecordOf(line).value.0 == d
  }

  /** Two lines of the file are records for one date. */
  ghost predicate HasDuplicate(lines: seq<string>) {
    exists i, j, d :: 0 <= i < j < |lines| && IsRecordFor(lines[i], d) && IsRecordFor(lines[j], d)
  }

  lemma {:induction false} SeenIffRecord(lines: seq<string>, d: Date)
    ensures LastFor(lines, d).Some? <==> exists i :: 0 <= i < |lines| && IsRecordFor(lines[i], d)
  {
    hide RecordOf;
    if lines != [] {
      var n := |lines| - 1;
      SeenIffRecord(lines[..n], d);
      assert forall i :: 0 <= i < n ==> lines[..n][i] == lines[i];
      assert IsRecordFor(lines[n], d) ==> LastFor(lines, d).Some?;
      if LastFor(lines[..n], d).Some? {
        var i :| 0 <= i < n && IsRecordFor(lines[..n][i], d);
        assert IsRecordFor(lines[i], d);
      }
    }
  }

  lemma DuplicateSnoc(prev: seq<string>, line: string)
    ensures HasDuplicate(prev + [line]) <==>
            HasDuplicate(prev) || (RecordOf(line).Some? && LastFor(prev, RecordOf(line).value.0).Some?)
  {
    hide RecordOf;
    var lines := prev + [line];
    if RecordOf(line).Some? {
      var d := RecordOf(line).value.0;
      SeenIffRecord(prev, d);
      assert IsRecordFor(line, d) && lines[|prev|] == line;
      if LastFor(prev, d).Some? {
        var i :| 0 <= i < |prev| && IsRecordFor(prev[i], d);
        assert IsRecordFor(lines[i], d) && IsRecordFor(lines[|prev|], d);
      }
    }
    if HasDuplicate(prev) {
      var i, j, d :| 0 <= i < j < |prev| && IsRecordFor(prev[i], d) && IsRecordFor(prev[j], d);
      assert IsRecordFor(lines[i], d) && IsRecordFor(lines[j], d);
    }
    if HasDuplicate(lines) {
      var i, j, d :| 0 <= i < j < |lines| && IsRecordFor(lines[i], d) && IsRecordFor(lines[j], d);
      assert IsRecordFor(prev[i], d);
      if j < |prev| {
        assert IsRecordFor(prev[j], d);
      }
    }
  }

  /** There are more record lines than dates exactly when two of them are for one date. */
  lemma {:induction false} DuplicateIff(lines: seq<string>)
    ensures RecordLines(lines) > |Entries(lines)| <==> HasDuplicate(lines)
  {
    hide RecordOf, LastFor, HasDuplicate, Entries, RecordLines, Insert, Lookup;
    if lines == [] {
      NoLines();
    } else {
      var prev, line := lines[..|lines| - 1], lines[|lines| - 1];
      assert lines == prev + [line];
      DuplicateIff(prev);
      DuplicateSnoc(prev, line);
      EntriesSnoc(prev, line);
      EntriesAreLast(prev);
      match RecordOf(line) {
        case None =>
        case Some((d, c)) =>
          assert CountsOf(Lookup(Entries(prev), d)) == LastFor(prev, d);
          InsertLookup(Entries(prev), Entry(d, TrimEnd(line), c));
      }
    }
  }

  lemma NoLines()
    ensures !HasDuplicate([]) && RecordLines([]) == 0 && Entries([]) == []
  {
  }

  /** For every file and clock: a start that reaches its rename rewrites a file that has two records for one
      date, to the header and one record line for each date and no fragment; it leaves every other file, and
      every file when it does not reach its rename, exactly as it is. */
  lemma StartCompacts(file: string, now: Reading, renamed: bool)
    ensures var after := Opened(file, now, renamed).file;
            if renamed && HasDuplicate(Lines(file)) then
              && HEADER <= after && Fragment(after) == "" && !HasDuplicate(Lines(after))
              && |Lines(after)| == |Lines(HEADER)| + RecordLines(Lines(after))
              && (forall d :: Seen(after, d) == Seen(file, d)) && Entries(Lines(after)) == Entries(Lines(file))
            else after == file
  {
    hide Lines, Entries, RecordLines, HasDuplicate, Compacted, Fragment, Seen, HEADER, Resumed;
    DuplicateIff(Lines(file));
    if renamed && HasDuplicate(Lines(file)) {
      var after := Compacted(Entries(Lines(file)));
      CompactionPreserves(file);
      DuplicateIff(Lines(after));
      LinesAreText(file);
      EntriesFaithful(Lines(file));
      CompactedLines(Entries(Lines(file)));
      CompactedSnoc(Entries(Lines(file)));
    }
  }

  lemma {:induction false} CompactedLines(es: seq<Entry>)
    requires forall e :: e in es ==> '\n' !in e.line
    ensures |Lines(Compacted(es))| == |Lines(HEADER)| + |es| && Fragment(Compacted(es)) == ""
  {
    hide HEADER, Lines, Fragment, Compacted;
    CompactedSnoc(es);
    if es == [] {
      HeaderEntries();
    } else {
      var prev, e := es[..|es| - 1], es[|es| - 1];
      assert e in es && forall x :: x in prev ==> x in es;
      CompactedLines(prev);
      LinesSnoc(Compacted(prev), e.line);
    }
  }

  lemma CompactedSnoc(es: seq<Entry>)
    ensures HEADER <= Compacted(es)
    ensures es == [] ==> Compacted(es) == HEADER
    ensures es != [] ==> Compacted(es) == Compacted(es[..|es| - 1]) + es[|es| - 1].line + "\n"
  {
    hide HEADER;
    if es != [] {
      var (a, b, c) := (Joined(es[..|es| - 1]), es[|es| - 1].line, "\n");
      assert HEADER + (a + b + c) == HEADER + a + b + c;
    } else {
      assert HEADER + "" == HEADER;
    }
  }

  /** A flush writes exactly when something was counted since the last save, under any clock: an idle day, or an
      idle rollover, leaves the file as it is. */
  lemma FlushWritesIffCounted(s: Running, now: Reading)
    requires IsDate(s.mem.date)
    ensures Flushed(s, now, Done).file == s.file <==> s.mem.counts == s.mem.flushed
  {
    hide HEADER, KeyFields, DateText, Stamp;
    var buf := Buffer(s.file, s.mem, now);
    assert |buf| > 0 && |s.file + buf| > |s.file|;
  }
}
