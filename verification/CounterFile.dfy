/** The counter file: its lines, what a last-record-wins reader sees in it, and compaction. */
module CounterFile {
  import opened Calendar
  import opened Text
  import opened Record
  import opened RecordProofs

  // ----- Lines

  /** The newline-terminated lines of a text, newlines included; a final fragment is dropped. */
  function Lines(text: string): seq<string> {
    var n := IndexOf(text, '\n');
    if n == |text| then [] else [text[..n + 1]] + Lines(text[n + 1..])
  }

  /** The final fragment: what follows the last newline. */
  function Fragment(text: string): (f: string)
    ensures '\n' !in f
  {
    var n := IndexOf(text, '\n');
    if n == |text| then text else Fragment(text[n + 1..])
  }

  lemma LinesCons(line: string, rest: string)
    requires '\n' !in line
    ensures Lines(line + "\n" + rest) == [line + "\n"] + Lines(rest)
    ensures Fragment(line + "\n" + rest) == Fragment(rest)
  {
    var text := line + ['\n'] + rest;
    IndexOfIs(line, '\n', rest);
    assert text[..|line| + 1] == line + "\n" && text[|line| + 1..] == rest;
  }

  /** Appended text continues the final fragment. */
  lemma {:induction false} LinesAppend(text: string, more: string)
    ensures Lines(text + more) == Lines(text) + Lines(Fragment(text) + more)
    ensures Fragment(text + more) == Fragment(Fragment(text) + more)
  {
    hide Lines, Fragment;
    var n := IndexOf(text, '\n');
    if n == |text| {
      NoNewlineNoLines(text);
    } else {
      var line, rest := text[..n], text[n + 1..];
      assert text == line + "\n" + rest && text + more == line + "\n" + (rest + more);
      LinesCons(line, rest);
      LinesCons(line, rest + more);
      LinesAppend(rest, more);
    }
  }

  lemma NoNewlineNoLines(text: string)
    requires '\n' !in text
    ensures Lines(text) == [] && Fragment(text) == text
  {
  }

  function Flat(lines: seq<string>): string {
    if lines == [] then "" else lines[0] + Flat(lines[1..])
  }

  /** The lines and the fragment are the whole text, in order, and nothing else. */
  lemma {:induction false} LinesAreText(text: string)
    ensures Flat(Lines(text)) + Fragment(text) == text
    ensures forall l :: l in Lines(text) ==> l != "" && l[|l| - 1] == '\n' && '\n' !in l[..|l| - 1]
  {
    hide Lines, Fragment;
    var n := IndexOf(text, '\n');
    if n == |text| {
      NoNewlineNoLines(text);
    } else {
      var line, rest := text[..n], text[n + 1..];
      assert text == line + "\n" + rest;
      LinesCons(line, rest);
      LinesAreText(rest);
      var (ls, f) := (Lines(rest), Fragment(rest));
      assert ([line + "\n"] + ls)[1..] == ls;
      assert line + "\n" + Flat(ls) + f == line + "\n" + (Flat(ls) + f);
    }
  }

  // ----- The reader

  /** What a last-record-wins reader sees for `d`. */
  function LastFor(lines: seq<string>, d: Date): Option<Counts> {
    if lines == [] then None
    else
      match RecordOf(lines[|lines| - 1])
      case Some((date, c)) => if date == d then Some(c) else LastFor(lines[..|lines| - 1], d)
      case None => LastFor(lines[..|lines| - 1], d)
  }

  function Seen(text: string, d: Date): Option<Counts> {
    LastFor(Lines(text), d)
  }

  // ----- read_records

  /** One entry of the `BTreeMap`, which is modelled by its entries in key order. */
  datatype Entry = Entry(date: Date, line: string, counts: Counts)

  predicate Sorted(es: seq<Entry>) {
    forall i, j :: 0 <= i < j < |es| ==> Before(es[i].date, es[j].date)
  }

  function Insert(es: seq<Entry>, e: Entry): seq<Entry> {
    if es == [] || Before(e.date, es[0].date) then [e] + es
    else if e.date == es[0].date then [e] + es[1..]
    else [es[0]] + Insert(es[1..], e)
  }

  function Lookup(es: seq<Entry>, d: Date): Option<Entry> {
    if es == [] then None else if es[0].date == d then Some(es[0]) else Lookup(es[1..], d)
  }

  /** `trim_end`. */
  function TrimEnd(s: string): (t: string)
    ensures t <= s && (t == "" || EndsInWord(t))
    ensures forall i :: |t| <= i < |s| ==> IsSpace(s[i])
  {
    if s == "" || !IsSpace(s[|s| - 1]) then s else TrimEnd(s[..|s| - 1])
  }

  function AddLine(es: seq<Entry>, line: string): seq<Entry> {
    match RecordOf(line)
    case Some((d, c)) => Insert(es, Entry(d, TrimEnd(line), c))
    case None => es
  }

  function Entries(lines: seq<string>): seq<Entry> {
    if lines == [] then [] else AddLine(Entries(lines[..|lines| - 1]), lines[|lines| - 1])
  }

  function RecordLines(lines: seq<string>): nat {
    if lines == [] then 0
    else RecordLines(lines[..|lines| - 1]) + (if RecordOf(lines[|lines| - 1]).Some? then 1 else 0)
  }

  lemma {:induction false} InsertLookup(es: seq<Entry>, e: Entry)
    requires Sorted(es)
    ensures Sorted(Insert(es, e))
    ensures forall x :: x in Insert(es, e) ==> x == e || x in es
    ensures forall d :: Lookup(Insert(es, e), d) == if d == e.date then Some(e) else Lookup(es, d)
    ensures |Insert(es, e)| == |es| + (if Lookup(es, e.date).None? then 1 else 0)
  {
    if es == [] || Before(e.date, es[0].date) {
      LookupBelow(es, e.date);
      assert ([e] + es)[1..] == es;
    } else if e.date == es[0].date {
      assert ([e] + es[1..])[1..] == es[1..];
    } else {
      InsertLookup(es[1..], e);
      assert ([es[0]] + Insert(es[1..], e))[1..] == Insert(es[1..], e);
      assert forall i :: 0 < i < |es| ==> es[i] == es[1..][i - 1];
    }
  }

  lemma {:induction false} LookupBelow(es: seq<Entry>, d: Date)
    requires Sorted(es) && (es == [] || Before(d, es[0].date))
    ensures Lookup(es, d) == None
  {
    if es != [] {
      LookupBelow(es[1..], d);
    }
  }

  function CountsOf(e: Option<Entry>): Option<Counts> {
    match e case None => None case Some(x) => Some(x.counts)
  }

  /** Reading the file gives one entry per date, in date order, and it is the last record for that date. */
  lemma {:induction false} EntriesAreLast(lines: seq<string>)
    ensures Sorted(Entries(lines))
    ensures forall d :: CountsOf(Lookup(Entries(lines), d)) == LastFor(lines, d)
    ensures |Entries(lines)| <= RecordLines(lines)
  {
    hide RecordOf, TrimEnd;
    if lines != [] {
      var prev := lines[..|lines| - 1];
      EntriesAreLast(prev);
      match RecordOf(lines[|lines| - 1]) {
        case None =>
        case Some((d, c)) => InsertLookup(Entries(prev), Entry(d, TrimEnd(lines[|lines| - 1]), c));
      }
    }
  }

  lemma EntriesSnoc(lines: seq<string>, line: string)
    ensures Entries(lines + [line]) == AddLine(Entries(lines), line)
    ensures RecordLines(lines + [line]) == RecordLines(lines) + (if RecordOf(line).Some? then 1 else 0)
  {
    hide RecordOf, AddLine;
    assert (lines + [line])[..|lines|] == lines;
  }

  lemma {:induction false} LinesUnfold(text: string)
    ensures var n := IndexOf(text, '\n');
            Lines(text) == if n == |text| then [] else [text[..n + 1]] + Lines(text[n + 1..])
  {
  }

  method ReadRecords(text: string) returns (records: seq<Entry>, lines: nat)
    ensures records == Entries(Lines(text))
    ensures lines == RecordLines(Lines(text))
  {
    hide RecordOf, TrimEnd, Lines, Insert, IndexOf;
    records, lines := [], 0;
    var rest := text;
    ghost var done: seq<string> := [];
    while '\n' in rest
      invariant done + Lines(rest) == Lines(text)
      invariant records == Entries(done) && lines == RecordLines(done)
      decreases |rest|
    {
      var n := IndexOf(rest, '\n');
      LinesUnfold(rest);
      var line := rest[..n + 1];
      var parsed := ParseRecord(line);
      match parsed {
        case None =>
        case Some((date, counts)) =>
          lines := lines + 1;
          records := Insert(records, Entry(date, TrimEnd(line), counts));
      }
      EntriesSnoc(done, line);
      done := done + [line];
      rest := rest[n + 1..];
    }
    LinesUnfold(rest);
    assert done + [] == done;
  }

  // ----- compact

  const HEADER1: string :=
    "# " + "lblogd request counts. " + "One record per line: " + "DAY key=value ..."
  const HEADER2: string :=
    "# " + "Dates are UTC calendar " + "days; a record holds " + "that day's running " + "total."
  const HEADER3: string :=
    "# " + "The last record for " + "a date wins. " + "Appended, never " + "rewritten in place."

  const HEADER: string := HEADER1 + "\n" + HEADER2 + "\n" + HEADER3 + "\n"

  function Joined(es: seq<Entry>): string {
    if es == [] then "" else Joined(es[..|es| - 1]) + es[|es| - 1].line + "\n"
  }

  /** The file compaction writes: the header and the surviving raw line of each date. */
  function Compacted(es: seq<Entry>): string {
    HEADER + Joined(es)
  }

  method Compact(es: seq<Entry>) returns (buf: string)
    ensures buf == Compacted(es)
  {
    hide HEADER;
    buf := HEADER;
    for i := 0 to |es|
      invariant buf == HEADER + Joined(es[..i])
    {
      assert es[..i + 1][..i] == es[..i];
      buf := buf + es[i].line;
      buf := buf + "\n";
    }
    assert es[..|es|] == es;
  }

  // What every entry read from a file satisfies: its raw line is still the record it came from.
  predicate Faithful(e: Entry) {
    '\n' !in e.line && TrimEnd(e.line + "\n") == e.line && RecordOf(e.line + "\n") == Some((e.date, e.counts))
  }

  lemma {:induction false} TokensBlank(s: string)
    requires forall i :: 0 <= i < |s| ==> IsSpace(s[i])
    ensures Tokens(s) == []
  {
    hide IsSpace;
    if s != "" {
      TokensBlank(s[1..]);
    }
  }

  /** Trailing white space changes no token, so trimming a line and ending it afresh changes no record. */
  lemma TrimTokens(line: string)
    ensures Tokens(TrimEnd(line) + "\n") == Tokens(line)
  {
    hide IsSpace, Tokens;
    var t := TrimEnd(line);
    var blank := line[|t|..];
    assert line == t + blank;
    TokensBlank(blank);
    assert Tokens("\n") == [] by { TokensNewline(); }
    if t == "" {
      assert t + "\n" == "\n" && t + blank == blank;
    } else {
      var n := LastWord(t);
      assert t == t[..n] + t[n..];
      NewlineIsSpace();
      TokensInWord(t[..n], t[n..], "", blank);
      TokensInWord(t[..n], t[n..], "", "\n");
      assert "" + blank == blank && "" + "\n" == "\n";
    }
  }

  lemma NewlineIsSpace()
    ensures IsSpace('\n')
  {
  }

  lemma TrimEndIs(t: string, blank: string)
    requires t == "" || EndsInWord(t)
    requires forall i :: 0 <= i < |blank| ==> IsSpace(blank[i])
    ensures TrimEnd(t + blank) == t
    decreases |blank|
  {
    hide IsSpace;
    if blank == "" {
      assert t + blank == t;
    } else {
      assert (t + blank)[..|t + blank| - 1] == t + blank[..|blank| - 1];
      TrimEndIs(t, blank[..|blank| - 1]);
    }
  }

  lemma AddLineFaithful(line: string)
    requires line != "" && line[|line| - 1] == '\n' && '\n' !in line[..|line| - 1]
    requires RecordOf(line).Some?
    ensures Faithful(Entry(RecordOf(line).value.0, TrimEnd(line), RecordOf(line).value.1))
  {
    hide IsSpace, Tokens, ReadFields;
    var t := TrimEnd(line);
    NewlineIsSpace();
    assert t <= line[..|line| - 1];
    TrimTokens(line);
    TrimEndIs(t, "\n");
  }

  lemma {:induction false} EntriesFaithful(lines: seq<string>)
    requires forall l :: l in lines ==> l != "" && l[|l| - 1] == '\n' && '\n' !in l[..|l| - 1]
    ensures forall e :: e in Entries(lines) ==> Faithful(e)
  {
    hide RecordOf, TrimEnd, Faithful;
    if lines != [] {
      var prev, line := lines[..|lines| - 1], lines[|lines| - 1];
      EntriesFaithful(prev);
      EntriesAreLast(prev);
      match RecordOf(line) {
        case None =>
        case Some((d, c)) =>
          AddLineFaithful(line);
          InsertLookup(Entries(prev), Entry(d, TrimEnd(line), c));
      }
    }
  }

  // ----- What compaction preserves

  lemma Header1IsText()
    ensures '\n' !in HEADER1 && |HEADER1| > 2 && HEADER1[..2] == "# "
  {
    assert '\n' !in "# " && '\n' !in "lblogd request counts. ";
    assert '\n' !in "One record per line: " && '\n' !in "DAY key=value ...";
  }

  lemma Header2IsText()
    ensures '\n' !in HEADER2 && |HEADER2| > 2 && HEADER2[..2] == "# "
  {
    assert '\n' !in "# " && '\n' !in "Dates are UTC calendar " && '\n' !in "days; a record holds ";
    assert '\n' !in "that day's running " && '\n' !in "total.";
  }

  lemma Header3IsText()
    ensures '\n' !in HEADER3 && |HEADER3| > 2 && HEADER3[..2] == "# "
  {
    assert '\n' !in "# " && '\n' !in "The last record for " && '\n' !in "a date wins. ";
    assert '\n' !in "Appended, never " && '\n' !in "rewritten in place.";
  }

  lemma CommentIsNoRecord(line: string)
    requires |line| > 2 && line[..2] == "# "
    ensures RecordOf(line) == None
  {
    hide ReadFields;
    assert line == "#" + line[1..] && line[1] == line[..2][1];
    TokensCons("#", line[1..]);
  }

  lemma HeaderLines()
    ensures Lines(HEADER) == [HEADER1 + "\n", HEADER2 + "\n", HEADER3 + "\n"] && Fragment(HEADER) == ""
    ensures forall l :: l in Lines(HEADER) ==> RecordOf(l) == None
  {
    hide HEADER1, HEADER2, HEADER3, RecordOf, Lines, Fragment;
    Header1IsText();
    Header2IsText();
    Header3IsText();
    var (a, b, c) := (HEADER1, HEADER2, HEADER3);
    assert HEADER == a + "\n" + (b + "\n" + (c + "\n" + ""));
    LinesCons(a, b + "\n" + (c + "\n" + ""));
    LinesCons(b, c + "\n" + "");
    LinesCons(c, "");
    NoNewlineNoLines("");
    assert (a + "\n")[..2] == a[..2] && (b + "\n")[..2] == b[..2] && (c + "\n")[..2] == c[..2];
    CommentIsNoRecord(a + "\n");
    CommentIsNoRecord(b + "\n");
    CommentIsNoRecord(c + "\n");
  }

  lemma LinesSnoc(text: string, line: string)
    requires Fragment(text) == "" && '\n' !in line
    ensures Lines(text + line + "\n") == Lines(text) + [line + "\n"] && Fragment(text + line + "\n") == ""
  {
    hide Lines, Fragment;
    assert text + line + "\n" == text + (line + "\n" + "") && "" + (line + "\n" + "") == line + "\n" + "";
    LinesAppend(text, line + "\n" + "");
    LinesCons(line, "");
    NoNewlineNoLines("");
  }

  lemma {:induction false} InsertLast(es: seq<Entry>, e: Entry)
    requires Sorted(es) && forall x :: x in es ==> Before(x.date, e.date)
    ensures Insert(es, e) == es + [e]
  {
    if es != [] {
      InsertLast(es[1..], e);
      assert es[0] in es;
      assert es + [e] == [es[0]] + (es[1..] + [e]);
    }
  }

  lemma AddLast(es: seq<Entry>)
    requires es != [] && Sorted(es) && Faithful(es[|es| - 1])
    ensures AddLine(es[..|es| - 1], es[|es| - 1].line + "\n") == es
  {
    hide RecordOf, TrimEnd, Insert;
    var prev, e := es[..|es| - 1], es[|es| - 1];
    InsertLast(prev, e);
    assert es == prev + [e];
  }

  lemma HeaderEntries()
    ensures Entries(Lines(HEADER)) == [] && RecordLines(Lines(HEADER)) == 0 && Fragment(HEADER) == ""
    ensures forall d :: LastFor(Lines(HEADER), d) == None
  {
    hide RecordOf, HEADER, Lines, Fragment, HEADER1, HEADER2, HEADER3;
    HeaderLines();
    var ls := Lines(HEADER);
    SkipNonRecords(ls);
  }

  lemma {:induction false} SkipNonRecords(ls: seq<string>)
    requires forall l :: l in ls ==> RecordOf(l) == None
    ensures Entries(ls) == [] && RecordLines(ls) == 0
    ensures forall d :: LastFor(ls, d) == None
  {
    hide RecordOf;
    if ls != [] {
      SkipNonRecords(ls[..|ls| - 1]);
      assert ls[|ls| - 1] in ls;
    }
  }

  /** Reading a compacted file gives back exactly the entries it was written from, one line each. */
  lemma {:induction false} ReadCompacted(es: seq<Entry>)
    requires Sorted(es) && forall e :: e in es ==> Faithful(e)
    ensures Entries(Lines(Compacted(es))) == es
    ensures RecordLines(Lines(Compacted(es))) == |es|
    ensures Fragment(Compacted(es)) == ""
  {
    hide RecordOf, HEADER, Lines, Fragment, TrimEnd, AddLine;
    if es == [] {
      assert Compacted(es) == HEADER;
      HeaderEntries();
    } else {
      var prev, e := es[..|es| - 1], es[|es| - 1];
      assert e in es;
      ReadCompacted(prev);
      assert Compacted(es) == Compacted(prev) + e.line + "\n";
      hide Compacted, Entries, RecordLines, Sorted, Before;
      LinesSnoc(Compacted(prev), e.line);
      EntriesSnoc(Lines(Compacted(prev)), e.line + "\n");
      AddLast(es);
    }
  }

  /** For every file: compacting it shows a reader the same days and the same raw lines, leaves one
      record line per date and no fragment, so opening the result again does not compact it. */
  lemma CompactionPreserves(text: string)
    ensures var after := Compacted(Entries(Lines(text)));
            && (forall d :: Seen(after, d) == Seen(text, d))
            && Entries(Lines(after)) == Entries(Lines(text))
            && RecordLines(Lines(after)) == |Entries(Lines(after))|
            && Fragment(after) == ""
  {
    hide RecordOf, HEADER, Lines, Fragment, Compacted, Faithful;
    var ls := Lines(text);
    LinesAreText(text);
    EntriesAreLast(ls);
    EntriesFaithful(ls);
    ReadCompacted(Entries(ls));
    EntriesAreLast(Lines(Compacted(Entries(ls))));
  }

  /** The line that survives for a date is, character for character, the last record line for that date,
      but for the white space at its end. */
  lemma {:induction false} SurvivorVerbatim(lines: seq<string>, d: Date)
    requires Lookup(Entries(lines), d).Some?
    ensures exists i :: 0 <= i < |lines| && Lookup(Entries(lines), d).value.line == TrimEnd(lines[i])
                       && RecordOf(lines[i]).Some? && RecordOf(lines[i]).value.0 == d
                       && forall j :: i < j < |lines| && RecordOf(lines[j]).Some? ==> RecordOf(lines[j]).value.0 != d
  {
    hide RecordOf, TrimEnd, Insert;
    var n := |lines| - 1;
    var prev, line := lines[..n], lines[n];
    EntriesAreLast(prev);
    match RecordOf(line) {
      case None =>
        SurvivorVerbatim(prev, d);
      case Some((date, c)) =>
        InsertLookup(Entries(prev), Entry(date, TrimEnd(line), c));
        if date != d {
          SurvivorVerbatim(prev, d);
        }
    }
  }
}
