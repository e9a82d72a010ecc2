/** The per-day counter: the open day in memory, the file it appends to, and every way a write can end. */
module CounterModel {
  import opened Calendar
  import opened Text
  import opened Record
  import opened CounterFile

  datatype Observation = MeshRequest(identified: bool) | MeshSession | WebRequest(found: bool)

  function Add(c: Counts, o: Observation): Counts {
    match o
    case MeshRequest(identified) =>
      var c' := c.(meshRequests := c.meshRequests + 1);
      if identified then c'.(meshIdentifiedRequests := c'.meshIdentifiedRequests + 1) else c'
    case MeshSession => c.(meshSessions := c.meshSessions + 1)
    case WebRequest(found) =>
      var c' := c.(webRequests := c.webRequests + 1);
      if found then c' else c'.(webNotFound := c'.webNotFound + 1)
  }

  function AddBehind(c: Counts): Counts {
    c.(clockBehind := c.clockBehind + 1)
  }

  /** How a write ends: whole, or with an error after its first `n` characters (possibly all of them). */
  datatype Outcome = Done | Torn(n: nat)

  /** `State`: the open day and what is known about it. */
  datatype Mem = Mem(date: Date, counts: Counts, flushed: Counts, warnedBehind: bool)

  datatype Running = Running(file: string, mem: Mem)

  /** What one append writes: the header too when the file is empty, in one write. */
  function Buffer(file: string, mem: Mem, now: Reading): string
    requires IsDate(mem.date)
  {
    (if file == "" then HEADER else "") + RecordText(mem.date, mem.counts, now)
  }

  function Prefix(s: string, n: nat): string {
    if n <= |s| then s[..n] else s
  }

  function Appended(s: Running, now: Reading, o: Outcome): Running
    requires IsDate(s.mem.date)
  {
    if s.mem.counts == s.mem.flushed then s
    else
      var buf := Buffer(s.file, s.mem, now);
      match o
      case Done => Running(s.file + buf, s.mem.(flushed := s.mem.counts))
      case Torn(n) => s.(file := s.file + Prefix(buf, n))
  }

  function Rolled(s: Running, now: Reading, o: Outcome): Running
    requires IsDate(s.mem.date)
  {
    if now.today == s.mem.date then s
    else if Before(now.today, s.mem.date) then s.(mem := s.mem.(warnedBehind := true))
    else Running(Appended(s, now, o).file, Mem(now.today, ZERO, ZERO, s.mem.warnedBehind))
  }

  function Recorded(s: Running, obs: Observation, now: Reading, o: Outcome): Running
    requires IsDate(s.mem.date)
  {
    var r := Rolled(s, now, o);
    var c := if Before(now.today, s.mem.date) then AddBehind(r.mem.counts) else r.mem.counts;
    r.(mem := r.mem.(counts := Add(c, obs)))
  }

  // A flush rolls and then appends; after a roll the new day is empty, so at most one of the two writes.
  function Flushed(s: Running, now: Reading, o: Outcome): Running
    requires IsDate(s.mem.date)
  {
    Appended(Rolled(s, now, o), now, o)
  }

  /** The day and totals a start resumes: the newest date in the file unless the clock is past it. */
  function Resumed(records: seq<Entry>, today: Date): (Date, Counts) {
    if records != [] && AtMost(today, records[|records| - 1].date)
    then (records[|records| - 1].date, records[|records| - 1].counts)
    else (today, ZERO)
  }

  /** The file after a start whose compaction, if one is due, does or does not reach its rename. */
  function Tidied(file: string, renamed: bool): string {
    var ls := Lines(file);
    if RecordLines(ls) > |Entries(ls)| && renamed then Compacted(Entries(ls)) else file
  }

  function Opened(file: string, now: Reading, renamed: bool): Running {
    var (date, counts) := Resumed(Entries(Lines(file)), now.today);
    Running(Tidied(file, renamed), Mem(date, counts, counts, false))
  }

  datatype Shift = Same | Forward | Behind

  /** The counter object. `file` stands for the file on disk, which survives the object. */
  class Counter {
    const enabled: bool
    var file: string
    var date: Date
    var counts: Counts
    var flushed: Counts
    var warnedBehind: bool

    ghost predicate Valid()
      reads this
    {
      IsDate(date)
    }

    ghost function Model(): Running
      reads this
    {
      Running(file, Mem(date, counts, flushed, warnedBehind))
    }

    constructor Disabled(now: Reading)
      ensures Valid() && !enabled && file == "" && counts == ZERO
    {
      enabled := false;
      file, date, counts, flushed, warnedBehind := "", now.today, ZERO, ZERO, false;
    }

    /** `open_with_clock` on a file holding `text`; `renamed` is whether a compaction reaches its rename. */
    constructor Open(text: string, now: Reading, renamed: bool)
      ensures Valid() && enabled && Model() == Opened(text, now, renamed)
    {
      hide Lines, HEADER, RecordOf;
      var records, lines := ReadRecords(text);
      ResumedIsDate(text, now.today);
      var onDisk := text;
      if lines > |records| {
        var buf := Compact(records);
        if renamed {
          onDisk := buf;
        }
      }
      enabled := true;
      file := onDisk;
      date := Resumed(records, now.today).0;
      counts := Resumed(records, now.today).1;
      flushed := Resumed(records, now.today).1;
      warnedBehind := false;
    }

    method Append(now: Reading, o: Outcome) returns (ok: bool)
      requires Valid()
      modifies this`file, this`flushed
      ensures Valid() && Model() == if enabled then Appended(old(Model()), now, o) else old(Model())
      ensures ok <==> !enabled || o.Done? || old(counts == flushed)
    {
      hide HEADER, RecordText;
      if !enabled {
        return true;
      }
      if counts == flushed {
        return true;
      }
      var buf := "";
      if file == "" {
        buf := HEADER;
      }
      var record := FormatRecord(date, counts, now);
      buf := buf + record;
      match o {
        case Torn(n) =>
          file := file + Prefix(buf, n);
          ok := false;
        case Done =>
          file := file + buf;
          flushed := counts;
          ok := true;
      }
    }

    method Roll(now: Reading, o: Outcome) returns (shift: Shift)
      requires Valid()
      modifies this
      ensures Valid() && Model() == Rolled(old(Model()), now, if enabled then o else Torn(0))
      ensures shift == if now.today == old(date) then Same else if Before(now.today, old(date)) then Behind else Forward
    {
      hide HEADER, RecordText;
      if now.today == date {
        return Same;
      }
      if Before(now.today, date) {
        warnedBehind := true;
        return Behind;
      }
      var _ := Append(now, o);
      date := now.today;
      counts := ZERO;
      flushed := ZERO;
      shift := Forward;
    }

    method Record(obs: Observation, now: Reading, o: Outcome)
      requires Valid()
      modifies this
      ensures Valid() && Model() == if enabled then Recorded(old(Model()), obs, now, o) else old(Model())
    {
      hide HEADER, RecordText;
      if !enabled {
        return;
      }
      var shift := Roll(now, o);
      if shift == Behind {
        counts := counts.(clockBehind := counts.clockBehind + 1);
      }
      match obs {
        case MeshRequest(identified) =>
          counts := counts.(meshRequests := counts.meshRequests + 1);
          if identified {
            counts := counts.(meshIdentifiedRequests := counts.meshIdentifiedRequests + 1);
          }
        case MeshSession =>
          counts := counts.(meshSessions := counts.meshSessions + 1);
        case WebRequest(found) =>
          counts := counts.(webRequests := counts.webRequests + 1);
          if !found {
            counts := counts.(webNotFound := counts.webNotFound + 1);
          }
      }
    }

    method Flush(now: Reading, o: Outcome) returns (ok: bool)
      requires Valid()
      modifies this
      ensures Valid() && Model() == if enabled then Flushed(old(Model()), now, o) else old(Model())
      ensures ok <==> !enabled || o.Done? || var r := Rolled(old(Model()), now, o); r.mem.counts == r.mem.flushed
    {
      hide HEADER, RecordText;
      if !enabled {
        return true;
      }
      var _ := Roll(now, o);
      ok := Append(now, o);
    }
  }

  lemma {:induction false} EntriesAreDates(lines: seq<string>)
    ensures forall e :: e in Entries(lines) ==> IsDate(e.date) && FourDigitYear(e.date)
  {
    hide TrimEnd, Insert, RecordOf;
    if lines != [] {
      var prev, line := lines[..|lines| - 1], lines[|lines| - 1];
      EntriesAreDates(prev);
      EntriesAreLast(prev);
      match RecordOf(line) {
        case None =>
        case Some((d, c)) =>
          RecordOfIsDate(line);
          InsertLookup(Entries(prev), Entry(d, TrimEnd(line), c));
      }
    }
  }

  lemma {:induction false} ReadFieldsIsDate(p: Partial, fields: seq<string>)
    requires p.date.Some? ==> IsDate(p.date.value) && FourDigitYear(p.date.value)
    ensures var r := ReadFields(p, fields);
            r.Some? && r.value.date.Some? ==> IsDate(r.value.date.value) && FourDigitYear(r.value.date.value)
    decreases fields
  {
    if fields != [] {
      match ReadField(p, fields[0]) {
        case None =>
        case Some(q) => ReadFieldsIsDate(q, fields[1..]);
      }
    }
  }

  lemma RecordOfIsDate(line: string)
    requires RecordOf(line).Some?
    ensures IsDate(RecordOf(line).value.0) && FourDigitYear(RecordOf(line).value.0)
  {
    hide ReadFields;
    ReadFieldsIsDate(Partial(None, ZERO), Tokens(line)[1..]);
  }

  lemma ResumedIsDate(text: string, today: Date)
    requires IsDate(today)
    ensures var day := Resumed(Entries(Lines(text)), today).0;
            IsDate(day) && (FourDigitYear(today) ==> FourDigitYear(day))
  {
    hide Lines;
    EntriesAreDates(Lines(text));
  }
}
