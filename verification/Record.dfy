/** One line of the counter file: a day's totals as text, and the parser that reads it back. */
module Record {
  import opened Calendar
  import opened Text

  // ----- Dates as text

  function SignedPadded(n: int, width: nat): string
    requires width > 0
  {
    if n >= 0 then Padded(n, width) else "-" + Padded(-n, width - 1)
  }

  function DateText(d: Date): string
    requires IsDate(d)
  {
    SignedPadded(d.year, 4) + "-" + Padded(d.month, 2) + "-" + Padded(d.day, 2)
  }

  predicate FourDigitYear(d: Date) {
    0 <= d.year <= 9999
  }

  lemma ParseUnsignedFour(s: string, max: nat)
    requires |s| == 4 && ParseUnsigned(s, max).Some?
    ensures ParseUnsigned(s, max).value <= 9999
  {
    DigitsBound(if s[0] == '+' then s[1..] else s);
  }

  // No piece can hold a '-', so the year's i32 parse never sees a sign of its own.
  function ParseDate(s: string): (r: Option<Date>)
    ensures r.Some? ==> IsDate(r.value) && FourDigitYear(r.value)
  {
    var parts := Split(s, '-');
    if |parts| != 3 || |parts[0]| != 4 || |parts[1]| != 2 || |parts[2]| != 2 then None
    else
      assert ParseUnsigned(parts[0], 2147483647).Some? ==> ParseUnsigned(parts[0], 2147483647).value <= 9999 by {
        if ParseUnsigned(parts[0], 2147483647).Some? { ParseUnsignedFour(parts[0], 2147483647); }
      }
      match (ParseUnsigned(parts[0], 2147483647), ParseUnsigned(parts[1], 255), ParseUnsigned(parts[2], 255))
      case (Some(y), Some(m), Some(d)) => if IsDate(Date(y, m, d)) then Some(Date(y, m, d)) else None
      case _ => None
  }

  lemma SplitThree(y: string, m: string, t: string)
    requires '-' !in y && '-' !in m && '-' !in t
    ensures Split(y + "-" + m + "-" + t, '-') == [y, m, t]
  {
    assert y + "-" + m + "-" + t == y + ['-'] + (m + ['-'] + t);
    SplitCons(y, '-', m + ['-'] + t);
    SplitCons(m, '-', t);
    assert Split(t, '-') == [t];
  }

  lemma SplitMinus(s: string)
    ensures Split("-" + s, '-')[0] == ""
  {
    assert "-" + s == "" + ['-'] + s;
    SplitCons("", '-', s);
  }

  /** Printing and parsing are inverse exactly for the years 0 to 9999; any other year does not parse. */
  lemma DateRoundTrip(d: Date)
    requires IsDate(d)
    ensures ParseDate(DateText(d)) == if FourDigitYear(d) then Some(d) else None
  {
    hide Split, ParseUnsigned;
    var m, t := Padded(d.month, 2), Padded(d.day, 2);
    if d.year < 0 {
      assert DateText(d) == "-" + (Padded(-d.year, 3) + "-" + m + "-" + t);
      SplitMinus(Padded(-d.year, 3) + "-" + m + "-" + t);
    } else {
      var y := Padded(d.year, 4);
      assert DateText(d) == y + "-" + m + "-" + t;
      DigitsNoSpace(y);
      DigitsNoSpace(m);
      DigitsNoSpace(t);
      SplitThree(y, m, t);
      DecLength(d.year);
      DecLength(d.month);
      DecLength(d.day);
      ParseUnsignedPadded(d.year, 4, 2147483647);
      ParseUnsignedPadded(d.month, 2, 255);
      ParseUnsignedPadded(d.day, 2, 255);
    }
  }

  lemma DateTextNoSpace(d: Date)
    requires IsDate(d)
    ensures NoSpace(DateText(d))
  {
    DigitsNoSpace(Padded(if d.year >= 0 then d.year else -d.year, if d.year >= 0 then 4 else 3));
    DigitsNoSpace(Padded(d.month, 2));
    DigitsNoSpace(Padded(d.day, 2));
  }

  // ----- The clock

  /** What the counter takes from the clock: the UTC day and the second of that day. */
  datatype RawReading = Reading(today: Date, secs: nat)

  type Reading = r: RawReading | IsDate(r.today) && r.secs < DAY_SECS witness Reading(EPOCH, 0)

  /** A clock in nanoseconds since the epoch, whose year is an i32. */
  type Instant = nanos: int | MIN_DAY <= DayOf(nanos) <= MAX_DAY witness 0

  function ReadClock(now: Instant): Reading {
    CivilFromDaysOrdered(DayOf(now), DayOf(now));
    Reading(FromSystemTime(now), WholeSecs(now) % DAY_SECS)
  }

  /** Every reading with an i32 year is the reading of some instant. */
  lemma ReadClockOnto(r: Reading) returns (now: Instant)
    requires -TWO31 <= r.today.year < TWO31
    ensures ReadClock(now) == r
  {
    hide Civil, DaysFromCivil;
    CivilFromDaysOnto(r.today);
    var secs := DaysFromCivil(r.today) * DAY_SECS + r.secs;
    assert WholeSecs(secs * NANOS) == secs;
    assert secs / DAY_SECS == DaysFromCivil(r.today);
    now := secs * NANOS;
  }

  function TimeText(secs: nat): (s: string)
    ensures s != "" && NoSpace(s)
  {
    var (h, m, t) := (Padded(secs / 3600, 2), Padded(secs % 3600 / 60, 2), Padded(secs % 60, 2));
    DigitsNoSpace(h);
    DigitsNoSpace(m);
    DigitsNoSpace(t);
    h + ":" + m + ":" + t + "Z"
  }

  /** `utc_timestamp`. */
  function Stamp(now: Reading): string {
    DateText(now.today) + "T" + TimeText(now.secs)
  }

  // ----- Counts

  datatype Counts = Counts(
    meshRequests: nat, meshSessions: nat, meshIdentifiedRequests: nat,
    webRequests: nat, webNotFound: nat, clockBehind: nat)
  {
    /** The value written for `KEYS[i]`. */
    function Get(i: nat): nat
      requires i < 6
    {
      match i
      case 0 => meshRequests
      case 1 => meshSessions
      case 2 => meshIdentifiedRequests
      case 3 => webRequests
      case 4 => webNotFound
      case _ => clockBehind
    }

    function With(i: nat, v: nat): Counts
      requires i < 6
    {
      match i
      case 0 => this.(meshRequests := v)
      case 1 => this.(meshSessions := v)
      case 2 => this.(meshIdentifiedRequests := v)
      case 3 => this.(webRequests := v)
      case 4 => this.(webNotFound := v)
      case _ => this.(clockBehind := v)
    }

    predicate AtMost(c: Counts) {
      forall i :: 0 <= i < 6 ==> Get(i) <= c.Get(i)
    }

    /** Every total is a u64. */
    predicate Fits() {
      forall i :: 0 <= i < 6 ==> Get(i) <= U64_MAX
    }
  }

  const ZERO: Counts := Counts(0, 0, 0, 0, 0, 0)
  const U64_MAX: nat := 0xFFFF_FFFF_FFFF_FFFF

  const KEYS: seq<string> := [
    "mesh_requests", "mesh_sessions", "mesh_identified_requests",
    "web_requests", "web_not_found", "clock_behind"]

  // ----- Writing

  function KeyFields(c: Counts, i: nat): string
    requires i <= 6
    decreases 6 - i
  {
    if i == 6 then "" else " " + KEYS[i] + "=" + Dec(c.Get(i)) + KeyFields(c, i + 1)
  }

  function Body(d: Date, c: Counts, now: Reading): string
    requires IsDate(d)
  {
    " date=" + DateText(d) + " tz=UTC" + KeyFields(c, 0) + " written=" + Stamp(now) + "\n"
  }

  /** One record line, newline included. */
  function RecordText(d: Date, c: Counts, now: Reading): string
    requires IsDate(d)
  {
    "DAY" + Body(d, c, now)
  }

  method FormatRecord(d: Date, c: Counts, now: Reading) returns (line: string)
    requires IsDate(d)
    ensures line == RecordText(d, c, now)
  {
    hide KeyFields, DateText, Stamp, Dec, RecordText;
    RecordTextShape(d, c, now);
    var head := "DAY date=" + DateText(d) + " tz=UTC";
    line := head;
    var i := 0;
    while i < 6
      invariant 0 <= i <= 6
      invariant line + KeyFields(c, i) == head + KeyFields(c, 0)
    {
      KeyFieldsStep(line, c, i);
      line := line + (" " + KEYS[i] + "=" + Dec(c.Get(i)));
      i := i + 1;
    }
    assert KeyFields(c, 6) == "" by { KeyFieldsEnd(c); }
    line := line + " written=" + Stamp(now) + "\n";
  }

  lemma RecordTextShape(d: Date, c: Counts, now: Reading)
    requires IsDate(d)
    ensures RecordText(d, c, now) ==
            "DAY date=" + DateText(d) + " tz=UTC" + KeyFields(c, 0) + " written=" + Stamp(now) + "\n"
  {
    hide KeyFields, DateText, Stamp;
    assert "DAY" + " date=" == "DAY date=";
  }

  lemma KeyFieldsEnd(c: Counts)
    ensures KeyFields(c, 6) == ""
  {
  }

  lemma KeyFieldsStep(line: string, c: Counts, i: nat)
    requires i < 6
    ensures line + KeyFields(c, i) == line + (" " + KEYS[i] + "=" + Dec(c.Get(i))) + KeyFields(c, i + 1)
  {
  }

  // ----- Reading

  /** `assign`: an unknown key changes nothing, a known key with a bad value fails. */
  function Assign(c: Counts, key: string, value: string): Option<Counts> {
    if key !in KEYS then Some(c)
    else
      match ParseUnsigned(value, U64_MAX)
      case None => None
      case Some(v) => Some(c.With(KeyIndex(key), v))
  }

  function KeyIndex(key: string): (i: nat)
    requires key in KEYS
    ensures i < 6 && KEYS[i] == key
  {
    if key == KEYS[0] then 0 else if key == KEYS[1] then 1 else if key == KEYS[2] then 2
    else if key == KEYS[3] then 3 else if key == KEYS[4] then 4 else 5
  }

  datatype Partial = Partial(date: Option<Date>, counts: Counts)

  /** What one `key=value` field does to the record being read. */
  function ReadField(p: Partial, field: string): Option<Partial> {
    match SplitOnce(field, '=')
    case None => None
    case Some((key, value)) =>
      if key == "date" then
        match ParseDate(value)
        case None => None
        case Some(d) => Some(p.(date := Some(d)))
      else if key == "tz" || key == "written" then Some(p)
      else
        match Assign(p.counts, key, value)
        case None => None
        case Some(c) => Some(p.(counts := c))
  }

  function ReadFields(p: Partial, fields: seq<string>): Option<Partial>
    decreases fields
  {
    if fields == [] then Some(p)
    else
      match ReadField(p, fields[0])
      case None => None
      case Some(q) => ReadFields(q, fields[1..])
  }

  /** `parse_record`, as a function of the line. */
  function RecordOf(line: string): Option<(Date, Counts)> {
    var ts := Tokens(line);
    if ts == [] || ts[0] != "DAY" then None
    else
      match ReadFields(Partial(None, ZERO), ts[1..])
      case Some(Partial(Some(d), c)) => Some((d, c))
      case _ => None
  }

  method ParseRecord(line: string) returns (r: Option<(Date, Counts)>)
    ensures r == RecordOf(line)
  {
    var fields := Tokens(line);
    if fields == [] || fields[0] != "DAY" {
      return None;
    }
    var date, counts := None, ZERO;
    var i := 1;
    while i < |fields|
      invariant 1 <= i <= |fields|
      invariant ReadFields(Partial(None, ZERO), fields[1..]) == ReadFields(Partial(date, counts), fields[i..])
    {
      match SplitOnce(fields[i], '=') {
        case None => return None;
        case Some((key, value)) =>
          if key == "date" {
            match ParseDate(value) {
              case None => return None;
              case Some(d) => date := Some(d);
            }
          } else if key != "tz" && key != "written" {
            match Assign(counts, key, value) {
              case None => return None;
              case Some(c) => counts := c;
            }
          }
      }
      assert fields[i..][1..] == fields[i + 1..];
      i := i + 1;
    }
    match date {
      case None => r := None;
      case Some(d) => r := Some((d, counts));
    }
  }

  // ----- The text, character by character

  /** The totals of a line: every key by its name, in its place, with its own total. */
  lemma KeyFieldsAre(c: Counts)
    ensures KeyFields(c, 0) ==
            " mesh_requests=" + Dec(c.meshRequests) + (" mesh_sessions=" + Dec(c.meshSessions)
            + (" mesh_identified_requests=" + Dec(c.meshIdentifiedRequests)
            + (" web_requests=" + Dec(c.webRequests) + (" web_not_found=" + Dec(c.webNotFound)
            + (" clock_behind=" + Dec(c.clockBehind))))))
  {
    hide Dec, KeyFields, KEYS;
    MeshKeys();
    WebKeys();
    KeyFieldIs(c, 0, " mesh_requests=");
    KeyFieldIs(c, 1, " mesh_sessions=");
    KeyFieldIs(c, 2, " mesh_identified_requests=");
    KeyFieldIs(c, 3, " web_requests=");
    KeyFieldIs(c, 4, " web_not_found=");
    KeyFieldIs(c, 5, " clock_behind=");
    KeyFieldsEnd(c);
    assert " clock_behind=" + Dec(c.clockBehind) + "" == " clock_behind=" + Dec(c.clockBehind);
  }

  lemma MeshKeys()
    ensures |KEYS| == 6
    ensures " " + KEYS[0] + "=" == " mesh_requests="
    ensures " " + KEYS[1] + "=" == " mesh_sessions="
    ensures " " + KEYS[2] + "=" == " mesh_identified_requests="
  {
  }

  lemma WebKeys()
    ensures |KEYS| == 6
    ensures " " + KEYS[3] + "=" == " web_requests="
    ensures " " + KEYS[4] + "=" == " web_not_found="
    ensures " " + KEYS[5] + "=" == " clock_behind="
  {
  }

  lemma KeyFieldIs(c: Counts, i: nat, key: string)
    requires i < 6 && key == " " + KEYS[i] + "="
    ensures KeyFields(c, i) == key + Dec(c.Get(i)) + KeyFields(c, i + 1)
  {
    hide Dec;
  }

  /** Four digits of year, two of month, two of day. */
  lemma DateTextIs(d: Date)
    requires IsDate(d) && FourDigitYear(d)
    ensures var t := DateText(d);
            && |t| == 10 && t[4] == '-' && t[7] == '-'
            && AllDigits(t[..4]) && DigitsValue(t[..4]) == d.year
            && AllDigits(t[5..7]) && DigitsValue(t[5..7]) == d.month
            && AllDigits(t[8..]) && DigitsValue(t[8..]) == d.day
  {
    hide DigitsValue, AllDigits, Padded;
    var (y, m, n) := (Padded(d.year, 4), Padded(d.month, 2), Padded(d.day, 2));
    DecLength(d.year);
    DecLength(d.month);
    DecLength(d.day);
    PaddedValue(d.year, 4);
    PaddedValue(d.month, 2);
    PaddedValue(d.day, 2);
    var t := DateText(d);
    assert t == y + "-" + m + "-" + n && t[..4] == y && t[5..7] == m && t[8..] == n;
  }

  /** Hours, minutes and seconds that make up the second of the day. */
  lemma TimeTextIs(secs: nat)
    requires secs < 86400
    ensures var t := TimeText(secs);
            && |t| == 9 && t[2] == ':' && t[5] == ':' && t[8] == 'Z'
            && AllDigits(t[..2]) && AllDigits(t[3..5]) && AllDigits(t[6..8])
            && DigitsValue(t[3..5]) < 60 && DigitsValue(t[6..8]) < 60
            && DigitsValue(t[..2]) * 3600 + DigitsValue(t[3..5]) * 60 + DigitsValue(t[6..8]) == secs
  {
    hide DigitsValue, AllDigits, Padded;
    var (h, m, n) := (secs / 3600, secs % 3600 / 60, secs % 60);
    assert h * 3600 + m * 60 + n == secs && h < 24 && m < 60;
    DecLength(h);
    DecLength(m);
    DecLength(n);
    PaddedValue(h, 2);
    PaddedValue(m, 2);
    PaddedValue(n, 2);
    var t := TimeText(secs);
    assert t[..2] == Padded(h, 2) && t[3..5] == Padded(m, 2) && t[6..8] == Padded(n, 2);
  }
}
