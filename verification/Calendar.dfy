/** Calendar dates: the closed-form conversion from a day count, and the
    day-by-day calendar it has to agree with. */
module Calendar {

  /** A calendar date; `derive(Ord)` orders it by (year, month, day). */
  datatype Date = Date(year: int, month: int, day: int)

  predicate Before(a: Date, b: Date) {
    || a.year < b.year
    || (a.year == b.year && a.month < b.month)
    || (a.year == b.year && a.month == b.month && a.day < b.day)
  }

  predicate AtMost(a: Date, b: Date) {
    a == b || Before(a, b)
  }

  // `year % 4 == 0` is the same test for Rust's truncating and Dafny's Euclidean remainder.
  predicate IsLeap(year: int) {
    (year % 4 == 0 && year % 100 != 0) || year % 400 == 0
  }

  function DaysInMonth(year: int, month: int): int {
    if month in {1, 3, 5, 7, 8, 10, 12} then 31
    else if month in {4, 6, 9, 11} then 30
    else if month == 2 then (if IsLeap(year) then 29 else 28)
    else 0
  }

  predicate IsDate(d: Date) {
    1 <= d.month <= 12 && 1 <= d.day <= DaysInMonth(d.year, d.month)
  }

  // ----- The code

  /** Division that truncates toward zero, as Rust's `/` does. */
  function TruncDiv(a: int, b: int): int
    requires b > 0
  {
    if a >= 0 then a / b else -((-a) / b)
  }

  function Era(z: int): int {
    TruncDiv(if z >= 0 then z else z - 146096, 146097)
  }

  function YearOfEra(doe: int): int {
    (doe - doe / 1460 + doe / 36524 - doe / 146096) / 365
  }

  /** First day, within its era, of March-based year `yoe`. */
  function YearStart(yoe: int): int {
    365 * yoe + yoe / 4 - yoe / 100
  }

  /** First day, within its March-based year, of March-based month `mp`. */
  function MonthStart(mp: int): int {
    (153 * mp + 2) / 5
  }

  function MonthIndex(doy: int): int {
    (5 * doy + 2) / 153
  }

  /** `civil_from_days` before its final `as i32` on the year. */
  function Civil(days: int): Date {
    var z := days + 719468;
    var era := Era(z);
    var doe := z - era * 146097;
    var yoe := YearOfEra(doe);
    var doy := doe - YearStart(yoe);
    var mp := MonthIndex(doy);
    var day := doy - MonthStart(mp) + 1;
    var month := if mp < 10 then mp + 3 else mp - 9;
    Date(yoe + era * 400 + (if month <= 2 then 1 else 0), month, day)
  }

  const TWO31: int := 0x8000_0000
  const TWO32: int := 0x1_0000_0000

  /** The `as i32` cast. */
  function WrapI32(n: int): (r: int)
    ensures -TWO31 <= r < TWO31 && (n - r) % TWO32 == 0
  {
    (n + TWO31) % TWO32 - TWO31
  }

  function CivilFromDays(days: int): Date {
    var d := Civil(days);
    d.(year := WrapI32(d.year))
  }

  // ----- The calendar, one day at a time

  function NextDay(d: Date): Date {
    if d.day < DaysInMonth(d.year, d.month) then d.(day := d.day + 1)
    else if d.month < 12 then Date(d.year, d.month + 1, 1)
    else Date(d.year + 1, 1, 1)
  }

  function PrevDay(d: Date): Date {
    if d.day > 1 then d.(day := d.day - 1)
    else if d.month > 1 then Date(d.year, d.month - 1, DaysInMonth(d.year, d.month - 1))
    else Date(d.year - 1, 12, 31)
  }

  const EPOCH: Date := Date(1970, 1, 1)

  /** The date reached by stepping `n` days from 1970-01-01, back when `n` is negative. */
  function Stepped(n: int): Date
    decreases if n < 0 then -n else n
  {
    if n == 0 then EPOCH
    else if n > 0 then NextDay(Stepped(n - 1))
    else PrevDay(Stepped(n + 1))
  }

  // ----- Proof

  lemma EraBounds(z: int)
    ensures 0 <= z - Era(z) * 146097 < 146097
  {
  }

  // A day of the era in mixed radix: century, four-year cycle, day of the cycle.
  lemma CycleYear(century: int, cycle: int, s: int)
    requires 0 <= century <= 3 && 0 <= cycle <= 24 && 0 <= s <= 1460
    requires century < 3 && cycle == 24 ==> s < 1460
    ensures var doe := 36524 * century + 1461 * cycle + s;
            var t := if s / 365 < 4 then s / 365 else 3;
            && (doe < 146096 ==> YearOfEra(doe) == 100 * century + 4 * cycle + t)
            && YearStart(100 * century + 4 * cycle + t) == 36524 * century + 1461 * cycle + 365 * t
  {
    var doe := 36524 * century + 1461 * cycle + s;
    var t := if s / 365 < 4 then s / 365 else 3;
    var carry := if 24 * century + cycle + s >= 1460 then 1 else 0;
    assert doe == 1460 * (25 * century + cycle + carry) + (24 * century + cycle + s - 1460 * carry);
    assert doe / 1460 == 25 * century + cycle + carry;
    var yoe := 100 * century + 4 * cycle + t;
    assert yoe / 4 == 25 * century + cycle;
    assert yoe / 100 == century;
    if doe < 146096 {
      assert doe / 36524 == century;
      assert doe - doe / 1460 + doe / 36524 == 365 * (100 * century + 4 * cycle) + (s - carry);
      assert (s - carry) / 365 == t;
    }
  }

  /** First day of the March-based year after `yoe`; the era ends a day later than the formula. */
  function YearEnd(yoe: int): int {
    if yoe < 399 then YearStart(yoe + 1) else 146097
  }

  // The leap day closes a March-based year, so it belongs to the following January's year.
  lemma YearLength(yoe: int)
    requires 0 <= yoe <= 399
    ensures YearEnd(yoe) - YearStart(yoe) == (if IsLeap(yoe + 1) then 366 else 365)
  {
  }

  lemma CycleLeap(century: int, cycle: int, t: int)
    requires 0 <= century <= 3 && 0 <= cycle <= 24 && 0 <= t <= 3
    ensures IsLeap(100 * century + 4 * cycle + t + 1) <==> t == 3 && (cycle < 24 || century == 3)
  {
    var y := 100 * century + 4 * cycle + t + 1;
    assert y % 4 == (t + 1) % 4;
    assert y % 100 == (4 * cycle + t + 1) % 100;
  }

  /** The closed form finds the year of the era whose days bracket the day. */
  lemma YearBounds(doe: int)
    requires 0 <= doe < 146097
    ensures 0 <= YearOfEra(doe) <= 399
    ensures YearStart(YearOfEra(doe)) <= doe < YearEnd(YearOfEra(doe))
  {
    if doe < 146096 {
      var century, r := doe / 36524, doe % 36524;
      var cycle, s := r / 1461, r % 1461;
      var t := if s / 365 < 4 then s / 365 else 3;
      CycleYear(century, cycle, s);
      CycleBracket(century, cycle, s, t);
    }
  }

  lemma CycleBracket(century: int, cycle: int, s: int, t: int)
    requires 0 <= century <= 3 && 0 <= cycle <= 24 && 0 <= s <= 1460
    requires century < 3 && cycle == 24 ==> s < 1460
    requires t == if s / 365 < 4 then s / 365 else 3
    ensures 36524 * century + 1461 * cycle + s < YearEnd(100 * century + 4 * cycle + t)
  {
    CycleYear(century, cycle, s);
    YearLength(100 * century + 4 * cycle + t);
    CycleLeap(century, cycle, t);
  }

  lemma MonthBounds(doy: int)
    requires 0 <= doy <= 365
    ensures 0 <= MonthIndex(doy) <= 11
    ensures MonthStart(MonthIndex(doy)) <= doy < MonthStart(MonthIndex(doy) + 1)
  {
  }

  lemma YearUnique(y: int, doe: int)
    requires 0 <= y <= 399 && YearStart(y) <= doe < YearEnd(y)
    ensures 0 <= doe < 146097 && YearOfEra(doe) == y
  {
    YearBounds(doe);
    YearStartMonotone(y, YearOfEra(doe));
    YearStartMonotone(YearOfEra(doe), y);
  }

  lemma YearStartMonotone(a: int, b: int)
    requires 0 <= a <= 399 && 0 <= b <= 399
    ensures a < b ==> YearEnd(a) <= YearStart(b)
  {
    if a < b {
      assert (a + 1) / 4 <= b / 4 && (a + 1) / 100 - b / 100 >= -((b - a - 1) / 100 + 1);
    }
  }

  /** The date of day `doy` of March-based year `yoe` of an era. */
  function FromParts(era: int, yoe: int, doy: int): Date {
    var mp := MonthIndex(doy);
    var month := if mp < 10 then mp + 3 else mp - 9;
    Date(yoe + era * 400 + (if month <= 2 then 1 else 0), month, doy - MonthStart(mp) + 1)
  }

  function DaysOf(era: int, yoe: int, doy: int): int {
    era * 146097 + YearStart(yoe) + doy - 719468
  }

  predicate IsPart(yoe: int, doy: int) {
    0 <= yoe <= 399 && 0 <= doy < YearEnd(yoe) - YearStart(yoe)
  }

  lemma CivilOfParts(era: int, yoe: int, doy: int)
    requires IsPart(yoe, doy)
    ensures Civil(DaysOf(era, yoe, doy)) == FromParts(era, yoe, doy)
  {
    hide Era, YearOfEra, YearStart, YearEnd, MonthIndex, MonthStart;
    var doe := YearStart(yoe) + doy;
    YearUnique(yoe, doe);
    EraUnique(era, doe);
    assert DaysOf(era, yoe, doy) + 719468 == era * 146097 + doe;
  }

  lemma EraUnique(era: int, doe: int)
    requires 0 <= doe < 146097
    ensures Era(era * 146097 + doe) == era
  {
    EraBounds(era * 146097 + doe);
  }

  lemma PartsOf(days: int) returns (era: int, yoe: int, doy: int)
    ensures IsPart(yoe, doy) && days == DaysOf(era, yoe, doy)
  {
    var z := days + 719468;
    era := Era(z);
    EraBounds(z);
    var doe := z - era * 146097;
    YearBounds(doe);
    yoe := YearOfEra(doe);
    doy := doe - YearStart(yoe);
  }

  // Month lengths of the March-based table agree with `DaysInMonth`; only February needs the year.
  lemma MonthTable(mp: int)
    requires 0 <= mp <= 10
    ensures MonthStart(mp + 1) - MonthStart(mp) == DaysInMonth(0, if mp < 10 then mp + 3 else mp - 9)
  {
  }

  lemma ModShift(a: int, k: int, m: int)
    requires m == 4 || m == 100 || m == 400
    ensures (a + m * k) % m == a % m
  {
    assert a + m * k == m * (a / m + k) + a % m;
  }

  lemma LeapPeriod(yoe: int, era: int)
    ensures IsLeap(yoe + era * 400) == IsLeap(yoe)
  {
    ModShift(yoe, 100 * era, 4);
    ModShift(yoe, 4 * era, 100);
    ModShift(yoe, era, 400);
  }

  lemma PartsValid(era: int, yoe: int, doy: int)
    requires IsPart(yoe, doy)
    ensures IsDate(FromParts(era, yoe, doy))
    ensures var d := FromParts(era, yoe, doy);
            d.day < DaysInMonth(d.year, d.month) <==> IsPart(yoe, doy + 1) && MonthIndex(doy + 1) == MonthIndex(doy)
  {
    YearLength(yoe);
    MonthBounds(doy);
    LeapPeriod(yoe + 1, era);
    var mp := MonthIndex(doy);
    if mp <= 10 {
      MonthTable(mp);
    }
  }

  function FollowingPart(era: int, yoe: int, doy: int): (int, int, int) {
    if IsPart(yoe, doy + 1) then (era, yoe, doy + 1)
    else if yoe < 399 then (era, yoe + 1, 0)
    else (era + 1, 0, 0)
  }

  lemma MonthStep(doy: int)
    requires 0 <= doy < 365
    ensures var mp := MonthIndex(doy);
            MonthIndex(doy + 1) == (if doy + 1 < MonthStart(mp + 1) then mp else mp + 1)
  {
    MonthBounds(doy);
    MonthBounds(doy + 1);
  }

  lemma PartsStep(era: int, yoe: int, doy: int)
    requires IsPart(yoe, doy)
    ensures var (e, y, d) := FollowingPart(era, yoe, doy);
            IsPart(y, d) && FromParts(e, y, d) == NextDay(FromParts(era, yoe, doy))
  {
    PartsValid(era, yoe, doy);
    YearLength(yoe);
    MonthBounds(doy);
    if IsPart(yoe, doy + 1) {
      MonthStep(doy);
    }
  }

  lemma FollowingDays(era: int, yoe: int, doy: int)
    requires IsPart(yoe, doy)
    ensures var (e, y, d) := FollowingPart(era, yoe, doy);
            DaysOf(e, y, d) == DaysOf(era, yoe, doy) + 1
  {
  }

  /** The closed form always yields a date that exists, and one day later it yields the next one. */
  lemma CivilStep(days: int)
    ensures IsDate(Civil(days))
    ensures Civil(days + 1) == NextDay(Civil(days))
  {
    hide *;
    var era, yoe, doy := PartsOf(days);
    CivilOfParts(era, yoe, doy);
    PartsValid(era, yoe, doy);
    PartsStep(era, yoe, doy);
    FollowingDays(era, yoe, doy);
    var (e, y, d) := FollowingPart(era, yoe, doy);
    CivilOfParts(e, y, d);
  }

  lemma PrevOfNext(d: Date)
    requires IsDate(d)
    ensures IsDate(NextDay(d)) && PrevDay(NextDay(d)) == d && Before(d, NextDay(d))
  {
  }

  /** Every day number: the closed form is the calendar walked day by day. */
  lemma {:induction false} CivilIsStepped(days: int)
    ensures Civil(days) == Stepped(days)
    decreases if days < 0 then -days else days
  {
    hide Civil, NextDay, PrevDay;
    EpochIsDayZero();
    if days > 0 {
      CivilIsStepped(days - 1);
      CivilStepOnly(days - 1);
    } else if days < 0 {
      CivilIsStepped(days + 1);
      CivilStepOnly(days);
    }
  }

  lemma EpochIsDayZero()
    ensures Civil(0) == EPOCH
  {
  }

  lemma CivilStepOnly(days: int)
    ensures Civil(days + 1) == NextDay(Civil(days)) && PrevDay(Civil(days + 1)) == Civil(days)
    ensures Before(Civil(days), Civil(days + 1))
  {
    hide *;
    CivilStep(days);
    PrevOfNext(Civil(days));
  }

  lemma {:induction false} CivilMonotone(a: int, b: int)
    requires a < b
    ensures Before(Civil(a), Civil(b))
    decreases b - a
  {
    hide Civil;
    CivilStepOnly(b - 1);
    if a < b - 1 {
      CivilMonotone(a, b - 1);
    }
  }

  // ----- Onto: every date that exists is the date of some day

  /** The day number of a date, by the same March-based layout. */
  function DaysFromCivil(d: Date): int {
    var y := if d.month <= 2 then d.year - 1 else d.year;
    var mp := if d.month > 2 then d.month - 3 else d.month + 9;
    DaysOf(y / 400, y % 400, MonthStart(mp) + d.day - 1)
  }

  lemma CivilOfDays(d: Date)
    requires IsDate(d)
    ensures Civil(DaysFromCivil(d)) == d
  {
    hide Civil, FromParts, IsPart;
    var y := if d.month <= 2 then d.year - 1 else d.year;
    var mp := if d.month > 2 then d.month - 3 else d.month + 9;
    var era, yoe := y / 400, y % 400;
    var doy := MonthStart(mp) + d.day - 1;
    PartOfDate(d);
    CivilOfPartsHidden(era, yoe, doy, DaysFromCivil(d));
  }

  lemma CivilOfPartsHidden(era: int, yoe: int, doy: int, days: int)
    requires IsPart(yoe, doy) && days == DaysOf(era, yoe, doy)
    ensures Civil(days) == FromParts(era, yoe, doy)
  {
    hide *;
    CivilOfParts(era, yoe, doy);
  }

  lemma PartOfDate(d: Date)
    requires IsDate(d)
    ensures var y := if d.month <= 2 then d.year - 1 else d.year;
            var mp := if d.month > 2 then d.month - 3 else d.month + 9;
            var doy := MonthStart(mp) + d.day - 1;
            IsPart(y % 400, doy) && FromParts(y / 400, y % 400, doy) == d
  {
    var y := if d.month <= 2 then d.year - 1 else d.year;
    var mp := if d.month > 2 then d.month - 3 else d.month + 9;
    var era, yoe := y / 400, y % 400;
    DateFitsMonth(d, era, yoe, mp);
    MonthOf(mp, d.day - 1);
    YearLength(yoe);
  }

  lemma DateFitsMonth(d: Date, era: int, yoe: int, mp: int)
    requires IsDate(d) && mp == if d.month > 2 then d.month - 3 else d.month + 9
    requires d.year == yoe + era * 400 + (if d.month <= 2 then 1 else 0)
    ensures mp <= 10 ==> d.day <= MonthStart(mp + 1) - MonthStart(mp)
    ensures mp == 11 ==> d.day <= (if IsLeap(yoe + 1) then 29 else 28)
  {
    if mp <= 10 {
      MonthTable(mp);
    } else {
      LeapPeriod(yoe + 1, era);
    }
  }

  lemma MonthOf(mp: int, k: int)
    requires 0 <= mp <= 11 && 0 <= k < (if mp <= 10 then MonthStart(mp + 1) - MonthStart(mp) else 29)
    ensures 0 <= MonthStart(mp) + k <= 365 && MonthIndex(MonthStart(mp) + k) == mp
  {
  }

  // ----- The year as an i32

  /** -2147483648-01-01 and 2147483647-12-31, as day numbers. */
  const MIN_DAY: int := -784353015833
  const MAX_DAY: int := 784351576776

  lemma FirstDay()
    ensures Civil(MIN_DAY) == Date(-TWO31, 1, 1)
  {
    hide Civil;
    var d := Date(-TWO31, 1, 1);
    assert DaysFromCivil(d) == MIN_DAY;
    hide DaysFromCivil;
    CivilOfDays(d);
  }

  lemma LastDay()
    ensures Civil(MAX_DAY) == Date(TWO31 - 1, 12, 31)
  {
    hide Civil;
    var d := Date(TWO31 - 1, 12, 31);
    assert DaysFromCivil(d) == MAX_DAY;
    hide DaysFromCivil;
    CivilOfDays(d);
  }

  lemma YearInRange(days: int)
    ensures -TWO31 <= Civil(days).year < TWO31 <==> MIN_DAY <= days <= MAX_DAY
  {
    hide Civil;
    FirstDay();
    LastDay();
    CivilStep(days);
    if days < MIN_DAY {
      CivilMonotone(days, MIN_DAY);
    } else if MIN_DAY < days {
      CivilMonotone(MIN_DAY, days);
    }
    if days < MAX_DAY {
      CivilMonotone(days, MAX_DAY);
    } else if MAX_DAY < days {
      CivilMonotone(MAX_DAY, days);
    }
  }

  /** `civil_from_days` is the calendar walked day by day, exactly on the days whose year is an i32. */
  lemma CivilFromDaysIsCalendar(days: int)
    ensures CivilFromDays(days) == Stepped(days) <==> MIN_DAY <= days <= MAX_DAY
  {
    hide Civil;
    CivilIsStepped(days);
    YearInRange(days);
  }

  /** On those days it yields only dates that exist, and is strictly increasing. */
  lemma CivilFromDaysOrdered(a: int, b: int)
    requires MIN_DAY <= a <= MAX_DAY && MIN_DAY <= b <= MAX_DAY
    ensures IsDate(CivilFromDays(a))
    ensures a < b <==> Before(CivilFromDays(a), CivilFromDays(b))
    ensures a == b <==> CivilFromDays(a) == CivilFromDays(b)
  {
    hide Civil;
    YearInRange(a);
    YearInRange(b);
    CivilStep(a);
    if a < b {
      CivilMonotone(a, b);
    } else if b < a {
      CivilMonotone(b, a);
    }
  }

  /** ... and reaches every date that exists and whose year is an i32. */
  lemma CivilFromDaysOnto(d: Date)
    requires IsDate(d) && -TWO31 <= d.year < TWO31
    ensures MIN_DAY <= DaysFromCivil(d) <= MAX_DAY && CivilFromDays(DaysFromCivil(d)) == d
  {
    hide Civil;
    CivilOfDays(d);
    YearInRange(DaysFromCivil(d));
  }

  // ----- SystemTime

  const NANOS: int := 1_000_000_000
  const DAY_SECS: int := 86_400

  /** Whole seconds since the epoch as the code takes them: truncated toward zero on both sides. */
  function WholeSecs(nanos: int): int {
    TruncDiv(nanos, NANOS)
  }

  function DayOf(nanos: int): int {
    WholeSecs(nanos) / DAY_SECS
  }

  function FromSystemTime(nanos: int): Date {
    CivilFromDays(DayOf(nanos))
  }

  /** `DayOf` is the UTC day, except in the fraction of a second that ends a day before 1970. */
  lemma DayOfIsUtcDay(nanos: int)
    ensures DayOf(nanos) == nanos / (DAY_SECS * NANOS)
            <==> !(nanos < 0 && nanos % NANOS != 0 && WholeSecs(nanos) % DAY_SECS == 0)
  {
    var secs := WholeSecs(nanos);
    var floor := nanos / NANOS;
    assert floor == secs || (nanos < 0 && nanos % NANOS != 0 && floor == secs - 1);
    assert nanos / (DAY_SECS * NANOS) == floor / DAY_SECS by {
      assert nanos == NANOS * floor + nanos % NANOS;
      assert floor == DAY_SECS * (floor / DAY_SECS) + floor % DAY_SECS;
    }
  }

  /** Half a second before 1969-12-31: the code says 1969-12-31, the UTC day is 1969-12-30. */
  lemma DayOfBeforeEpochExample()
    ensures var nanos := -DAY_SECS * NANOS - 500_000_000;
            FromSystemTime(nanos) == Date(1969, 12, 31)
            && CivilFromDays(nanos / (DAY_SECS * NANOS)) == Date(1969, 12, 30)
  {
    hide Civil;
    CivilOfDays(Date(1969, 12, 31));
    CivilOfDays(Date(1969, 12, 30));
  }
}
