/** Timestamps of the observability sink: days since 1970-01-01 as a proleptic Gregorian date. */
module Civil {
  import opened Arith

  /** Division as the source's signed integers do it: towards zero. */
  function TruncDiv(a: int, b: int): int
    requires 0 < b
  {
    if 0 <= a then a / b else -(-a / b)
  }

  datatype Date = Date(year: int, month: int, day: int)

  // ---- The conversion, as the source computes it ----

  const ERA: nat := 146_097

  function EraOf(z: int): int {
    TruncDiv(if 0 <= z then z else z - 146_096, ERA)
  }

  function YearOfEra(doe: nat): int {
    (doe - doe / 1460 + doe / 36524 - doe / 146_096) / 365
  }

  /** Day of the March-based year on which year `y` of an era starts. */
  function YearStart(y: int): int {
    365 * y + y / 4 - y / 100
  }

  function MonthDay(doy: nat): (int, int) {
    var mp := (5 * doy + 2) / 153;
    (if mp < 10 then mp + 3 else mp - 9, doy - (153 * mp + 2) / 5 + 1)
  }

  function CivilFromDays(days: int): (r: Date)
    ensures Valid(r)
  {
    var z := days + 719_468;
    var era := EraOf(z);
    EraIsFloor(z);
    FromEraDay(era, z - era * ERA)
  }

  function FromEraDay(era: int, doe: nat): (r: Date)
    requires doe < ERA
    ensures Valid(r)
  {
    var yoe := YearOfEra(doe);
    YearOfEraLands(doe);
    var doy := doe - YearStart(yoe);
    MonthDayInYear(yoe, era, doy);
    EraDate(era, yoe, doy)
  }

  function EraDate(era: int, yoe: int, doy: nat): Date {
    var (m, d) := MonthDay(doy);
    Date(yoe + era * 400 + (if m <= 2 then 1 else 0), m, d)
  }

  // ---- The calendar it has to agree with ----

  predicate Leap(y: int) {
    y % 4 == 0 && (y % 100 != 0 || y % 400 == 0)
  }

  function DaysInMonth(y: int, m: int): int {
    if m == 2 then (if Leap(y) then 29 else 28)
    else if m == 4 || m == 6 || m == 9 || m == 11 then 30
    else 31
  }

  predicate Valid(d: Date) {
    1 <= d.month <= 12 && 1 <= d.day <= DaysInMonth(d.year, d.month)
  }

  function Successor(d: Date): Date {
    if d.day < DaysInMonth(d.year, d.month) then Date(d.year, d.month, d.day + 1)
    else if d.month < 12 then Date(d.year, d.month + 1, 1)
    else Date(d.year + 1, 1, 1)
  }

  predicate Before(a: Date, b: Date) {
    a.year < b.year || (a.year == b.year && (a.month < b.month || (a.month == b.month && a.day < b.day)))
  }

  // ---- Proof ----

  lemma EraIsFloor(z: int)
    ensures 0 <= z - EraOf(z) * ERA < ERA
  {
  }

  /** Length of the March-based year `y` of an era: it ends with the February of year y + 1. */
  function YearLength(y: int): int {
    if Leap(y + 1) then 366 else 365
  }

  /** Day `d` of year 100c + 4q + y of an era, counted in centuries, four-year cycles and years. */
  function EraDay(c: int, q: int, y: int, d: int): int {
    36524 * c + 1461 * q + 365 * y + d
  }

  predicate EraDayParts(c: int, q: int, y: int, d: int) {
    && 0 <= c <= 3 && 0 <= q <= 24 && 0 <= y <= 3
    && 0 <= d < (if y == 3 && (q < 24 || c == 3) then 366 else 365)
  }

  lemma EraCenturies(c: int, q: int, y: int, d: int)
    requires EraDayParts(c, q, y, d)
    ensures var doe := EraDay(c, q, y, d); 0 <= doe < ERA && doe / 36524 - doe / 146_096 == c
  {
    var doe := EraDay(c, q, y, d);
    var last := if doe == 146_096 then 1 else 0;
    DivModUnique(doe, 36524, c + last, doe - 36524 * (c + last));
    DivModUnique(doe, 146_096, last, doe - 146_096 * last);
  }

  /** The source's closed form reads the year back out of the day of the era. */
  lemma YearOfEraDay(c: int, q: int, y: int, d: int)
    requires EraDayParts(c, q, y, d)
    ensures 0 <= EraDay(c, q, y, d) < ERA
    ensures YearOfEra(EraDay(c, q, y, d)) == 100 * c + 4 * q + y
  {
    var doe := EraDay(c, q, y, d);
    var rest := 24 * c + q + 365 * y + d;
    var e := if rest < 1460 then 0 else 1;
    DivModUnique(doe, 1460, 25 * c + q + e, rest - 1460 * e);
    EraCenturies(c, q, y, d);
    var n := 100 * c + 4 * q + y;
    assert doe - doe / 1460 + doe / 36524 - doe / 146_096 == 365 * n + (d - e);
    DivModUnique(365 * n + (d - e), 365, n, d - e);
  }

  lemma YearStartOfParts(c: int, q: int, y: int)
    requires 0 <= c <= 3 && 0 <= q <= 24 && 0 <= y <= 3
    ensures YearStart(100 * c + 4 * q + y) == EraDay(c, q, y, 0)
    ensures YearLength(100 * c + 4 * q + y) == if y == 3 && (q < 24 || c == 3) then 366 else 365
  {
    var n := 100 * c + 4 * q + y;
    assert n / 4 == 25 * c + q;
    assert n / 100 == c;
    assert (n + 1) % 4 == (y + 1) % 4;
    assert (n + 1) % 100 == if 4 * q + y == 99 then 0 else 4 * q + y + 1;
    assert (n + 1) % 400 == if n == 399 then 0 else n + 1;
  }

  lemma EraDayDecomposes(doe: nat) returns (c: int, q: int, y: int, d: int)
    requires doe < ERA
    ensures EraDayParts(c, q, y, d) && doe == EraDay(c, q, y, d)
  {
    c := if doe / 36524 <= 3 then doe / 36524 else 3;
    var r := doe - 36524 * c;
    assert 0 <= r < (if c == 3 then 36525 else 36524);
    q := if r / 1461 <= 24 then r / 1461 else 24;
    var s := r - 1461 * q;
    assert 0 <= s < (if q == 24 && c != 3 then 1460 else 1461);
    y := if s / 365 <= 3 then s / 365 else 3;
    d := s - 365 * y;
  }

  lemma YearOfEraLands(doe: nat)
    requires doe < ERA
    ensures 0 <= YearOfEra(doe) < 400
    ensures 0 <= doe - YearStart(YearOfEra(doe)) < YearLength(YearOfEra(doe))
  {
    hide YearOfEra, YearStart, YearLength;
    var c, q, y, d := EraDayDecomposes(doe);
    YearOfEraDay(c, q, y, d);
    YearStartOfParts(c, q, y);
  }

  lemma YearStartSteps(y: int)
    requires 0 <= y < 400
    ensures y < 399 ==> YearStart(y + 1) == YearStart(y) + YearLength(y)
    ensures y == 399 ==> YearStart(y) + YearLength(y) == ERA
  {
    hide YearStart, YearLength;
    var c, q, r := y / 100, y % 100 / 4, y % 100 % 4;
    assert y == 100 * c + 4 * q + r;
    YearStartOfParts(c, q, r);
    if r < 3 {
      YearStartOfParts(c, q, r + 1);
    } else if q < 24 {
      YearStartOfParts(c, q + 1, 0);
    } else if c < 3 {
      YearStartOfParts(c + 1, 0, 0);
    }
  }

  /** The year that holds a day of the era is unique. */
  lemma YearUnique(doe: nat, y: int)
    requires doe < ERA && 0 <= y < 400
    requires 0 <= doe - YearStart(y) < YearLength(y)
    ensures YearOfEra(doe) == y
  {
    YearOfEraLands(doe);
    var x := YearOfEra(doe);
    YearStartSteps(x);
    YearStartSteps(y);
    YearStartMonotone(x + 1, y);
    YearStartMonotone(y + 1, x);
  }

  lemma YearStartMonotone(a: int, b: int)
    ensures a <= b ==> YearStart(a) <= YearStart(b)
  {
  }

  lemma LeapPeriodic(y: int, era: int)
    ensures Leap(y + era * 400) == Leap(y)
  {
    ModPeriodic(y, era * 100, 4);
    ModPeriodic(y, era * 4, 100);
    ModPeriodic(y, era, 400);
  }

  lemma MonthDayInYear(yoe: int, era: int, doy: int)
    requires 0 <= doy < YearLength(yoe)
    ensures Valid(EraDate(era, yoe, doy))
  {
    LeapPeriodic(yoe, era);
    LeapPeriodic(yoe + 1, era);
    assert yoe + era * 400 + 1 == (yoe + 1) + era * 400;
  }

  lemma EraOfDay(era: int, doe: int)
    requires 0 <= doe < ERA
    ensures EraOf(era * ERA + doe) == era
  {
    var z := era * ERA + doe;
    if 0 <= z {
      DivModUnique(z, ERA, era, doe);
    } else {
      DivModUnique(146_096 - z, ERA, -era, 146_096 - doe);
    }
  }

  lemma CivilAt(era: int, doe: nat)
    requires doe < ERA
    ensures CivilFromDays(era * ERA + doe - 719_468) == FromEraDay(era, doe)
  {
    EraOfDay(era, doe);
  }

  lemma EraDayBound(yoe: int, doy: int)
    requires 0 <= yoe < 400 && 0 <= doy < YearLength(yoe)
    ensures 0 <= YearStart(yoe) + doy < ERA
  {
    YearStartSteps(yoe);
    YearStartSteps(399);
    YearStartMonotone(yoe + 1, 399);
  }

  lemma DateAt(era: int, doe: nat, yoe: int)
    requires doe < ERA && 0 <= yoe < 400 && 0 <= doe - YearStart(yoe) < YearLength(yoe)
    ensures FromEraDay(era, doe) == EraDate(era, yoe, doe - YearStart(yoe))
  {
    YearUnique(doe, yoe);
  }

  /** Inside a March-based year the next day of the year is the calendar successor. */
  lemma MonthDaySteps(era: int, yoe: int, doy: int)
    requires 0 <= doy && doy + 1 < YearLength(yoe)
    ensures EraDate(era, yoe, doy + 1) == Successor(EraDate(era, yoe, doy))
  {
    LeapPeriodic(yoe + 1, era);
    assert yoe + era * 400 + 1 == (yoe + 1) + era * 400;
  }

  lemma EpochIsDayZero()
    ensures CivilFromDays(0) == Date(1970, 1, 1)
  {
  }

  lemma LastDayOfYear(era: int, yoe: int)
    requires 0 <= yoe < 400
    ensures Successor(EraDate(era, yoe, YearLength(yoe) - 1)) == Date(yoe + era * 400 + 1, 3, 1)
  {
    LeapPeriodic(yoe + 1, era);
    assert yoe + era * 400 + 1 == (yoe + 1) + era * 400;
  }

  lemma FirstDayOfYear(era: int, yoe: int)
    ensures EraDate(era, yoe, 0) == Date(yoe + era * 400, 3, 1)
  {
  }

  lemma SuccessorInYear(era: int, yoe: int, doy: int)
    requires 0 <= yoe < 400 && 0 <= doy && doy + 1 < YearLength(yoe)
    ensures 0 <= YearStart(yoe) + doy && YearStart(yoe) + doy + 1 < ERA
    ensures FromEraDay(era, YearStart(yoe) + doy + 1) == Successor(FromEraDay(era, YearStart(yoe) + doy))
  {
    hide FromEraDay, EraDate, YearStart, Successor;
    EraDayBound(yoe, doy);
    EraDayBound(yoe, doy + 1);
    DateAt(era, YearStart(yoe) + doy, yoe);
    DateAt(era, YearStart(yoe) + doy + 1, yoe);
    MonthDaySteps(era, yoe, doy);
  }

  lemma SuccessorAcrossYears(era: int, yoe: int)
    requires 0 <= yoe < 400
    ensures 0 <= YearStart(yoe) + YearLength(yoe) - 1 < ERA
    ensures Successor(FromEraDay(era, YearStart(yoe) + YearLength(yoe) - 1)) == Date(yoe + era * 400 + 1, 3, 1)
  {
    hide FromEraDay, EraDate, YearStart, Successor;
    EraDayBound(yoe, YearLength(yoe) - 1);
    DateAt(era, YearStart(yoe) + YearLength(yoe) - 1, yoe);
    LastDayOfYear(era, yoe);
  }

  lemma FirstOfMarch(era: int, yoe: int)
    requires 0 <= yoe < 400
    ensures 0 <= YearStart(yoe) < ERA
    ensures FromEraDay(era, YearStart(yoe)) == Date(yoe + era * 400, 3, 1)
  {
    hide FromEraDay, EraDate, YearStart;
    EraDayBound(yoe, 0);
    DateAt(era, YearStart(yoe), yoe);
    FirstDayOfYear(era, yoe);
  }

  lemma YearHolding(doe: nat) returns (yoe: int)
    requires doe < ERA
    ensures 0 <= yoe < 400 && YearStart(yoe) <= doe < YearStart(yoe) + YearLength(yoe)
    ensures YearStart(0) == 0
  {
    yoe := YearOfEra(doe);
    YearOfEraLands(doe);
  }

  lemma EraDaySuccessor(era: int, doe: nat)
    requires doe < ERA
    ensures doe + 1 < ERA ==> FromEraDay(era, doe + 1) == Successor(FromEraDay(era, doe))
    ensures doe + 1 == ERA ==> FromEraDay(era + 1, 0) == Successor(FromEraDay(era, doe))
  {
    hide *;
    var yoe := YearHolding(doe);
    YearStartSteps(yoe);
    if doe + 1 < YearStart(yoe) + YearLength(yoe) {
      SuccessorInYear(era, yoe, doe - YearStart(yoe));
    } else {
      SuccessorAcrossYears(era, yoe);
      if yoe < 399 {
        FirstOfMarch(era, yoe + 1);
      } else {
        FirstOfMarch(era + 1, 0);
      }
    }
  }

  /** Each day is followed by its calendar successor, for every integer day. */
  lemma NextDayIsSuccessor(days: int)
    ensures CivilFromDays(days + 1) == Successor(CivilFromDays(days))
  {
    hide CivilFromDays, FromEraDay, Successor;
    var z := days + 719_468;
    var era := EraOf(z);
    EraIsFloor(z);
    var doe := z - era * ERA;
    CivilAt(era, doe);
    EraDaySuccessor(era, doe);
    if doe + 1 < ERA {
      CivilAt(era, doe + 1);
    } else {
      CivilAt(era + 1, 0);
    }
  }

  lemma SuccessorAdvances(d: Date)
    requires Valid(d)
    ensures Valid(Successor(d)) && Before(d, Successor(d))
  {
  }

  /** The conversion is strictly increasing over all integer days. */
  lemma {:induction false} LaterDayLaterDate(a: int, b: int)
    requires a < b
    ensures Before(CivilFromDays(a), CivilFromDays(b))
    decreases b - a
  {
    hide CivilFromDays, Successor;
    NextDayIsSuccessor(b - 1);
    SuccessorAdvances(CivilFromDays(b - 1));
    if a < b - 1 {
      LaterDayLaterDate(a, b - 1);
    }
  }

  lemma PredecessorUnique(a: Date, b: Date)
    requires Valid(a) && Valid(b) && Successor(a) == Successor(b)
    ensures a == b
  {
  }

  /** There is only one calendar: whatever counts days through valid dates one successor at a
      time, with 1970-01-01 as day 0, is this conversion. */
  lemma {:induction false} OnlyCalendar(f: int -> Date, days: int)
    requires forall z :: Valid(f(z)) && f(z + 1) == Successor(f(z))
    requires f(0) == Date(1970, 1, 1)
    ensures f(days) == CivilFromDays(days)
    decreases if days < 0 then -days else days
  {
    hide CivilFromDays, Successor, Valid;
    EpochIsDayZero();
    if 0 < days {
      OnlyCalendar(f, days - 1);
      NextDayIsSuccessor(days - 1);
      assert f(days - 1 + 1) == Successor(f(days - 1));
    } else if days < 0 {
      OnlyCalendar(f, days + 1);
      NextDayIsSuccessor(days);
      PredecessorUnique(f(days), CivilFromDays(days));
    }
  }

  // ---- Counting days back ----

  function DaysInYear(y: int): int {
    if Leap(y) then 366 else 365
  }

  /** The days of the years before `y`, from year 1 on (negative before it). */
  function DaysBeforeYear(y: int): int {
    365 * (y - 1) + (y - 1) / 4 - (y - 1) / 100 + (y - 1) / 400
  }

  /** The days of the months before `m`. */
  function DaysBeforeMonth(y: int, m: int): int
    decreases m
  {
    if m <= 1 then 0 else DaysBeforeMonth(y, m - 1) + DaysInMonth(y, m - 1)
  }

  /** A date's number in days from 1970-01-01. */
  function DayNumber(d: Date): int {
    DaysBeforeYear(d.year) + DaysBeforeMonth(d.year, d.month) + d.day - 1 - 719_162
  }

  lemma YearSteps(y: int)
    ensures DaysBeforeYear(y + 1) == DaysBeforeYear(y) + DaysInYear(y)
  {
    var x := y - 1;
    assert (x + 1) / 4 == x / 4 + (if y % 4 == 0 then 1 else 0) by { FloorSteps(x, 4); }
    assert (x + 1) / 100 == x / 100 + (if y % 100 == 0 then 1 else 0) by { FloorSteps(x, 100); }
    assert (x + 1) / 400 == x / 400 + (if y % 400 == 0 then 1 else 0) by { FloorSteps(x, 400); }
    Centuries(y);
  }

  lemma Centuries(y: int)
    ensures (y % 400 == 0 ==> y % 100 == 0) && (y % 100 == 0 ==> y % 4 == 0)
  {
  }

  lemma FloorSteps(a: int, m: int)
    requires 0 < m
    ensures (a + 1) / m == a / m + if (a + 1) % m == 0 then 1 else 0
  {
    var q, r := a / m, a % m;
    assert a == q * m + r;
    if r == m - 1 {
      assert (q + 1) * m == q * m + m;
      DivModUnique(a + 1, m, q + 1, 0);
    } else {
      DivModUnique(a + 1, m, q, r + 1);
    }
  }

  lemma MonthsOfYear(y: int)
    ensures DaysBeforeMonth(y, 12) + DaysInMonth(y, 12) == DaysInYear(y)
  {
    assert DaysBeforeMonth(y, 3) == 31 + DaysInMonth(y, 2);
    assert DaysBeforeMonth(y, 5) == DaysBeforeMonth(y, 3) + 61;
    assert DaysBeforeMonth(y, 7) == DaysBeforeMonth(y, 5) + 61;
    assert DaysBeforeMonth(y, 9) == DaysBeforeMonth(y, 7) + 62;
    assert DaysBeforeMonth(y, 11) == DaysBeforeMonth(y, 9) + 61;
  }

  lemma NextDayNumber(d: Date)
    requires Valid(d)
    ensures DayNumber(Successor(d)) == DayNumber(d) + 1
  {
    hide DaysBeforeYear;
    YearSteps(d.year);
    MonthsOfYear(d.year);
  }

  /** Counting the days of the years and months before the date of a day gives the day back. */
  lemma {:induction false} DayNumberUndoesCivil(days: int)
    ensures DayNumber(CivilFromDays(days)) == days
    decreases if days < 0 then -days else days
  {
    EpochIsDayZero();
    hide CivilFromDays, Successor, DayNumber;
    if days == 0 {
      EpochNumber();
    } else if 0 < days {
      DayNumberUndoesCivil(days - 1);
      NextDayIsSuccessor(days - 1);
      NextDayNumber(CivilFromDays(days - 1));
    } else {
      DayNumberUndoesCivil(days + 1);
      NextDayIsSuccessor(days);
      NextDayNumber(CivilFromDays(days));
    }
  }

  lemma EpochNumber()
    ensures DayNumber(Date(1970, 1, 1)) == 0
  {
    MonthsStart(1970);
    DivModUnique(1969, 4, 492, 1);
    DivModUnique(1969, 100, 19, 69);
    DivModUnique(1969, 400, 4, 369);
    assert DaysBeforeYear(1970) == 719_162;
    hide DaysBeforeYear, DaysBeforeMonth;
  }

  lemma {:induction false} YearsMonotone(a: int, b: int)
    requires a <= b
    ensures DaysBeforeYear(a) + 365 * (b - a) <= DaysBeforeYear(b)
    decreases b - a
  {
    hide DaysBeforeYear;
    if a < b {
      YearsMonotone(a, b - 1);
      YearSteps(b - 1);
    }
  }

  lemma {:induction false} MonthsMonotone(y: int, a: int, b: int)
    requires 1 <= a < b <= 13
    ensures DaysBeforeMonth(y, a) + DaysInMonth(y, a) <= DaysBeforeMonth(y, b)
    decreases b
  {
    if a < b - 1 {
      MonthsMonotone(y, a, b - 1);
    }
  }

  lemma EarlierDayNumber(a: Date, b: Date)
    requires Valid(a) && Valid(b) && Before(a, b)
    ensures DayNumber(a) < DayNumber(b)
  {
    hide DaysBeforeYear, DaysBeforeMonth;
    MonthsStart(a.year);
    MonthsStart(b.year);
    MonthsOfYear(a.year);
    if a.month < 12 { MonthsMonotone(a.year, a.month, 12); }
    if 1 < b.month { MonthsMonotone(b.year, 1, b.month); }
    if a.year < b.year {
      YearSteps(a.year);
      YearsMonotone(a.year + 1, b.year);
    } else if a.month < b.month {
      MonthsMonotone(a.year, a.month, b.month);
    }
  }

  lemma MonthsStart(y: int)
    ensures DaysBeforeMonth(y, 1) == 0
  {
  }

  /** And every date of the calendar is the date of its day. */
  lemma CivilUndoesDayNumber(d: Date)
    requires Valid(d)
    ensures CivilFromDays(DayNumber(d)) == d
  {
    hide CivilFromDays, DayNumber;
    var e := CivilFromDays(DayNumber(d));
    DayNumberUndoesCivil(DayNumber(d));
    if Before(d, e) {
      EarlierDayNumber(d, e);
    } else if Before(e, d) {
      EarlierDayNumber(e, d);
    }
  }

  // ---- The printed timestamp ----

  datatype Stamp = Stamp(date: Date, hour: int, minute: int, second: int, micros: int)

  /** The fields `fmt_ts` prints for a time in microseconds since the epoch. */
  function StampOf(us: int): (r: Stamp)
    ensures Valid(r.date)
    ensures 0 <= r.hour < 24 && 0 <= r.minute < 60 && 0 <= r.second < 60 && 0 <= r.micros < 1_000_000
  {
    var secs := us / 1_000_000;
    var sod := secs % 86_400;
    Stamp(CivilFromDays(secs / 86_400), sod / 3600, sod % 3600 / 60, sod % 60, us % 1_000_000)
  }

  predicate Earlier(a: Stamp, b: Stamp) {
    || Before(a.date, b.date)
    || (a.date == b.date && a.hour < b.hour)
    || (a.date == b.date && a.hour == b.hour && a.minute < b.minute)
    || (a.date == b.date && a.hour == b.hour && a.minute == b.minute && a.second < b.second)
    || (a.date == b.date && a.hour == b.hour && a.minute == b.minute && a.second == b.second && a.micros < b.micros)
  }

  /** A second of the day in hours, minutes and seconds. */
  lemma SecondsSplit(a: int) returns (h: int, m: int, s: int)
    requires 0 <= a
    ensures h == a / 3600 && m == a % 3600 / 60 && s == a % 60
    ensures 0 <= m < 60 && 0 <= s < 60 && a == 3600 * h + 60 * m + s
  {
    h, m, s := a / 3600, a % 3600 / 60, a % 3600 % 60;
    assert 0 <= m < 60 && a % 3600 == 60 * m + s;
    DivModUnique(a, 60, 60 * h + m, s);
  }

  lemma LaterSecondOfDay(a: int, b: int)
    requires 0 <= a < b
    ensures a / 3600 < b / 3600 || (a / 3600 == b / 3600 && (a % 3600 / 60 < b % 3600 / 60 ||
              (a % 3600 / 60 == b % 3600 / 60 && a % 60 < b % 60)))
  {
    var h, m, s := SecondsSplit(a);
    var h', m', s' := SecondsSplit(b);
  }

  /** A later microsecond always prints later fields, before and after the epoch alike. */
  lemma LaterTimeLaterStamp(a: int, b: int)
    requires a < b
    ensures Earlier(StampOf(a), StampOf(b))
  {
    hide CivilFromDays, Before;
    var sa, sb := a / 1_000_000, b / 1_000_000;
    DivMono(a, b, 1_000_000);
    DivMono(sa, sb, 86_400);
    if sa / 86_400 < sb / 86_400 {
      LaterDayLaterDate(sa / 86_400, sb / 86_400);
    } else if sa < sb {
      LaterSecondOfDay(sa % 86_400, sb % 86_400);
    }
  }

  /** The microseconds the printed fields count from 1970-01-01 00:00:00 on. */
  function MicrosOf(s: Stamp): int {
    (((DayNumber(s.date) * 24 + s.hour) * 60 + s.minute) * 60 + s.second) * 1_000_000 + s.micros
  }

  /** The printed fields count exactly the microseconds they were made from. */
  lemma StampCountsMicros(us: int)
    ensures MicrosOf(StampOf(us)) == us
  {
    hide CivilFromDays, DayNumber;
    var secs := us / 1_000_000;
    var h, m, s := SecondsSplit(secs % 86_400);
    DayNumberUndoesCivil(secs / 86_400);
  }

  /** Nothing is lost: instants that print the same fields are the same. */
  lemma StampKeepsInstant(a: int, b: int)
    ensures StampOf(a) == StampOf(b) <==> a == b
  {
    hide StampOf;
    StampCountsMicros(a);
    StampCountsMicros(b);
  }
}
