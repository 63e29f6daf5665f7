/**
  JSON3's fallback for Date values: the year and the month are found by an estimate and
  a scan over `getDay` (`cluster/wwwroot/sockjs.js`). The estimates are floors of rounded
  quotients.
 */
module JsonDate {
  import opened Doubles

  const MS_PER_DAY := 86_400_000
  /** The largest absolute time value of a Date (section 15.9.1.1 of ECMA-262 edition 5.1). */
  const MAX_TIME := 8_640_000_000_000_000
  const MONTHS: seq<int> := [0, 31, 59, 90, 120, 151, 181, 212, 243, 273, 304, 334]

  /**
    Days between the Unix epoch and the first day of the month; `/` is `floor` here, which
    rounded quotients do not change (`FloorOfQuotient`).
   */
  function GetDay(year: int, month: nat): int
    requires month < 12
  {
    var late := if month > 1 then 1 else 0;
    MONTHS[month] + 365 * (year - 1970)
    + (year - 1969 + late) / 4 - (year - 1901 + late) / 100 + (year - 1601 + late) / 400
  }

  /** JavaScript's `%`: the remainder has the sign of the dividend. */
  function Remainder(a: int, b: int): int
    requires b > 0
  {
    if a >= 0 then a % b else -((-a) % b)
  }

  // ---------- the Gregorian calendar ----------

  predicate IsLeap(year: int) {
    year % 4 == 0 && (year % 100 != 0 || year % 400 == 0)
  }

  function DaysInYear(year: int): int {
    if IsLeap(year) then 366 else 365
  }

  function DaysInMonth(year: int, month: nat): int
    requires month < 12
  {
    if month == 1 then if IsLeap(year) then 29 else 28
    else if month == 3 || month == 5 || month == 8 || month == 10 then 30
    else 31
  }

  /** The number of January 1st of `year`, counted year by year from 1970. */
  function NewYear(year: int): int
    decreases if year >= 1970 then year - 1970 else 1970 - year
  {
    if year == 1970 then 0
    else if year > 1970 then NewYear(year - 1) + DaysInYear(year - 1)
    else NewYear(year + 1) - DaysInYear(year)
  }

  /** The number of the first day of a month, counted month by month. */
  function MonthStart(year: int, month: nat): int
    requires month < 12
  {
    if month == 0 then NewYear(year) else MonthStart(year, month - 1) + DaysInMonth(year, month - 1)
  }

  ghost predicate IsDate(year: int, month: int, day: int) {
    0 <= month < 12 && 1 <= day <= DaysInMonth(year, month)
  }

  lemma QuotientIs(a: int, d: int, q: int)
    requires d == 4 || d == 100 || d == 400
    requires d * q <= a < d * q + d
    ensures a / d == q && (a % d == 0 <==> a == d * q)
  {
  }

  lemma FourYears(year: int)
    ensures (year - 1968) / 4 - (year - 1969) / 4 == if year % 4 == 0 then 1 else 0
  {
    var q := year / 4;
    QuotientIs(year - 1968, 4, q - 492);
    QuotientIs(year - 1969, 4, if year % 4 == 0 then q - 493 else q - 492);
  }

  lemma HundredYears(year: int)
    ensures (year - 1900) / 100 - (year - 1901) / 100 == if year % 100 == 0 then 1 else 0
    ensures year % 100 == 0 ==> year % 4 == 0
  {
    var q := year / 100;
    QuotientIs(year - 1900, 100, q - 19);
    QuotientIs(year - 1901, 100, if year % 100 == 0 then q - 20 else q - 19);
    if year % 100 == 0 { QuotientIs(year, 4, 25 * q); }
  }

  lemma FourHundredYears(year: int)
    ensures (year - 1600) / 400 - (year - 1601) / 400 == if year % 400 == 0 then 1 else 0
    ensures year % 400 == 0 ==> year % 100 == 0
  {
    var q := year / 400;
    QuotientIs(year - 1600, 400, q - 4);
    QuotientIs(year - 1601, 400, if year % 400 == 0 then q - 5 else q - 4);
    if year % 400 == 0 { QuotientIs(year, 100, 4 * q); }
  }

  /** The three floors step by one day after a leap day, and only then. */
  lemma LeapStep(year: int)
    ensures (year - 1968) / 4 - (year - 1900) / 100 + (year - 1600) / 400
         == (year - 1969) / 4 - (year - 1901) / 100 + (year - 1601) / 400 + if IsLeap(year) then 1 else 0
  {
    FourYears(year);
    HundredYears(year);
    FourHundredYears(year);
  }

  lemma GetDayMonth(year: int, month: nat)
    requires month < 12
    ensures GetDay(year, month) == GetDay(year, 0) + MONTHS[month] + if month > 1 && IsLeap(year) then 1 else 0
  {
    hide IsLeap;
    LeapStep(year);
  }

  lemma GetDayNextYear(year: int)
    ensures GetDay(year + 1, 0) == GetDay(year, 0) + DaysInYear(year)
  {
    hide IsLeap;
    LeapStep(year);
  }

  lemma {:induction false} GetDayIsNewYear(year: int)
    ensures GetDay(year, 0) == NewYear(year)
    decreases if year >= 1970 then year - 1970 else 1970 - year
  {
    hide DaysInYear;
    if year > 1970 {
      GetDayNextYear(year - 1);
      GetDayIsNewYear(year - 1);
    } else if year < 1970 {
      GetDayNextYear(year);
      GetDayIsNewYear(year + 1);
    }
  }

  /** The closed formula counts the days of the Gregorian calendar, for every year. */
  lemma {:induction false} GetDayIsGregorian(year: int, month: nat)
    requires month < 12
    ensures GetDay(year, month) == MonthStart(year, month)
    decreases month
  {
    hide IsLeap, GetDay;
    if month == 0 {
      GetDayIsNewYear(year);
    } else {
      GetDayIsGregorian(year, month - 1);
      GetDayMonth(year, month - 1);
      GetDayMonth(year, month);
    }
  }

  // ---------- what the estimates need ----------

  /** The year quotient is less than 1/146097 off, as far as it is from the next integer unless it is one. */
  predicate YearClose(ar: Arithmetic, date: int) {
    Abs(ar.divide(date as real, ar.literal(365.2425)) * 146097.0 - 400.0 * date as real) < 1.0
  }

  predicate MonthRight(ar: Arithmetic, offset: nat) {
    Floor(ar, offset, ar.literal(30.42)) == offset * 100 / 3042
  }

  predicate ClockRight(ar: Arithmetic, time: nat) {
    && Floor(ar, time, 3_600_000.0) == time / 3_600_000
    && Floor(ar, time, 60_000.0) == time / 60_000
    && Floor(ar, time, 1000.0) == time / 1000
  }

  /** What the fields of the time value need of the arithmetic. */
  ghost predicate Accurate(ar: Arithmetic, value: int) {
    && Floor(ar, value, 86_400_000.0) == value / MS_PER_DAY
    && YearClose(ar, value / MS_PER_DAY)
    && (forall offset: nat :: offset < 366 ==> MonthRight(ar, offset))
    && (forall time: nat :: time < MS_PER_DAY ==> ClockRight(ar, time))
  }

  /** No quotient but zero is that close to a month's start. */
  lemma MonthFloor(x: real, offset: nat)
    requires 0 < offset < 366 && Abs(Product(x, 30.42) - offset as real) * 20_000.0 <= 1.0
    ensures x.Floor == offset * 100 / 3042
  {
    var k := offset * 100 / 3042;
    assert 3042 * k < offset * 100 < 3042 * k + 3042;
    FloorIs(x, k);
  }

  lemma MonthRounds(ar: Arithmetic, offset: nat)
    requires Rounding(ar) && offset < 366
    ensures MonthRight(ar, offset)
  {
    var b := ar.literal(30.42);
    if offset == 0 {
      assert Near(b, 30.42);
      RoundedExact(ar, 0, b, 0);
    } else {
      hide Rounding, Product;
      LiteralQuotient(ar, offset, 30.42);
      MonthFloor(ar.divide(offset as real, b), offset);
    }
  }

  lemma YearRounds(ar: Arithmetic, date: int)
    requires Rounding(ar) && -100_000_000 <= date <= 100_000_000
    ensures YearClose(ar, date)
  {
    LiteralQuotient(ar, date, 365.2425);
  }

  /** Doubles are accurate for every time value that a Date can have. */
  lemma RoundingIsAccurate(ar: Arithmetic, value: int)
    requires Rounding(ar) && -MAX_TIME <= value <= MAX_TIME
    ensures Accurate(ar, value)
  {
    YearRounds(ar, value / MS_PER_DAY);
    hide Floor, MonthRight, YearClose, Rounding;
    FloorOfQuotient(ar, value, 86_400_000);
    forall offset: nat | offset < 366 ensures MonthRight(ar, offset) { MonthRounds(ar, offset); }
    forall time: nat | time < MS_PER_DAY ensures ClockRight(ar, time) {
      FloorOfQuotient(ar, time, 3_600_000);
      FloorOfQuotient(ar, time, 60_000);
      FloorOfQuotient(ar, time, 1000);
    }
  }

  /** Exact quotients are accurate for every integer time value. */
  lemma ExactIsAccurate(value: int)
    ensures Accurate(EXACT, value)
  {
    FloorIs(value as real / 86_400_000.0, value / MS_PER_DAY);
    forall offset: nat | offset < 366 ensures MonthRight(EXACT, offset) {
      FloorIs(offset as real / 30.42, offset * 100 / 3042);
    }
    forall time: nat | time < MS_PER_DAY ensures ClockRight(EXACT, time) {
      FloorIs(time as real / 3_600_000.0, time / 3_600_000);
      FloorIs(time as real / 60_000.0, time / 60_000);
      FloorIs(time as real / 1000.0, time / 1000);
    }
  }

  // ---------- the scans ----------

  /** The year estimate is the floor of the exact quotient, or one less where that is an integer. */
  lemma CloseEstimate(ar: Arithmetic, date: int)
    requires YearClose(ar, date)
    ensures var n, k := Floor(ar, date, ar.literal(365.2425)), date * 400 / 146097;
      n == k || (n == k - 1 && date * 400 == 146097 * k)
  {
    var x, k := ar.divide(date as real, ar.literal(365.2425)), date * 400 / 146097;
    assert 146097 * k <= date * 400 < 146097 * k + 146097;
    if x < k as real { FloorIs(x, k - 1); } else { FloorIs(x, k); }
  }

  /** `floor(date / 365.2425) + 1970 - 1` never overshoots and is at most two years short. */
  lemma YearEstimate(date: int, n: int)
    requires var k := date * 400 / 146097; n == k || (n == k - 1 && date * 400 == 146097 * k)
    ensures GetDay(n + 1969, 0) <= date < GetDay(n + 1972, 0)
  {
  }

  /** `floor(offset / 30.42)` never overshoots and is at most one month short. */
  lemma MonthEstimate(year: int, offset: int)
    requires 0 <= offset < DaysInYear(year)
    ensures var month := offset * 100 / 3042;
      && 0 <= month < 12
      && GetDay(year, month) - GetDay(year, 0) <= offset
      && (month + 2 < 12 ==> offset < GetDay(year, month + 2) - GetDay(year, 0))
  {
    hide IsLeap, GetDay;
    var month := offset * 100 / 3042;
    assert 0 <= month < 12;
    GetDayMonth(year, month);
    if month + 2 < 12 { GetDayMonth(year, month + 2); }
  }

  /** The year that holds day `date`: an estimate, then a scan. */
  method FindYear(ar: Arithmetic, date: int) returns (year: int, steps: nat)
    requires YearClose(ar, date)
    ensures GetDay(year, 0) <= date < GetDay(year + 1, 0) && steps <= 2
  {
    hide GetDay;
    year := Floor(ar, date, ar.literal(365.2425)) + 1970 - 1;
    CloseEstimate(ar, date);
    YearEstimate(date, Floor(ar, date, ar.literal(365.2425)));
    ghost var estimate := year;
    steps := 0;
    while GetDay(year + 1, 0) <= date
      invariant year == estimate + steps && steps <= 2
      invariant GetDay(year, 0) <= date
      decreases 2 - steps
    {
      year := year + 1;
      steps := steps + 1;
    }
  }

  /** The month of `year` that holds day `date`: an estimate, then a scan. */
  method FindMonth(ar: Arithmetic, year: int, date: int) returns (month: nat, steps: nat)
    requires GetDay(year, 0) <= date < GetDay(year + 1, 0)
    requires forall offset: nat :: offset < 366 ==> MonthRight(ar, offset)
    ensures month < 12 && GetDay(year, month) <= date && steps <= 1
    ensures month + 1 < 12 ==> date < GetDay(year, month + 1)
  {
    hide GetDay;
    GetDayNextYear(year);
    MonthEstimate(year, date - GetDay(year, 0));
    assert MonthRight(ar, date - GetDay(year, 0));
    month := Floor(ar, date - GetDay(year, 0), ar.literal(30.42));
    ghost var estimate := month;
    steps := 0;
    // `getDay(year, 12)` is NaN, and no comparison with it holds
    while month + 1 < 12 && GetDay(year, month + 1) <= date
      invariant month == estimate + steps && steps <= 1 && month < 12
      invariant GetDay(year, month) <= date
      decreases 12 - month
    {
      month := month + 1;
      steps := steps + 1;
    }
  }

  lemma DayFits(year: int, month: nat, date: int)
    requires month < 12 && GetDay(year, month) <= date < GetDay(year + 1, 0)
    requires month + 1 < 12 ==> date < GetDay(year, month + 1)
    ensures IsDate(year, month, 1 + date - GetDay(year, month))
  {
    hide IsLeap, GetDay;
    GetDayMonth(year, month);
    if month + 1 < 12 { GetDayMonth(year, month + 1); } else { GetDayNextYear(year); }
  }

  /** `(A % B + B) % B` is A modulo B for negative A too. */
  lemma FloorModulo(value: int)
    ensures Remainder(Remainder(value, MS_PER_DAY) + MS_PER_DAY, MS_PER_DAY) == value % MS_PER_DAY
  {
    var q, r := value / MS_PER_DAY, value % MS_PER_DAY;
    if value >= 0 {
      ModuloIs(r + MS_PER_DAY, 1, r);
    } else if r == 0 {
      ModuloIs(-value, -q, 0);
      ModuloIs(MS_PER_DAY, 1, 0);
    } else {
      ModuloIs(-value, -q - 1, MS_PER_DAY - r);
      ModuloIs(r, 0, r);
    }
  }

  lemma ModuloIs(a: int, q: int, r: int)
    requires a == q * MS_PER_DAY + r && 0 <= r < MS_PER_DAY
    ensures a % MS_PER_DAY == r
  {
    var p := a / MS_PER_DAY;
    assert p * MS_PER_DAY + a % MS_PER_DAY == q * MS_PER_DAY + r;
  }

  lemma ClockFields(time: int)
    requires 0 <= time < MS_PER_DAY
    ensures time / 3_600_000 < 24
    ensures time / 3_600_000 * 3_600_000 + (time / 60_000) % 60 * 60_000 + (time / 1000) % 60 * 1000 + time % 1000
         == time
  {
    var s := time / 1000;
    var m := time / 60_000;
    assert m == s / 60 && time / 3_600_000 == m / 60;
  }

  /** The calendar and clock fields of an integer time value, and the steps of the two scans. */
  method Decompose(ar: Arithmetic, value: int)
    returns (year: int, month: nat, day: int, hours: int, minutes: int, seconds: int, milliseconds: int,
             yearSteps: nat, monthSteps: nat)
    requires Accurate(ar, value)
    ensures IsDate(year, month, day)
    ensures MonthStart(year, month) + day - 1 == value / MS_PER_DAY
    ensures yearSteps <= 2 && monthSteps <= 1
    ensures 0 <= hours < 24 && 0 <= minutes < 60 && 0 <= seconds < 60 && 0 <= milliseconds < 1000
    ensures hours * 3_600_000 + minutes * 60_000 + seconds * 1000 + milliseconds == value % MS_PER_DAY
  {
    hide GetDay, IsLeap, Remainder, Floor, YearClose, MonthRight;
    var date := Floor(ar, value, 86_400_000.0);
    year, yearSteps := FindYear(ar, date);
    month, monthSteps := FindMonth(ar, year, date);
    day := 1 + date - GetDay(year, month);
    DayFits(year, month, date);
    GetDayIsGregorian(year, month);
    var time := Remainder(Remainder(value, MS_PER_DAY) + MS_PER_DAY, MS_PER_DAY);
    FloorModulo(value);
    ClockFields(time);
    assert ClockRight(ar, time);
    hours := Floor(ar, time, 3_600_000.0) % 24;
    minutes := Floor(ar, time, 60_000.0) % 60;
    seconds := Floor(ar, time, 1000.0) % 60;
    milliseconds := time % 1000;
  }

  lemma {:induction false} YearsApart(y: int, z: int)
    requires y < z
    ensures GetDay(y, 0) + DaysInYear(y) <= GetDay(z, 0)
    decreases z - y
  {
    hide GetDay, IsLeap;
    GetDayNextYear(y);
    if y + 1 < z { YearsApart(y + 1, z); }
  }

  /** A day number lies in one year only. */
  lemma YearIsUnique(y: int, m: nat, d: int, y': int, m': nat, d': int)
    requires IsDate(y, m, d) && IsDate(y', m', d')
    requires GetDay(y, m) + d == GetDay(y', m') + d'
    ensures y >= y'
  {
    hide GetDay, IsLeap;
    if y < y' {
      GetDayMonth(y, m);
      GetDayMonth(y', m');
      YearsApart(y, y');
    }
  }

  /** A day number is the number of one Gregorian date only, so the fields are the date. */
  lemma DateIsUnique(y: int, m: nat, d: int, y': int, m': nat, d': int)
    requires IsDate(y, m, d) && IsDate(y', m', d')
    requires MonthStart(y, m) + d == MonthStart(y', m') + d'
    ensures y == y' && m == m' && d == d'
  {
    hide GetDay, IsLeap;
    GetDayIsGregorian(y, m);
    GetDayIsGregorian(y', m');
    YearIsUnique(y, m, d, y', m', d');
    YearIsUnique(y', m', d', y, m, d);
    GetDayMonth(y, m);
    GetDayMonth(y, m');
  }
}
