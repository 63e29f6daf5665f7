/**
  The text JSON3 prints for a Date value (`cluster/wwwroot/sockjs.js`), and what it denotes in
  the date time string format (section 15.9.1.15 of ECMA-262 edition 5.1).
 */
module JsonDateText {
  import opened Wrappers
  import opened Texts
  import opened Json
  import opened JsonParse
  import opened JsonRoundTrip
  import opened Doubles
  import opened JsonDate

  const PLUS: CodeUnit := 43
  const POINT: CodeUnit := 46
  const LETTER_T: CodeUnit := 84
  const LETTER_Z: CodeUnit := 90

  datatype Fields = Fields(year: int, month: int, day: int, hours: int, minutes: int, seconds: int, milliseconds: int)

  ghost predicate ValidFields(f: Fields) {
    && IsDate(f.year, f.month, f.day)
    && 0 <= f.hours < 24 && 0 <= f.minutes < 60 && 0 <= f.seconds < 60 && 0 <= f.milliseconds < 1000
  }

  /** The milliseconds since the epoch that the fields denote. */
  function TimeValue(f: Fields): int
    requires 0 <= f.month < 12
  {
    (MonthStart(f.year, f.month) + f.day - 1) * MS_PER_DAY
    + f.hours * 3_600_000 + f.minutes * 60_000 + f.seconds * 1000 + f.milliseconds
  }

  // ---------- printing ----------

  /** `toPaddedString(width, n)`. */
  function Pad(width: nat, n: nat): Text
    requires width <= 6
  {
    ToPadded(width, Digits(n))
  }

  function YearText(year: int): Text {
    if year <= 0 || year >= 10000 then [if year < 0 then DASH else PLUS] + Pad(6, if year < 0 then -year else year)
    else Pad(4, year)
  }

  function RestText(month: nat, day: nat, hours: nat, minutes: nat, seconds: nat, milliseconds: nat): Text {
    [DASH] + Pad(2, month + 1) + [DASH] + Pad(2, day) + [LETTER_T] + Pad(2, hours) + [COLON] + Pad(2, minutes)
    + [COLON] + Pad(2, seconds) + [POINT] + Pad(3, milliseconds) + [LETTER_Z]
  }

  ghost function DateText(f: Fields): Text
    requires ValidFields(f)
  {
    YearText(f.year) + RestText(f.month, f.day, f.hours, f.minutes, f.seconds, f.milliseconds)
  }

  lemma MonthAndDay(year: int, month: int, day: int)
    requires IsDate(year, month, day)
    ensures 0 <= month < 12 && 1 <= day <= 31
  {
  }

  // ---------- reading ----------

  ghost predicate AllDigits(t: Text) {
    forall k :: 0 <= k < |t| ==> IsDigit(t[k])
  }

  /** The separators of the text behind the year. */
  predicate Separated(t: Text) {
    && |t| == 20 && t[0] == DASH && t[3] == DASH && t[6] == LETTER_T && t[9] == COLON && t[12] == COLON
    && t[15] == POINT && t[19] == LETTER_Z
  }

  /** The text is in the format, with a year of four digits, or of six and a sign. */
  ghost predicate InFormat(text: Text, signed: bool) {
    var n := if signed then 7 else 4;
    && |text| == n + 20 && Separated(text[n..])
    && (signed ==> text[0] == PLUS || text[0] == DASH)
    && AllDigits(text[if signed then 1 else 0..n])
    && AllDigits(text[n + 1..n + 3]) && AllDigits(text[n + 4..n + 6]) && AllDigits(text[n + 7..n + 9])
    && AllDigits(text[n + 10..n + 12]) && AllDigits(text[n + 13..n + 15]) && AllDigits(text[n + 16..n + 19])
  }

  /** What a text in the format denotes. */
  function Denoted(text: Text, signed: bool): Fields
    requires |text| == if signed then 27 else 24
  {
    var n := if signed then 7 else 4;
    var year := DigitsValue(text[if signed then 1 else 0..n]);
    Fields(if signed && text[0] == DASH then -year else year,
           DigitsValue(text[n + 1..n + 3]) - 1, DigitsValue(text[n + 4..n + 6]), DigitsValue(text[n + 7..n + 9]),
           DigitsValue(text[n + 10..n + 12]), DigitsValue(text[n + 13..n + 15]), DigitsValue(text[n + 16..n + 19]))
  }

  ghost function ReadDate(text: Text): Option<Fields> {
    if InFormat(text, true) then Some(Denoted(text, true))
    else if InFormat(text, false) then Some(Denoted(text, false))
    else None
  }

  /** The text is in the format, and denotes a date and clock time with this time value. */
  ghost predicate Denotes(text: Text, time: int) {
    var f := ReadDate(text);
    f.Some? && ValidFields(f.value) && TimeValue(f.value) == time
  }

  // ---------- padded numbers ----------

  function Pow10(n: nat): (p: int)
    ensures p > 0
  {
    if n == 0 then 1 else 10 * Pow10(n - 1)
  }

  lemma {:induction false} FewDigits(n: nat, width: nat)
    requires width > 0 && n < Pow10(width)
    ensures |Digits(n)| <= width
    decreases width
  {
    if n >= 10 { FewDigits(n / 10, width - 1); }
  }

  lemma {:induction false} LeadingZeros(k: nat, t: Text)
    ensures DigitsValue(seq(k, _ => 48 as CodeUnit) + t) == DigitsValue(t)
    decreases |t|, k
  {
    var zeros: Text := seq(k, _ => 48);
    var s := zeros + t;
    if t != [] {
      LeadingZeros(k, t[..|t| - 1]);
      assert s[..|s| - 1] == zeros + t[..|t| - 1];
    } else if k > 0 {
      LeadingZeros(k - 1, []);
      assert s == zeros && s[..|s| - 1] == seq(k - 1, _ => 48 as CodeUnit) + [];
    }
  }

  lemma {:induction false} BelowPow10(t: Text)
    requires AllDigits(t)
    ensures 0 <= DigitsValue(t) < Pow10(|t|)
    decreases |t|
  {
    if t != [] { BelowPow10(t[..|t| - 1]); }
  }

  lemma PadIsDigits(width: nat, n: nat)
    requires 0 < width <= 6
    ensures |Pad(width, n)| == width && AllDigits(Pad(width, n)) && 0 <= DigitsValue(Pad(width, n)) < Pow10(width)
  {
    var d := Digits(n);
    assert forall k :: 0 <= k < |d| ==> d[k] in d;
    BelowPow10(Pad(width, n));
  }

  /** A padded number is read back exactly when it fits the width. */
  lemma PadReads(width: nat, n: nat)
    requires 0 < width <= 6
    ensures DigitsValue(Pad(width, n)) == n <==> n < Pow10(width)
  {
    PadIsDigits(width, n);
    if n < Pow10(width) {
      var d := Digits(n);
      FewDigits(n, width);
      DigitsValueOfDigits(n);
      LeadingZeros(width - |d|, d);
      assert Pad(width, n) == seq(width - |d|, _ => 48 as CodeUnit) + d;
    }
  }

  // ---------- reading what was printed ----------

  /** The six numbers behind the year stand where the format has them. */
  lemma RestParts(a: Text, b: Text, c: Text, d: Text, e: Text, g: Text)
    requires |a| == |b| == |c| == |d| == |e| == 2 && |g| == 3
    ensures var t := [DASH] + a + [DASH] + b + [LETTER_T] + c + [COLON] + d + [COLON] + e + [POINT] + g + [LETTER_Z];
      && Separated(t)
      && t[1..3] == a && t[4..6] == b && t[7..9] == c && t[10..12] == d && t[13..15] == e && t[16..19] == g
  {
  }

  lemma SliceBehind(y: Text, r: Text, i: nat, j: nat)
    requires i <= j <= |r|
    ensures (y + r)[|y| + i..|y| + j] == r[i..j]
  {
  }

  lemma YearParts(year: int)
    ensures var signed, y := year <= 0 || year >= 10000, YearText(year);
      && |y| == (if signed then 7 else 4)
      && AllDigits(y[if signed then 1 else 0..])
      && (signed ==> y[0] == if year < 0 then DASH else PLUS)
      && (!signed ==> y[0] != DASH && y[0] != PLUS && DigitsValue(y) == year)
      && (signed ==> (DigitsValue(y[1..]) == (if year < 0 then -year else year) <==> -1_000_000 < year < 1_000_000))
  {
    hide Pad, IsDigit;
    var n: nat := if year < 0 then -year else year;
    assert Pow10(6) == 1_000_000 && Pow10(4) == 10_000 by { Powers(); }
    hide Pow10;
    if year <= 0 || year >= 10000 {
      PadIsDigits(6, n);
      PadReads(6, n);
      assert YearText(year)[1..] == Pad(6, n);
    } else {
      PadIsDigits(4, n);
      PadReads(4, n);
      assert YearText(year)[0..] == Pad(4, n);
      NoSign(Pad(4, n));
    }
  }

  lemma Powers()
    ensures Pow10(2) == 100 && Pow10(3) == 1000 && Pow10(4) == 10_000 && Pow10(6) == 1_000_000
  {
    assert Pow10(1) == 10;
    assert Pow10(5) == 10 * Pow10(4);
  }

  lemma NoSign(t: Text)
    requires AllDigits(t) && t != []
    ensures t[0] != DASH && t[0] != PLUS
  {
  }

  /** Numbers below 100 and 1000 come back from two and three digits. */
  lemma SmallReads(width: nat, n: nat)
    requires (width == 2 && n < 100) || (width == 3 && n < 1000)
    ensures |Pad(width, n)| == width && AllDigits(Pad(width, n)) && DigitsValue(Pad(width, n)) == n
  {
    Powers();
    PadIsDigits(width, n);
    PadReads(width, n);
  }

  ghost predicate RestReads(r: Text, f: Fields) {
    && Separated(r)
    && AllDigits(r[1..3]) && AllDigits(r[4..6]) && AllDigits(r[7..9])
    && AllDigits(r[10..12]) && AllDigits(r[13..15]) && AllDigits(r[16..19])
    && DigitsValue(r[1..3]) == f.month + 1 && DigitsValue(r[4..6]) == f.day && DigitsValue(r[7..9]) == f.hours
    && DigitsValue(r[10..12]) == f.minutes && DigitsValue(r[13..15]) == f.seconds
    && DigitsValue(r[16..19]) == f.milliseconds
  }

  lemma RestIsRead(f: Fields)
    requires ValidFields(f)
    ensures RestReads(RestText(f.month, f.day, f.hours, f.minutes, f.seconds, f.milliseconds), f)
  {
    MonthAndDay(f.year, f.month, f.day);
    hide Pad, IsDate, AllDigits, Separated, DigitsValue;
    SmallReads(2, f.month + 1);
    SmallReads(2, f.day);
    SmallReads(2, f.hours);
    SmallReads(2, f.minutes);
    SmallReads(2, f.seconds);
    SmallReads(3, f.milliseconds);
    RestParts(Pad(2, f.month + 1), Pad(2, f.day), Pad(2, f.hours), Pad(2, f.minutes), Pad(2, f.seconds),
              Pad(3, f.milliseconds));
  }

  /** A year text and a rest make a text in the format, read field by field. */
  lemma FormatOf(y: Text, r: Text, f: Fields, signed: bool)
    requires |y| == (if signed then 7 else 4) && AllDigits(y[if signed then 1 else 0..])
    requires signed <==> y[0] == DASH || y[0] == PLUS
    requires RestReads(r, f)
    ensures ReadDate(y + r) == Some(f.(year := YearOf(y, signed)))
  {
    var text, n := y + r, |y|;
    assert text[n..] == r && text[0] == y[0];
    assert text[if signed then 1 else 0..n] == y[if signed then 1 else 0..];
    SliceBehind(y, r, 1, 3);
    SliceBehind(y, r, 4, 6);
    SliceBehind(y, r, 7, 9);
    SliceBehind(y, r, 10, 12);
    SliceBehind(y, r, 13, 15);
    SliceBehind(y, r, 16, 19);
    hide AllDigits, DigitsValue;
    assert InFormat(text, signed);
  }

  function YearOf(y: Text, signed: bool): int
    requires |y| == if signed then 7 else 4
  {
    if !signed then DigitsValue(y) else if y[0] == DASH then -DigitsValue(y[1..]) else DigitsValue(y[1..])
  }

  /**
    The text of a date has 24 units, or 27 with a signed year, is in the format, and is read as the
    same fields exactly when the year has at most six digits.
   */
  lemma DateTextReads(f: Fields)
    requires ValidFields(f)
    ensures |DateText(f)| == if 0 < f.year < 10000 then 24 else 27
    ensures ReadDate(DateText(f)).Some?
    ensures ReadDate(DateText(f)) == Some(f) <==> -1_000_000 < f.year < 1_000_000
  {
    var signed := f.year <= 0 || f.year >= 10000;
    YearParts(f.year);
    RestIsRead(f);
    hide YearText, RestText, AllDigits, ReadDate, IsDate, DigitsValue;
    var y, r := YearText(f.year), RestText(f.month, f.day, f.hours, f.minutes, f.seconds, f.milliseconds);
    FormatOf(y, r, f, signed);
    assert y[0..] == y;
  }

  /** The year is signed exactly outside 1 to 9999, with a minus exactly when it is negative. */
  lemma YearSign(f: Fields)
    requires ValidFields(f)
    ensures DateText(f)[0] == 45 <==> f.year < 0
    ensures DateText(f)[0] == 43 <==> f.year == 0 || f.year > 9999
  {
    YearParts(f.year);
    hide YearText, RestText, IsDate;
  }

  // ---------- the whole range of time values ----------

  /** A date of the year `y` or later is not before the first day of `y`. */
  lemma DayInYear(f: Fields)
    requires ValidFields(f)
    ensures GetDay(f.year, 0) <= MonthStart(f.year, f.month) + f.day - 1 < GetDay(f.year + 1, 0)
  {
    hide GetDay, IsLeap;
    GetDayIsGregorian(f.year, f.month);
    GetDayMonth(f.year, f.month);
    GetDayNextYear(f.year);
  }

  lemma YearsGrow(y: int, z: int)
    requires y <= z
    ensures GetDay(y, 0) <= GetDay(z, 0)
  {
    hide GetDay;
    if y < z { YearsApart(y, z); }
  }

  /** Time values within 100 million days of the epoch (section 15.9.1.1) have years of six digits. */
  lemma YearsOfTimeValues(f: Fields)
    requires ValidFields(f) && -MAX_TIME <= TimeValue(f) <= MAX_TIME
    ensures -1_000_000 < f.year < 1_000_000
  {
    assert GetDay(1_000_000, 0) > 100_000_001 && GetDay(-999_999, 0) < -100_000_001;
    hide GetDay, MonthStart;
    DayInYear(f);
    if f.year >= 1_000_000 { YearsGrow(1_000_000, f.year); }
    if f.year <= -1_000_000 { YearsGrow(f.year + 1, -999_999); }
  }

  // ---------- every time value has one date ----------

  /** The day number lies in some year, and in some month of it. */
  lemma DayExists(date: int) returns (year: int, month: nat, day: int)
    ensures IsDate(year, month, day) && MonthStart(year, month) + day - 1 == date
  {
    hide GetDay, IsLeap, MonthStart;
    var n := date * 400 / 146097;
    YearEstimate(date, n);
    year := n + 1969;
    if GetDay(year + 1, 0) <= date { year := year + 1; }
    if GetDay(year + 1, 0) <= date { year := year + 1; }
    GetDayNextYear(year);
    MonthEstimate(year, date - GetDay(year, 0));
    month := (date - GetDay(year, 0)) * 100 / 3042;
    if month + 1 < 12 && GetDay(year, month + 1) <= date { month := month + 1; }
    day := 1 + date - GetDay(year, month);
    DayFits(year, month, date);
    GetDayIsGregorian(year, month);
  }

  lemma FieldsExist(time: int)
    ensures exists f :: ValidFields(f) && TimeValue(f) == time
  {
    hide IsDate, MonthStart;
    var year, month, day := DayExists(time / MS_PER_DAY);
    MonthAndDay(year, month, day);
    var t := time % MS_PER_DAY;
    ClockFields(t);
    var f := Fields(year, month, day, t / 3_600_000, (t / 60_000) % 60, (t / 1000) % 60, t % 1000);
    assert ValidFields(f) && TimeValue(f) == time;
  }

  lemma ClockBound(f: Fields)
    requires ValidFields(f)
    ensures 0 <= f.hours * 3_600_000 + f.minutes * 60_000 + f.seconds * 1000 + f.milliseconds < MS_PER_DAY
  {
  }

  /** A time value is the value of one date and clock time only. */
  lemma FieldsAreUnique(f: Fields, g: Fields)
    requires ValidFields(f) && ValidFields(g) && TimeValue(f) == TimeValue(g)
    ensures f == g
  {
    ClockBound(f);
    ClockBound(g);
    MonthAndDay(f.year, f.month, f.day);
    MonthAndDay(g.year, g.month, g.day);
    hide IsDate, MonthStart;
    DateIsUnique(f.year, f.month, f.day, g.year, g.month, g.day);
  }

  /** The date and clock time of a time value. */
  ghost function FieldsOf(time: int): (f: Fields)
    ensures ValidFields(f) && TimeValue(f) == time
  {
    FieldsExist(time);
    var f :| ValidFields(f) && TimeValue(f) == time;
    f
  }

  /** The text of a Date with this time value; for every time value a Date can have it denotes that value. */
  method DateToText(ar: Arithmetic, value: int) returns (text: Text)
    requires Accurate(ar, value)
    ensures text == DateText(FieldsOf(value)) && |text| == if 0 < FieldsOf(value).year < 10000 then 24 else 27
    ensures -MAX_TIME <= value <= MAX_TIME ==> ReadDate(text) == Some(FieldsOf(value))
  {
    hide MonthStart, IsDate, ToPadded, Digits, ReadDate, FieldsOf, Accurate;
    var year, month, day, hours, minutes, seconds, milliseconds, _, _ := Decompose(ar, value);
    MonthAndDay(year, month, day);
    ghost var fields := Fields(year, month, day, hours, minutes, seconds, milliseconds);
    FieldsAreUnique(fields, FieldsOf(value));
    text := if year <= 0 || year >= 10000
      then [if year < 0 then DASH else PLUS] + Pad(6, if year < 0 then -year else year)
      else Pad(4, year);
    text := text + RestText(month, day, hours, minutes, seconds, milliseconds);
    DateTextReads(fields);
    if -MAX_TIME <= value <= MAX_TIME { YearsOfTimeValues(fields); }
  }
}
