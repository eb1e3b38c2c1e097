/**
 * Instants and the `%Y-%m-%d %H:%M:%S` reading of chrono's
 * `NaiveDateTime::parse_from_str`, restricted to its fixed-width form, with the
 * proleptic Gregorian calendar that decides which readings are dates.
 */
module Calendar {
  import opened Errors
  import opened Text

  /** A `DateTime<Utc>`, as whole seconds since 1970-01-01T00:00:00Z. */
  type Instant = int

  /** `DateTime::UNIX_EPOCH`. */
  const UNIX_EPOCH: Instant := 0

  const SECS_PER_DAY: nat := 86400

  datatype DateTimeFields =
    DateTimeFields(year: nat, month: nat, day: nat, hour: nat, minute: nat, second: nat)

  predicate IsLeapYear(y: int) {
    y % 4 == 0 && (y % 100 != 0 || y % 400 == 0)
  }

  function DaysInMonth(y: int, m: nat): (n: nat)
    requires 1 <= m <= 12
    ensures 28 <= n <= 31
  {
    if m == 2 then (if IsLeapYear(y) then 29 else 28)
    else if m == 4 || m == 6 || m == 9 || m == 11 then 30
    else 31
  }

  function YearLength(y: int): nat {
    if IsLeapYear(y) then 366 else 365
  }

  /** A calendar date and a time of day chrono accepts (no leap second). */
  predicate ValidFields(f: DateTimeFields) {
    && 1 <= f.month <= 12
    && 1 <= f.day <= DaysInMonth(f.year, f.month)
    && f.hour < 24 && f.minute < 60 && f.second < 60
  }

  /** Days of year `y` before the first of month `m` (`m == 13` is the whole year). */
  function DaysBeforeMonth(y: int, m: nat): (n: nat)
    requires 1 <= m <= 13
    ensures m == 13 ==> n == YearLength(y)
  {
    [0, 31, 59, 90, 120, 151, 181, 212, 243, 273, 304, 334, 365][m - 1]
      + (if m > 2 && IsLeapYear(y) then 1 else 0)
  }

  /** Leap years in 1..n for n >= 0 (floor division keeps the count consistent below 0). */
  function Leaps(n: int): int {
    n / 4 - n / 100 + n / 400
  }

  /** Days from 1970-01-01 to the first of January of year `y`. */
  function DaysBeforeYear(y: int): int {
    365 * (y - 1970) + Leaps(y - 1) - Leaps(1969)
  }

  /** The month after `m` starts `DaysInMonth(y, m)` days after `m` does. */
  lemma MonthStep(y: int, m: nat)
    requires 1 <= m <= 12
    ensures DaysBeforeMonth(y, m) + DaysInMonth(y, m) == DaysBeforeMonth(y, m + 1)
  {
  }

  lemma DivStep(y: int, k: nat)
    requires k == 4 || k == 100 || k == 400
    ensures y / k - (y - 1) / k == if y % k == 0 then 1 else 0
  {
  }

  lemma DivisibilityChain(y: int)
    ensures y % 400 == 0 ==> y % 100 == 0
    ensures y % 100 == 0 ==> y % 4 == 0
  {
    if y % 400 == 0 {
      var q := y / 400;
      assert y == 100 * (4 * q);
    }
    if y % 100 == 0 {
      var q := y / 100;
      assert y == 4 * (25 * q);
    }
  }

  /** Leap years counted up to `y` exceed those up to `y - 1` by one exactly when `y` is a leap year. */
  lemma LeapsStep(y: int)
    ensures Leaps(y) - Leaps(y - 1) == if IsLeapYear(y) then 1 else 0
  {
    DivStep(y, 4);
    DivStep(y, 100);
    DivStep(y, 400);
    DivisibilityChain(y);
  }

  /** Consecutive new years are one year length apart. */
  lemma YearStep(y: int)
    ensures DaysBeforeYear(y + 1) == DaysBeforeYear(y) + YearLength(y)
  {
    LeapsStep(y);
  }

  lemma {:induction false} DaysBeforeYearMonotone(y1: int, y2: int)
    requires y1 <= y2
    ensures DaysBeforeYear(y1) <= DaysBeforeYear(y2)
    decreases y2 - y1
  {
    if y1 < y2 {
      YearStep(y1);
      DaysBeforeYearMonotone(y1 + 1, y2);
    }
  }

  lemma {:induction false} DaysBeforeMonthMonotone(y: int, m1: nat, m2: nat)
    requires 1 <= m1 <= m2 <= 13
    ensures DaysBeforeMonth(y, m1) <= DaysBeforeMonth(y, m2)
    decreases m2 - m1
  {
    if m1 < m2 {
      MonthStep(y, m1);
      DaysBeforeMonthMonotone(y, m1 + 1, m2);
    }
  }

  /** Days from 1970-01-01 to the date in `f`; 1970-01-01 itself is day 0. */
  function DaysFromCivil(f: DateTimeFields): int
    requires ValidFields(f)
  {
    DaysBeforeYear(f.year) + DaysBeforeMonth(f.year, f.month) + (f.day - 1)
  }

  function SecondOfDay(f: DateTimeFields): (n: nat)
    requires ValidFields(f)
    ensures n < SECS_PER_DAY
  {
    f.hour * 3600 + f.minute * 60 + f.second
  }

  /**
   * The instant of `f` read as a UTC wall-clock time: the day counts whole
   * days from the epoch and the remainder is the time of day, with no offset.
   */
  function EpochSeconds(f: DateTimeFields): (t: Instant)
    requires ValidFields(f)
    ensures t / SECS_PER_DAY == DaysFromCivil(f)
    ensures t % SECS_PER_DAY == SecondOfDay(f)
  {
    DaysFromCivil(f) * SECS_PER_DAY + SecondOfDay(f)
  }

  /** Lexicographic order on (year, month, day, hour, minute, second). */
  predicate Before(f: DateTimeFields, g: DateTimeFields) {
    || f.year < g.year
    || (f.year == g.year && f.month < g.month)
    || (f.year == g.year && f.month == g.month && f.day < g.day)
    || (f.year == g.year && f.month == g.month && f.day == g.day && f.hour < g.hour)
    || (f.year == g.year && f.month == g.month && f.day == g.day && f.hour == g.hour && f.minute < g.minute)
    || (f.year == g.year && f.month == g.month && f.day == g.day && f.hour == g.hour && f.minute == g.minute
        && f.second < g.second)
  }

  lemma DaysFromCivilOrder(f: DateTimeFields, g: DateTimeFields)
    requires ValidFields(f) && ValidFields(g)
    requires f.year < g.year || (f.year == g.year && f.month < g.month)
      || (f.year == g.year && f.month == g.month && f.day < g.day)
    ensures DaysFromCivil(f) < DaysFromCivil(g)
  {
    if f.year < g.year {
      MonthStep(f.year, f.month);
      DaysBeforeMonthMonotone(f.year, f.month + 1, 13);
      YearStep(f.year);
      DaysBeforeYearMonotone(f.year + 1, g.year);
    } else if f.month < g.month {
      MonthStep(f.year, f.month);
      DaysBeforeMonthMonotone(f.year, f.month + 1, g.month);
    }
  }

  /** Instants are ordered as their calendar fields are: reading is strictly monotone. */
  lemma EpochSecondsOrder(f: DateTimeFields, g: DateTimeFields)
    requires ValidFields(f) && ValidFields(g)
    requires Before(f, g)
    ensures EpochSeconds(f) < EpochSeconds(g)
  {
    if f.year != g.year || f.month != g.month || f.day != g.day {
      DaysFromCivilOrder(f, g);
    }
  }

  /** Character positions of `YYYY-MM-DD HH:MM:SS` that hold separators. */
  predicate IsSeparatorPosition(i: int) {
    i == 4 || i == 7 || i == 10 || i == 13 || i == 16
  }

  /** `s` has the fixed-width shape `YYYY-MM-DD HH:MM:SS`. */
  predicate HasShape(s: string) {
    && |s| == 19
    && s[4] == '-' && s[7] == '-' && s[10] == ' ' && s[13] == ':' && s[16] == ':'
    && forall i | 0 <= i < 19 && !IsSeparatorPosition(i) :: IsDigit(s[i])
  }

  function FieldsOf(s: string): DateTimeFields
    requires HasShape(s)
  {
    assert AllDigits(s[0..4]) && AllDigits(s[5..7]) && AllDigits(s[8..10]);
    assert AllDigits(s[11..13]) && AllDigits(s[14..16]) && AllDigits(s[17..19]);
    DateTimeFields(
      DigitsValue(s[0..4]), DigitsValue(s[5..7]), DigitsValue(s[8..10]),
      DigitsValue(s[11..13]), DigitsValue(s[14..16]), DigitsValue(s[17..19]))
  }

  /**
   * `NaiveDateTime::parse_from_str(s, "%Y-%m-%d %H:%M:%S")`: the fields of `s`
   * when it has the shape and names an existing date and time, else nothing.
   */
  function ParseDateTime(s: string): (r: Option<DateTimeFields>)
    ensures r.Some? <==> HasShape(s) && ValidFields(FieldsOf(s))
    ensures r.Some? ==> r.value == FieldsOf(s) && ValidFields(r.value)
  {
    if !HasShape(s) then None
    else
      var f := FieldsOf(s);
      if ValidFields(f) then Some(f) else None
  }

  /** Digit groups laid out as `YYYY-MM-DD HH:MM:SS`. */
  function JoinDateTime(y: string, mo: string, d: string, h: string, mi: string, se: string): (s: string)
    requires |y| == 4 && |mo| == 2 && |d| == 2 && |h| == 2 && |mi| == 2 && |se| == 2
    requires AllDigits(y) && AllDigits(mo) && AllDigits(d) && AllDigits(h) && AllDigits(mi) && AllDigits(se)
    ensures HasShape(s)
    ensures s[0..4] == y && s[5..7] == mo && s[8..10] == d
    ensures s[11..13] == h && s[14..16] == mi && s[17..19] == se
  {
    var s := y + "-" + mo + "-" + d + " " + h + ":" + mi + ":" + se;
    assert forall i | 0 <= i < 19 && !IsSeparatorPosition(i) :: IsDigit(s[i]) by {
      forall i | 0 <= i < 19 && !IsSeparatorPosition(i) ensures IsDigit(s[i]) {
        if i < 4 { assert s[i] == y[i]; }
        else if i < 7 { assert s[i] == mo[i - 5]; }
        else if i < 10 { assert s[i] == d[i - 8]; }
        else if i < 13 { assert s[i] == h[i - 11]; }
        else if i < 16 { assert s[i] == mi[i - 14]; }
        else { assert s[i] == se[i - 17]; }
      }
    }
    s
  }

  /** `%Y-%m-%d %H:%M:%S` formatting of fields with a four-digit year. */
  function FormatDateTime(f: DateTimeFields): (s: string)
    requires ValidFields(f) && f.year <= 9999
    ensures HasShape(s)
  {
    JoinDateTime(FourDigits(f.year), TwoDigits(f.month), TwoDigits(f.day),
      TwoDigits(f.hour), TwoDigits(f.minute), TwoDigits(f.second))
  }

  /** Parsing a formatted date and time gives back its fields. */
  lemma DateRoundTrip(f: DateTimeFields)
    requires ValidFields(f) && f.year <= 9999
    ensures ParseDateTime(FormatDateTime(f)) == Some(f)
  {
    var s := FormatDateTime(f);
    assert FieldsOf(s) == f;
  }

  lemma NewYear2024Days()
    ensures DaysBeforeYear(2024) == 19723
  {
    assert Leaps(2023) == 490 && Leaps(1969) == 477;
  }

  lemma NewYear2024Layout()
    ensures JoinDateTime("2024", "01", "01", "00", "00", "00") == "2024-01-01 00:00:00"
  {
  }

  lemma NewYear2024Parse()
    ensures ParseDateTime("2024-01-01 00:00:00") == Some(DateTimeFields(2024, 1, 1, 0, 0, 0))
  {
    NewYear2024Layout();
    assert FourDigits(2024) == "2024";
    assert TwoDigits(1) == "01" && TwoDigits(0) == "00";
    DateRoundTrip(DateTimeFields(2024, 1, 1, 0, 0, 0));
  }

  lemma NewYear2024Epoch()
    ensures EpochSeconds(DateTimeFields(2024, 1, 1, 0, 0, 0)) == 1704067200
  {
    var f := DateTimeFields(2024, 1, 1, 0, 0, 0);
    NewYear2024Days();
    assert DaysFromCivil(f) == 19723 && SecondOfDay(f) == 0;
  }

  lemma LastSecondOf2023Layout()
    ensures JoinDateTime("2023", "12", "31", "23", "59", "59") == "2023-12-31 23:59:59"
  {
  }

  lemma LastSecondOf2023Parse()
    ensures ParseDateTime("2023-12-31 23:59:59") == Some(DateTimeFields(2023, 12, 31, 23, 59, 59))
  {
    LastSecondOf2023Layout();
    assert FourDigits(2023) == "2023";
    assert TwoDigits(12) == "12" && TwoDigits(31) == "31";
    assert TwoDigits(23) == "23" && TwoDigits(59) == "59";
    DateRoundTrip(DateTimeFields(2023, 12, 31, 23, 59, 59));
  }

  lemma LastSecondOf2023Epoch()
    ensures EpochSeconds(DateTimeFields(2023, 12, 31, 23, 59, 59)) == 1704067199
  {
    var f := DateTimeFields(2023, 12, 31, 23, 59, 59);
    assert Leaps(2022) == 490 && Leaps(1969) == 477;
    assert DaysBeforeYear(2023) == 19358;
    assert !IsLeapYear(2023) && DaysBeforeMonth(2023, 12) == 334;
    assert DaysFromCivil(f) == 19722 && SecondOfDay(f) == 86399;
  }

  lemma June2024Layout()
    ensures JoinDateTime("2024", "06", "01", "00", "00", "00") == "2024-06-01 00:00:00"
  {
  }

  lemma June2024Parse()
    ensures ParseDateTime("2024-06-01 00:00:00") == Some(DateTimeFields(2024, 6, 1, 0, 0, 0))
  {
    June2024Layout();
    assert FourDigits(2024) == "2024";
    assert TwoDigits(6) == "06" && TwoDigits(1) == "01" && TwoDigits(0) == "00";
    DateRoundTrip(DateTimeFields(2024, 6, 1, 0, 0, 0));
  }

  lemma June2024Epoch()
    ensures EpochSeconds(DateTimeFields(2024, 6, 1, 0, 0, 0)) == 1717200000
  {
    var f := DateTimeFields(2024, 6, 1, 0, 0, 0);
    NewYear2024Days();
    assert IsLeapYear(2024) && DaysBeforeMonth(2024, 6) == 152;
    assert DaysFromCivil(f) == 19875 && SecondOfDay(f) == 0;
  }
}
