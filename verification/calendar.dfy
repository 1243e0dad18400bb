/**
 * Proleptic Gregorian calendar dates and their distance from the Unix epoch, the
 * conversion `NaiveDate::and_hms_opt(0, 0, 0).and_utc().timestamp_millis()` performs
 * when the catalogue manifest records when an entry was finished.
 */
module Calendar {

  datatype Date = Date(year: int, month: int, day: int)

  predicate IsLeap(y: int)
  {
    y % 4 == 0 && (y % 100 != 0 || y % 400 == 0)
  }

  function DaysInMonth(y: int, m: int): (n: int)
    requires 1 <= m <= 12
    ensures 28 <= n <= 31
  {
    if m == 2 then (if IsLeap(y) then 29 else 28)
    else if m == 4 || m == 6 || m == 9 || m == 11 then 30
    else 31
  }

  predicate Valid(d: Date)
  {
    1 <= d.month <= 12 && 1 <= d.day <= DaysInMonth(d.year, d.month)
  }

  /** The dates a date parser can produce. */
  type ValidDate = d: Date | Valid(d) witness Date(1970, 1, 1)

  /** The calendar successor of a valid date. */
  function NextDay(d: Date): (r: Date)
    requires Valid(d)
    ensures Valid(r)
  {
    if d.day < DaysInMonth(d.year, d.month) then Date(d.year, d.month, d.day + 1)
    else if d.month < 12 then Date(d.year, d.month + 1, 1)
    else Date(d.year + 1, 1, 1)
  }

  /** Days since 1 March of year 0 of a shifted year `yy` (starting in March) plus a day of that year. */
  function ShiftedDays(yy: int, doy: int): int
  {
    var era := yy / 400;
    var yoe := yy % 400;
    era * 146097 + yoe * 365 + yoe / 4 - yoe / 100 + doy
  }

  /** Day of the shifted year (0 = 1 March) on which a month starts. */
  function MonthStart(m: int): (r: int)
    requires 1 <= m <= 12
    ensures 0 <= r <= 337
  {
    var mp := if m > 2 then m - 3 else m + 9;
    (153 * mp + 2) / 5
  }

  /** Days from 1970-01-01 to `d`; negative before the epoch. */
  function DaysFromCivil(d: Date): int
    requires Valid(d)
  {
    var yy := if d.month <= 2 then d.year - 1 else d.year;
    ShiftedDays(yy, MonthStart(d.month) + d.day - 1) - 719468
  }

  /** Midnight UTC of a date as Unix milliseconds. */
  function MidnightMillis(d: Date): int
    requires Valid(d)
  {
    DaysFromCivil(d) * 86400000
  }

  lemma EpochIsZero()
    ensures DaysFromCivil(Date(1970, 1, 1)) == 0
    ensures MidnightMillis(Date(1970, 1, 1)) == 0
  {
  }

  /** Consecutive dates are one day of milliseconds apart. */
  lemma MillisNext(d: Date)
    requires Valid(d)
    ensures MidnightMillis(NextDay(d)) == MidnightMillis(d) + 86400000
  {
    DaysNext(d);
  }

  /** A shifted year (March to February) has 366 days exactly when the February is a leap one. */
  lemma ShiftedYearLength(yy: int)
    ensures ShiftedDays(yy + 1, 0) == ShiftedDays(yy, 0) + (if IsLeap(yy + 1) then 366 else 365)
  {
    var e, k := yy / 400, yy % 400;
    assert yy == 400 * e + k;
    ShiftedDaysOf(e, k);
    if k == 399 {
      ShiftedDaysOf(e + 1, 0);
      assert yy + 1 == 400 * (e + 1) + 0;
      EraStartLeap(e + 1);
    } else {
      assert yy + 1 == 400 * e + (k + 1);
      ShiftedDaysOf(e, k + 1);
      LeapWithinEra(e, k + 1);
    }
  }

  /** The day count of the start of year `k` of era `e`. */
  lemma ShiftedDaysOf(e: int, k: int)
    requires 0 <= k < 400
    ensures ShiftedDays(400 * e + k, 0) == e * 146097 + k * 365 + k / 4 - k / 100
  {
    DivMod400(e, k);
  }

  /** The first year of every era is a leap year. */
  lemma EraStartLeap(e: int)
    ensures IsLeap(400 * e)
  {
    Mod4(100 * e, 0);
    DivMod400(e, 0);
    assert 4 * (100 * e) + 0 == 400 * e;
  }

  lemma DivMod400(x: int, r: int)
    requires 0 <= r < 400
    ensures (400 * x + r) / 400 == x && (400 * x + r) % 400 == r
  {
  }

  lemma Mod100(x: int, r: int)
    requires 0 <= r < 100
    ensures (100 * x + r) % 100 == r
  {
  }

  lemma Mod4(x: int, r: int)
    requires 0 <= r < 4
    ensures (4 * x + r) % 4 == r
  {
  }

  /** Inside a 400-year era, the leap rule only depends on the year of the era. */
  lemma LeapWithinEra(e: int, j: int)
    requires 1 <= j <= 399
    ensures IsLeap(400 * e + j) <==> j % 4 == 0 && j % 100 != 0
    ensures j / 4 - (j - 1) / 4 - (j / 100 - (j - 1) / 100) == if j % 4 == 0 && j % 100 != 0 then 1 else 0
  {
    var y := 400 * e + j;
    var q4, r4 := j / 4, j % 4;
    assert y == 4 * (100 * e + q4) + r4;
    Mod4(100 * e + q4, r4);
    var q100, r100 := j / 100, j % 100;
    assert y == 100 * (4 * e + q100) + r100;
    Mod100(4 * e + q100, r100);
    DivMod400(e, j);
    LeapCounts(j);
  }

  /** Between year `j - 1` and year `j` of an era, the counts of multiples of 4 and of 100 step exactly at those multiples. */
  lemma LeapCounts(j: int)
    requires 1 <= j <= 399
    ensures j / 4 - (j - 1) / 4 == (if j % 4 == 0 then 1 else 0)
    ensures j / 100 - (j - 1) / 100 == (if j % 100 == 0 then 1 else 0)
  {
  }

  /** Consecutive month starts are a month apart, for every month but the last of a shifted year. */
  lemma MonthStartStep(y: int, m: int)
    requires 1 <= m <= 12 && m != 2
    ensures m < 12 ==> MonthStart(m + 1) == MonthStart(m) + DaysInMonth(y, m)
    ensures m == 12 ==> MonthStart(1) == MonthStart(12) + 31
  {
  }

  /** The day count advances by exactly one per calendar day, so it counts days since the epoch. */
  lemma DaysNext(d: Date)
    requires Valid(d)
    ensures DaysFromCivil(NextDay(d)) == DaysFromCivil(d) + 1
  {
    if d.day == DaysInMonth(d.year, d.month) {
      if d.month == 2 {
        FebruaryToMarch(d.year);
      } else {
        MonthStartStep(d.year, d.month);
      }
    }
  }

  lemma FebruaryToMarch(y: int)
    ensures DaysFromCivil(Date(y, 3, 1)) == DaysFromCivil(Date(y, 2, DaysInMonth(y, 2))) + 1
  {
    ShiftedYearLength(y - 1);
    assert MonthStart(2) == 337 && MonthStart(3) == 0;
  }
}
