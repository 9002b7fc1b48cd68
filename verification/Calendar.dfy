/** The calendar behind a sign-in message's `Issued At` line: Howard Hinnant's `civil_from_days`
    as the message writer runs it, proved against plain counting of years, months and days in the
    proleptic Gregorian calendar (section 5.6 of RFC 3339). */
module Calendar {

  datatype Civil = Civil(year: nat, month: nat, day: nat)

  // ---- The reference: counting days one year and one month at a time ----

  predicate Leap(y: nat) {
    y % 4 == 0 && (y % 100 != 0 || y % 400 == 0)
  }

  function YearLength(y: nat): nat {
    if Leap(y) then 366 else 365
  }

  function MonthLength(y: nat, m: nat): nat
    requires 1 <= m <= 12
  {
    if m == 2 then (if Leap(y) then 29 else 28)
    else if m == 4 || m == 6 || m == 9 || m == 11 then 30
    else 31
  }

  /** Days from 0000-01-01 to January 1st of year `y`. */
  function DaysBeforeYear(y: nat): nat {
    if y == 0 then 0 else DaysBeforeYear(y - 1) + YearLength(y - 1)
  }

  /** Days from January 1st of year `y` to the first of month `m`. */
  function DaysBeforeMonth(y: nat, m: nat): nat
    requires 1 <= m <= 12
  {
    if m == 1 then 0 else DaysBeforeMonth(y, m - 1) + MonthLength(y, m - 1)
  }

  predicate Valid(c: Civil) {
    1 <= c.month <= 12 && 1 <= c.day <= MonthLength(c.year, c.month)
  }

  /** Days from 0000-01-01 to `c`. */
  function DayNumber(c: Civil): nat
    requires Valid(c)
  {
    DaysBeforeYear(c.year) + DaysBeforeMonth(c.year, c.month) + c.day - 1
  }

  /** Days from 0000-01-01 to 1970-01-01, the Unix epoch. */
  const EPOCH_DAY: nat := 719_528

  // ---- The code: the year counted from March, in 400-year eras ----

  /** Days from 0000-03-01 to 1970-01-01. */
  const MARCH_EPOCH: nat := 719_468

  function YearOfEra(doe: nat): nat
    requires doe < 146_097
  {
    (doe - doe / 1_460 + doe / 36_524 - doe / 146_096) / 365
  }

  /** The civil date `days` after the Unix epoch. */
  function CivilFromDays(days: nat): Civil {
    var z := days + MARCH_EPOCH;
    var era := z / 146_097;
    var doe := z % 146_097;
    var yoe := YearOfEra(doe);
    var doy: int := doe - (365 * yoe + yoe / 4 - yoe / 100);
    YearOfEraIsRight(doe);
    var mp := (5 * doy + 2) / 153;
    MonthIsRight(doy);
    var d := doy - (153 * mp + 2) / 5 + 1;
    var m := if mp < 10 then mp + 3 else mp - 9;
    var y := yoe + era * 400 + (if m <= 2 then 1 else 0);
    Civil(y, m, d)
  }

  // ---- The arithmetic of one era and of one March year ----

  /** Days from March 1st of year 0 of an era to March 1st of its year `yoe`. */
  function MarchDays(yoe: nat): int {
    365 * yoe + yoe / 4 - yoe / 100
  }

  /** With `doe` written as centuries, four-year cycles and days within a cycle, the code's
      corrections cancel exactly the leap days. */
  lemma EraSplit(c: nat, q: nat, s: nat, doe: nat)
    requires c <= 3 && q <= 24 && s <= 1_460
    requires q == 24 && s == 1_460 ==> c == 3
    requires doe == 36_524 * c + 1_461 * q + s
    ensures doe < 146_097
    ensures YearOfEra(doe) == 100 * c + 4 * q + (if s == 1_460 then 3 else s / 365)
  {
    var t := if 24 * c + q + s >= 1_460 then 1 else 0;
    assert doe / 1_460 == 25 * c + q + t;
    if doe == 146_096 {
    } else {
      assert doe / 36_524 == c;
      assert doe / 146_096 == 0;
      assert doe - doe / 1_460 + doe / 36_524 == 36_500 * c + 1_460 * q + s - t;
      assert (36_500 * c + 1_460 * q + s - t) / 365 == 100 * c + 4 * q + (s - t) / 365;
    }
  }

  lemma YearOfEraIsRight(doe: nat)
    requires doe < 146_097
    ensures YearOfEra(doe) < 400
    ensures MarchDays(YearOfEra(doe)) <= doe
    ensures doe - MarchDays(YearOfEra(doe)) <= 365
    ensures doe - MarchDays(YearOfEra(doe)) == 365 ==>
              var y := YearOfEra(doe) + 1; y % 4 == 0 && (y % 100 != 0 || y == 400)
  {
    var c := if doe / 36_524 == 4 then 3 else doe / 36_524;
    var r := doe - 36_524 * c;
    var q := r / 1_461;
    var s := r % 1_461;
    EraSplit(c, q, s, doe);
    var k := if s == 1_460 then 3 else s / 365;
    var yoe := 100 * c + 4 * q + k;
    assert yoe / 4 == 25 * c + q;
    assert yoe / 100 == c;
  }

  /** Days from March 1st to the first of the month `mp` months after March. */
  function MarchMonthStart(mp: nat): nat {
    (153 * mp + 2) / 5
  }

  lemma MonthIsRight(doy: nat)
    requires doy <= 365
    ensures var mp := (5 * doy + 2) / 153; mp <= 11 && MarchMonthStart(mp) <= doy
    ensures var mp := (5 * doy + 2) / 153; doy < MarchMonthStart(mp + 1)
  {
  }

  // ---- The closed form of year counting ----

  lemma {:induction false} DaysBeforeYearClosed(y: nat)
    ensures DaysBeforeYear(y) == 365 * y + (y + 3) / 4 - (y + 99) / 100 + (y + 399) / 400
  {
    if y > 0 {
      DaysBeforeYearClosed(y - 1);
      Step4(y - 1);
      Step100(y - 1);
      Step400(y - 1);
      LeapByRemainders(y - 1);
    }
  }

  // Rounding up a quotient steps just past each multiple.
  lemma Step4(x: nat)
    ensures (x + 4) / 4 == (x + 3) / 4 + (if x % 4 == 0 then 1 else 0)
  {}

  lemma Step100(x: nat)
    ensures (x + 100) / 100 == (x + 99) / 100 + (if x % 100 == 0 then 1 else 0)
  {}

  lemma Step400(x: nat)
    ensures (x + 400) / 400 == (x + 399) / 400 + (if x % 400 == 0 then 1 else 0)
  {}

  lemma LeapByRemainders(y: nat)
    ensures YearLength(y) == 365 + (if y % 4 == 0 then 1 else 0)
                           - (if y % 100 == 0 then 1 else 0) + (if y % 400 == 0 then 1 else 0)
  {
    assert y % 100 == 0 ==> y % 4 == 0;
    assert y % 400 == 0 ==> y % 100 == 0;
  }

  /** A year's remainders are those of its place in its era. */
  lemma EraRemainders(era: nat, yoe: nat)
    ensures (400 * era + yoe) % 4 == yoe % 4
    ensures (400 * era + yoe) % 100 == yoe % 100
    ensures (400 * era + yoe) % 400 == yoe % 400
  {
    assert 400 * era + yoe == 4 * (100 * era + yoe / 4) + yoe % 4;
    assert 400 * era + yoe == 100 * (4 * era + yoe / 100) + yoe % 100;
    assert 400 * era + yoe == 400 * (era + yoe / 400) + yoe % 400;
  }

  /** Leap years by their place in an era. */
  predicate LeapOfEra(yoe: nat) {
    yoe % 4 == 0 && (yoe % 100 != 0 || yoe % 400 == 0)
  }

  lemma EraLeap(era: nat, yoe: nat)
    ensures Leap(400 * era + yoe) <==> LeapOfEra(yoe)
  {
    EraRemainders(era, yoe);
  }

  lemma EraQuotients(era: nat, yoe: nat)
    requires yoe < 400
    ensures DaysBeforeYear(400 * era + yoe)
         == 146_097 * era + 365 * yoe + (yoe + 3) / 4 - (yoe + 99) / 100 + (yoe + 399) / 400
  {
    var y := 400 * era + yoe;
    DaysBeforeYearClosed(y);
    assert (y + 3) / 4 == 100 * era + (yoe + 3) / 4;
    assert (y + 99) / 100 == 4 * era + (yoe + 99) / 100;
    assert (y + 399) / 400 == era + (yoe + 399) / 400;
  }

  /** Rounding up the leap days before a year of an era, and adding its own, is `MarchDays`. */
  lemma LeapDaysOfEra(yoe: nat)
    requires yoe < 400
    ensures 365 * yoe + (yoe + 3) / 4 - (yoe + 99) / 100 + (yoe + 399) / 400 + (if LeapOfEra(yoe) then 1 else 0)
         == MarchDays(yoe) + 1
  {
    assert (yoe + 3) / 4 == yoe / 4 + (if yoe % 4 == 0 then 0 else 1);
    assert (yoe + 99) / 100 == yoe / 100 + (if yoe % 100 == 0 then 0 else 1);
    assert (yoe + 399) / 400 == if yoe == 0 then 0 else 1;
    assert yoe % 100 == 0 ==> yoe % 4 == 0;
  }

  /** March 1st of the era's year `yoe`, counted from 0000-01-01. */
  lemma MarchFirst(era: nat, yoe: nat)
    requires yoe < 400
    ensures DaysBeforeYear(400 * era + yoe) + (if Leap(400 * era + yoe) then 60 else 59)
         == 146_097 * era + MarchDays(yoe) + 60
  {
    EraQuotients(era, yoe);
    LeapDaysOfEra(yoe);
    assert Leap(400 * era + yoe) <==> LeapOfEra(yoe) by {
      EraLeap(era, yoe);
    }
  }

  lemma MonthTable(y: nat)
    ensures DaysBeforeMonth(y, 1) == 0 && DaysBeforeMonth(y, 2) == 31
    ensures var l := if Leap(y) then 1 else 0;
            && DaysBeforeMonth(y, 3) == 59 + l && DaysBeforeMonth(y, 4) == 90 + l
            && DaysBeforeMonth(y, 5) == 120 + l && DaysBeforeMonth(y, 6) == 151 + l
            && DaysBeforeMonth(y, 7) == 181 + l && DaysBeforeMonth(y, 8) == 212 + l
            && DaysBeforeMonth(y, 9) == 243 + l && DaysBeforeMonth(y, 10) == 273 + l
            && DaysBeforeMonth(y, 11) == 304 + l && DaysBeforeMonth(y, 12) == 334 + l
  {
    assert DaysBeforeMonth(y, 2) == 31 + DaysBeforeMonth(y, 1);
    assert DaysBeforeMonth(y, 3) == MonthLength(y, 2) + DaysBeforeMonth(y, 2);
    assert DaysBeforeMonth(y, 5) == DaysBeforeMonth(y, 3) + 61;
    assert DaysBeforeMonth(y, 7) == DaysBeforeMonth(y, 5) + 61;
    assert DaysBeforeMonth(y, 9) == DaysBeforeMonth(y, 7) + 62;
    assert DaysBeforeMonth(y, 11) == DaysBeforeMonth(y, 9) + 61;
  }

  // ---- Main results ----

  /** Days from March 1st to each month's first. */
  lemma MarchMonthTable()
    ensures MarchMonthStart(0) == 0 && MarchMonthStart(1) == 31 && MarchMonthStart(2) == 61
    ensures MarchMonthStart(3) == 92 && MarchMonthStart(4) == 122 && MarchMonthStart(5) == 153
    ensures MarchMonthStart(6) == 184 && MarchMonthStart(7) == 214 && MarchMonthStart(8) == 245
    ensures MarchMonthStart(9) == 275 && MarchMonthStart(10) == 306 && MarchMonthStart(11) == 337
    ensures MarchMonthStart(12) == 367
  {}

  /** Counting within a March year: from March 1st of `y` to the day `doy` days later, in month
      `mp`, across the turn into `y + 1` from month 10 on. */
  lemma WithinMarchYear(y: nat, doy: nat, mp: nat)
    requires doy <= 365 && (doy == 365 ==> Leap(y + 1))
    requires mp <= 11 && MarchMonthStart(mp) <= doy < MarchMonthStart(mp + 1)
    ensures var c := MarchDate(y, doy, mp); Valid(c)
    ensures var c := MarchDate(y, doy, mp);
            DayNumber(c) == DaysBeforeYear(y) + (if Leap(y) then 60 else 59) + doy
  {
    MarchMonthTable();
    var m := if mp < 10 then mp + 3 else mp - 9;
    if mp < 10 {
      MonthTable(y);
      assert DaysBeforeMonth(y, m) == (if Leap(y) then 60 else 59) + MarchMonthStart(mp);
      assert MonthLength(y, m) == MarchMonthStart(mp + 1) - MarchMonthStart(mp);
    } else {
      MonthTable(y + 1);
      assert DaysBeforeYear(y + 1) == DaysBeforeYear(y) + YearLength(y);
      assert MarchMonthStart(mp) == 306 + DaysBeforeMonth(y + 1, m);
    }
  }

  function MarchDate(y: nat, doy: nat, mp: nat): Civil
    requires MarchMonthStart(mp) <= doy
  {
    var d := doy - MarchMonthStart(mp) + 1;
    if mp < 10 then Civil(y, mp + 3, d) else Civil(y + 1, mp - 9, d)
  }

  /** The code's date exists in the calendar, and counting to it gives the day it was made from. */
  lemma CivilCountsBack(days: nat)
    ensures Valid(CivilFromDays(days))
    ensures DayNumber(CivilFromDays(days)) == days + EPOCH_DAY
  {
    hide YearOfEra, DayNumber, DaysBeforeYear, Leap, Valid;
    var z := days + MARCH_EPOCH;
    var era := z / 146_097;
    var doe := z % 146_097;
    YearOfEraIsRight(doe);
    var yoe := YearOfEra(doe);
    var doy := doe - MarchDays(yoe);
    MonthIsRight(doy);
    var mp := (5 * doy + 2) / 153;
    var y := 400 * era + yoe;
    assert doy == 365 ==> Leap(y + 1) by {
      NextYearLeap(era, yoe);
    }
    assert CivilFromDays(days) == MarchDate(y, doy, mp);
    WithinMarchYear(y, doy, mp);
    MarchFirst(era, yoe);
  }

  lemma NextYearLeap(era: nat, yoe: nat)
    requires yoe < 400
    ensures Leap(400 * era + yoe + 1) <==> (yoe + 1) % 4 == 0 && ((yoe + 1) % 100 != 0 || yoe + 1 == 400)
  {
    EraRemainders(era, yoe + 1);
    assert 400 * era + yoe + 1 == 400 * era + (yoe + 1);
  }

  /** Dates in the same calendar are ordered by their day numbers, so no two share one. */
  lemma DayNumberOrders(a: Civil, b: Civil)
    requires Valid(a) && Valid(b)
    requires a.year < b.year || (a.year == b.year && (a.month < b.month || (a.month == b.month && a.day < b.day)))
    ensures DayNumber(a) < DayNumber(b)
  {
    MonthTable(a.year);
    MonthTable(b.year);
    if a.year < b.year {
      YearsOrder(a.year + 1, b.year);
    }
  }

  lemma {:induction false} YearsOrder(a: nat, b: nat)
    requires a <= b
    ensures DaysBeforeYear(a) <= DaysBeforeYear(b)
    decreases b - a
  {
    if a < b {
      YearsOrder(a, b - 1);
    }
  }

  /** `CivilFromDays` is the only date the calendar has for a day, so it inverts `DayNumber`. */
  lemma CivilInverts(c: Civil)
    requires Valid(c) && DayNumber(c) >= EPOCH_DAY
    ensures CivilFromDays(DayNumber(c) - EPOCH_DAY) == c
  {
    var b := CivilFromDays(DayNumber(c) - EPOCH_DAY);
    CivilCountsBack(DayNumber(c) - EPOCH_DAY);
    if b != c {
      if b.year < c.year || (b.year == c.year && (b.month < c.month || (b.month == c.month && b.day < c.day))) {
        DayNumberOrders(b, c);
      } else {
        DayNumberOrders(c, b);
      }
    }
  }
}
