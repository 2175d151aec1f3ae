/**
 * The proleptic Gregorian calendar as chrono implements it: calendar
 * validity, its representable year range, and the conversion between a
 * civil date and a count of days since 1970-01-01.
 *
 * Days are counted through a March-based year (1 March starts the year, so
 * that the leap day is the last day of the year) inside 400-year eras of
 * 146097 days.
 */
module Calendar {

  /** The years chrono's `NaiveDate` can represent. */
  const MinYear: int := -262143
  const MaxYear: int := 262142

  predicate IsLeapYear(y: int) {
    y % 4 == 0 && (y % 100 != 0 || y % 400 == 0)
  }

  function DaysInMonth(y: int, m: int): int
    requires 1 <= m <= 12
  {
    if m == 2 then (if IsLeapYear(y) then 29 else 28)
    else if m == 4 || m == 6 || m == 9 || m == 11 then 30
    else 31
  }

  predicate ValidDate(y: int, m: int, d: int) {
    1 <= m <= 12 && 1 <= d <= DaysInMonth(y, m)
  }

  datatype Date = Date(year: int, month: int, day: int)

  predicate Valid(dt: Date) {
    ValidDate(dt.year, dt.month, dt.day)
  }

  /** The following calendar day. */
  function NextDay(dt: Date): Date
    requires Valid(dt)
  {
    if dt.day < DaysInMonth(dt.year, dt.month) then Date(dt.year, dt.month, dt.day + 1)
    else if dt.month < 12 then Date(dt.year, dt.month + 1, 1)
    else Date(dt.year + 1, 1, 1)
  }

  /** Days from 1 March to the first day of March-based month `mp` (March = 0, February = 11). */
  function MonthStart(mp: int): int {
    (153 * mp + 2) / 5
  }

  /** The calendar month of March-based month `mp`. */
  function MarchMonth(mp: int): int {
    if mp < 10 then mp + 3 else mp - 9
  }

  /** Days from 1 March of the first year of an era to 1 March of its year `yoe`. */
  function YearStart(yoe: int): int {
    365 * yoe + yoe / 4 - yoe / 100
  }

  /** Length of the March-based year `yoe` of an era (its February lies in year `yoe + 1`). */
  function YearLength(yoe: int): int {
    if IsLeapYear(yoe + 1) then 366 else 365
  }

  /** Days from 0000-03-01 to 1 March of year `y`. */
  function MarchStart(y: int): int {
    (y / 400) * 146097 + YearStart(y % 400)
  }

  /** Days from 1970-01-01 to the given civil date (Hinnant's `days_from_civil`). */
  function DaysFromCivil(y: int, m: int, d: int): int {
    var yp := if m <= 2 then y - 1 else y;
    var mp := if m > 2 then m - 3 else m + 9;
    MarchStart(yp) + MonthStart(mp) + d - 1 - 719468
  }

  function DaysOf(dt: Date): int {
    DaysFromCivil(dt.year, dt.month, dt.day)
  }

  /**
   * Splits a day of an era into its March-based year and the day within that
   * year, by centuries (36524 days), four-year cycles (1461 days) and years.
   */
  function SplitDayOfEra(doe: int): (r: (int, int))
    requires 0 <= doe < 146097
    ensures 0 <= r.0 < 400 && 0 <= r.1 < YearLength(r.0)
    ensures doe == YearStart(r.0) + r.1
  {
    var c := if doe / 36524 < 4 then doe / 36524 else 3;
    var doc := doe - 36524 * c;
    assert 0 <= doc <= 36524;
    assert c < 3 ==> doc < 36524;
    var q := doc / 1461;
    var doq := doc % 1461;
    var k := if doq / 365 < 4 then doq / 365 else 3;
    var doy := doq - 365 * k;
    var yoe := 100 * c + 4 * q + k;
    assert 0 <= q <= 24 && 0 <= k <= 3 && 0 <= doy <= 365;
    assert yoe / 4 == 25 * c + q;
    assert yoe / 100 == c;
    assert doy == 365 ==> k == 3 && doq == 1460;
    assert doy == 365 ==> (yoe + 1) % 4 == 0;
    assert doy == 365 && q == 24 ==> c == 3;
    assert doy == 365 ==> IsLeapYear(yoe + 1);
    (yoe, doy)
  }

  /** The civil date `z` days after 1970-01-01 (the inverse of `DaysFromCivil`). */
  function CivilFromDays(z: int): Date {
    var zz := z + 719468;
    var era := zz / 146097;
    var (yoe, doy) := SplitDayOfEra(zz % 146097);
    var mp := (5 * doy + 2) / 153;
    var m := MarchMonth(mp);
    Date(era * 400 + yoe + (if m <= 2 then 1 else 0), m, doy - MonthStart(mp) + 1)
  }

  // ---------------------------------------------------------------------------
  // Arithmetic facts about the March-based layout

  /** Adding whole multiples of 4, 100 or 400 leaves the remainders leap years depend on unchanged. */
  lemma ModFourShift(q: int, y: int)
    ensures (4 * q + y) % 4 == y % 4
  {
  }

  lemma ModHundredShift(q: int, y: int)
    ensures (100 * q + y) % 100 == y % 100
  {
  }

  lemma ModFourHundredShift(q: int, y: int)
    ensures (400 * q + y) % 400 == y % 400
  {
  }

  lemma LeapPeriodic(y: int, era: int)
    ensures IsLeapYear(era * 400 + y) == IsLeapYear(y)
  {
    var a, b := era * 100, era * 4;
    assert era * 400 + y == 4 * a + y == 100 * b + y == 400 * era + y;
    ModFourShift(a, y);
    ModHundredShift(b, y);
    ModFourHundredShift(era, y);
  }

  lemma EraSplit(era: int, yoe: int)
    requires 0 <= yoe < 400
    ensures (era * 400 + yoe) / 400 == era && (era * 400 + yoe) % 400 == yoe
  {
  }

  /** Each March-based month's span is the length of its calendar month (February excepted). */
  lemma MonthSpan(mp: int)
    requires 0 <= mp <= 10
    ensures MonthStart(mp + 1) - MonthStart(mp) == DaysInMonth(0, MarchMonth(mp))
  {
    if mp == 0 { assert MonthStart(0) == 0 && MonthStart(1) == 31; }
    else if mp == 1 { assert MonthStart(1) == 31 && MonthStart(2) == 61; }
    else if mp == 2 { assert MonthStart(2) == 61 && MonthStart(3) == 92; }
    else if mp == 3 { assert MonthStart(3) == 92 && MonthStart(4) == 122; }
    else if mp == 4 { assert MonthStart(4) == 122 && MonthStart(5) == 153; }
    else if mp == 5 { assert MonthStart(5) == 153 && MonthStart(6) == 184; }
    else if mp == 6 { assert MonthStart(6) == 184 && MonthStart(7) == 214; }
    else if mp == 7 { assert MonthStart(7) == 214 && MonthStart(8) == 245; }
    else if mp == 8 { assert MonthStart(8) == 245 && MonthStart(9) == 275; }
    else if mp == 9 { assert MonthStart(9) == 275 && MonthStart(10) == 306; }
    else { assert MonthStart(10) == 306 && MonthStart(11) == 337; }
  }

  /** The month formula finds the March-based month containing a day of the year. */
  lemma MonthOfDay(doy: int)
    requires 0 <= doy <= 365
    ensures 0 <= (5 * doy + 2) / 153 <= 11
    ensures MonthStart((5 * doy + 2) / 153) <= doy < MonthStart((5 * doy + 2) / 153 + 1)
  {
  }

  /** ... and that month is the only one containing it. */
  lemma MonthOfDayUnique(mp: int, doy: int)
    requires 0 <= mp <= 11
    requires MonthStart(mp) <= doy < MonthStart(mp + 1)
    ensures (5 * doy + 2) / 153 == mp
  {
  }

  /** Moving a March-based year forward adds that year's length. */
  lemma MarchStartStep(y: int)
    ensures MarchStart(y + 1) == MarchStart(y) + (if IsLeapYear(y + 1) then 366 else 365)
  {
    var era, yoe := y / 400, y % 400;
    assert y == era * 400 + yoe;
    LeapPeriodic(yoe + 1, era);
    assert y + 1 == era * 400 + (yoe + 1);
    if yoe < 399 {
      EraSplit(era, yoe + 1);
      YearStartStep(yoe);
    } else {
      EraSplit(era + 1, 0);
      assert y + 1 == (era + 1) * 400;
      assert MarchStart(y + 1) == (era + 1) * 146097;
      assert YearStart(399) == 145731;
    }
  }

  /** Inside an era, each March-based year starts where the previous one ends. */
  lemma YearStartStep(yoe: int)
    requires 0 <= yoe < 399
    ensures YearStart(yoe + 1) == YearStart(yoe) + YearLength(yoe)
  {
    var c, q, k := yoe / 100, (yoe % 100) / 4, yoe % 4;
    assert yoe == 100 * c + 4 * q + k;
    assert 0 <= q <= 24 && 0 <= k <= 3;
    if k < 3 {
      assert yoe + 1 == 100 * c + 4 * q + (k + 1);
      assert (yoe + 1) / 4 == yoe / 4 && (yoe + 1) / 100 == yoe / 100;
      assert (yoe + 1) % 4 != 0;
    } else if q < 24 {
      assert yoe + 1 == 100 * c + 4 * (q + 1);
      assert (yoe + 1) / 4 == yoe / 4 + 1 && (yoe + 1) / 100 == yoe / 100;
      assert (yoe + 1) % 100 != 0;
    } else {
      assert yoe + 1 == 100 * (c + 1);
      assert (yoe + 1) / 4 == yoe / 4 + 1 && (yoe + 1) / 100 == yoe / 100 + 1;
      assert (yoe + 1) % 400 != 0 <==> c < 3;
    }
  }

  /** A year of an era as centuries, four-year cycles and years, and where it starts. */
  lemma YearOfEraParts(yoe: int) returns (c: int, q: int, k: int)
    requires 0 <= yoe < 400
    ensures yoe == 100 * c + 4 * q + k
    ensures 0 <= c <= 3 && 0 <= q <= 24 && 0 <= k <= 3
    ensures YearStart(yoe) == 36524 * c + 1461 * q + 365 * k
    ensures IsLeapYear(yoe + 1) ==> k == 3 && (q == 24 ==> c == 3)
  {
    c, q, k := yoe / 100, (yoe % 100) / 4, yoe % 4;
    assert yoe / 4 == 25 * c + q;
    if IsLeapYear(yoe + 1) {
      assert (yoe + 1) % 4 == 0;
      if q == 24 && k == 3 {
        assert yoe + 1 == 100 * (c + 1);
        assert (yoe + 1) % 400 == 0;
      }
    }
  }

  lemma DivEra(zz: int, era: int, rest: int)
    requires 0 <= rest < 146097 && zz == 146097 * era + rest
    ensures zz / 146097 == era && zz % 146097 == rest
  {
  }

  lemma DivCentury(c: int, rest: int)
    requires 0 <= rest < 36524
    ensures (36524 * c + rest) / 36524 == c
  {
  }

  lemma DivCycle(q: int, rest: int)
    requires 0 <= rest < 1461
    ensures (1461 * q + rest) / 1461 == q && (1461 * q + rest) % 1461 == rest
  {
  }

  lemma DivYear(k: int, rest: int)
    requires 0 <= rest < 365
    ensures (365 * k + rest) / 365 == k
  {
  }

  /** `SplitDayOfEra` inverts `YearStart(yoe) + doy` for every day of every year of an era. */
  lemma SplitDayOfEraUnique(yoe: int, doy: int)
    requires 0 <= yoe < 400 && 0 <= doy < YearLength(yoe)
    ensures 0 <= YearStart(yoe) + doy < 146097
    ensures SplitDayOfEra(YearStart(yoe) + doy) == (yoe, doy)
  {
    var c0, q0, k0 := YearOfEraParts(yoe);
    var doq := 365 * k0 + doy;
    var rest := 1461 * q0 + doq;
    var doe := YearStart(yoe) + doy;
    assert doe == 36524 * c0 + rest;
    assert 0 <= doq < 1461;
    assert 0 <= rest <= 36524 && (rest == 36524 ==> c0 == 3);
    var c := if doe / 36524 < 4 then doe / 36524 else 3;
    if rest < 36524 {
      DivCentury(c0, rest);
    } else {
      assert doe == 36524 * 4;
    }
    assert c == c0;
    DivCycle(q0, doq);
    var k := if doq / 365 < 4 then doq / 365 else 3;
    if doy < 365 {
      DivYear(k0, doy);
    } else {
      assert doq == 365 * 4;
    }
    assert k == k0;
  }

  // ---------------------------------------------------------------------------
  // The two round trips

  /** The pieces `CivilFromDays` computes, named for the proofs below. */
  lemma CivilFromDaysParts(z: int) returns (era: int, yoe: int, doy: int, mp: int)
    ensures era == (z + 719468) / 146097
    ensures (yoe, doy) == SplitDayOfEra((z + 719468) % 146097)
    ensures 0 <= yoe < 400 && 0 <= doy < YearLength(yoe) && 0 <= mp <= 11
    ensures z + 719468 == era * 146097 + YearStart(yoe) + doy
    ensures MonthStart(mp) <= doy < MonthStart(mp + 1)
    ensures CivilFromDays(z) == Date(era * 400 + yoe + (if mp >= 10 then 1 else 0),
                                     MarchMonth(mp), doy - MonthStart(mp) + 1)
  {
    var zz := z + 719468;
    era := zz / 146097;
    var doe := zz % 146097;
    assert zz == era * 146097 + doe;
    var r := SplitDayOfEra(doe);
    yoe, doy := r.0, r.1;
    MonthOfDay(doy);
    mp := (5 * doy + 2) / 153;
    var m := MarchMonth(mp);
    assert m <= 2 <==> mp >= 10;
  }

  /** Every day count denotes a valid date. */
  lemma {:induction false} CivilFromDaysValid(z: int)
    ensures Valid(CivilFromDays(z))
  {
    var era, yoe, doy, mp := CivilFromDaysParts(z);
    if mp <= 10 {
      MonthSpan(mp);
    } else {
      assert MonthStart(11) == 337 && MonthStart(12) == 367;
      LeapPeriodic(yoe + 1, era);
      assert era * 400 + yoe + 1 == era * 400 + (yoe + 1);
    }
  }

  /** Counting the days of the date `z` converts to gives back `z`. */
  lemma {:induction false} CivilFromDaysCorrect(z: int)
    ensures Valid(CivilFromDays(z))
    ensures DaysOf(CivilFromDays(z)) == z
  {
    CivilFromDaysValid(z);
    var era, yoe, doy, mp := CivilFromDaysParts(z);
    DaysOfCivil(CivilFromDays(z), era, yoe, doy, mp);
  }

  /** Counting the days of a date given by its era, year of era, day of year and month. */
  lemma DaysOfCivil(dt: Date, era: int, yoe: int, doy: int, mp: int)
    requires 0 <= yoe < 400 && 0 <= mp <= 11
    requires dt == Date(era * 400 + yoe + (if mp >= 10 then 1 else 0), MarchMonth(mp), doy - MonthStart(mp) + 1)
    ensures DaysOf(dt) == era * 146097 + YearStart(yoe) + doy - 719468
  {
    var m := MarchMonth(mp);
    var yp := if m <= 2 then dt.year - 1 else dt.year;
    assert yp == era * 400 + yoe;
    EraSplit(era, yoe);
    assert MarchStart(yp) == era * 146097 + YearStart(yoe);
    assert (if m > 2 then m - 3 else m + 9) == mp;
  }

  /** The pieces `DaysFromCivil` computes for a valid date, named for the proof below. */
  lemma DaysOfParts(dt: Date) returns (era: int, yoe: int, doy: int, mp: int)
    requires Valid(dt)
    ensures 0 <= yoe < 400 && 0 <= doy < YearLength(yoe) && 0 <= mp <= 11
    ensures DaysOf(dt) == era * 146097 + YearStart(yoe) + doy - 719468
    ensures MonthStart(mp) <= doy < MonthStart(mp + 1)
    ensures dt == Date(era * 400 + yoe + (if mp >= 10 then 1 else 0),
                       MarchMonth(mp), doy - MonthStart(mp) + 1)
  {
    var y, m, d := dt.year, dt.month, dt.day;
    var yp := if m <= 2 then y - 1 else y;
    mp := if m > 2 then m - 3 else m + 9;
    era, yoe := yp / 400, yp % 400;
    assert yp == era * 400 + yoe;
    doy := MonthStart(mp) + d - 1;
    if mp <= 10 {
      MonthSpan(mp);
      assert MarchMonth(mp) == m;
      assert MonthStart(10) == 306;
    } else {
      assert MonthStart(11) == 337 && MonthStart(12) == 367;
      LeapPeriodic(yoe + 1, era);
      assert y == era * 400 + (yoe + 1);
    }
  }

  /** Counting the days of a valid date and converting back gives the date. */
  lemma {:induction false} DaysFromCivilCorrect(dt: Date)
    requires Valid(dt)
    ensures CivilFromDays(DaysOf(dt)) == dt
  {
    var era, yoe, doy, mp := DaysOfParts(dt);
    CivilOfParts(DaysOf(dt), era, yoe, doy, mp);
  }

  /** Converting a day given by its era, year of era, day of year and month gives back those parts. */
  lemma CivilOfParts(z: int, era: int, yoe: int, doy: int, mp: int)
    requires 0 <= yoe < 400 && 0 <= doy < YearLength(yoe) && 0 <= mp <= 11
    requires MonthStart(mp) <= doy < MonthStart(mp + 1)
    requires z == era * 146097 + YearStart(yoe) + doy - 719468
    ensures CivilFromDays(z)
         == Date(era * 400 + yoe + (if mp >= 10 then 1 else 0), MarchMonth(mp), doy - MonthStart(mp) + 1)
  {
    var era', yoe', doy', mp' := CivilFromDaysParts(z);
    SplitDayOfEraUnique(yoe, doy);
    DivEra(z + 719468, era, YearStart(yoe) + doy);
    assert era' == era && yoe' == yoe && doy' == doy;
    MonthOfDayUnique(mp, doy);
    MonthOfDayUnique(mp', doy);
  }

  /** The day count advances by exactly one from a date to the next. */
  lemma DaysOfNextDay(dt: Date)
    requires Valid(dt)
    ensures Valid(NextDay(dt))
    ensures DaysOf(NextDay(dt)) == DaysOf(dt) + 1
  {
    var y, m, d := dt.year, dt.month, dt.day;
    if d < DaysInMonth(y, m) {
    } else if m == 2 {
      MarchStartStep(y - 1);
      assert MonthStart(11) == 337 && MonthStart(0) == 0;
    } else if m < 12 {
      var mp := if m > 2 then m - 3 else m + 9;
      MonthSpan(mp);
      assert MarchMonth(mp) == m;
    } else {
      MonthSpan(9);
    }
  }

  /** Converting day `z + 1` gives the day after the conversion of `z`. */
  lemma {:induction false} CivilFromDaysSucc(z: int)
    ensures Valid(CivilFromDays(z))
    ensures CivilFromDays(z + 1) == NextDay(CivilFromDays(z))
  {
    CivilFromDaysCorrect(z);
    var dt := CivilFromDays(z);
    DaysOfNextDay(dt);
    DaysFromCivilCorrect(NextDay(dt));
  }

  /** The count of a date is zero exactly at the Unix epoch. */
  lemma EpochIsDayZero()
    ensures DaysFromCivil(1970, 1, 1) == 0
    ensures CivilFromDays(0) == Date(1970, 1, 1)
  {
    DaysFromCivilCorrect(Date(1970, 1, 1));
  }
}
