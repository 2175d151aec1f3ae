/**
 * date_utils.rs: building a noon-anchored UTC date from year, month and day,
 * and turning a string of epoch seconds into a UTC instant.
 */
module DateUtils {
  import opened Wrappers
  import opened Strings
  import opened Calendar

  const I64Min: int := -0x8000_0000_0000_0000
  const I64Max: int := 0x7FFF_FFFF_FFFF_FFFF

  /** A chrono `DateTime<Utc>` whose sub-second part is zero (the only kind built here). */
  datatype DateTime = DateTime(date: Date, hour: int, minute: int, second: int)

  predicate ValidDateTime(t: DateTime) {
    && Valid(t.date)
    && MinYear <= t.date.year <= MaxYear
    && 0 <= t.hour < 24 && 0 <= t.minute < 60 && 0 <= t.second < 60
  }

  /** Seconds from 1970-01-01T00:00:00Z to `t`. */
  function InstantSeconds(t: DateTime): int {
    DaysOf(t.date) * 86400 + t.hour * 3600 + t.minute * 60 + t.second
  }

  /** `naive_to_utc`: the date at 12:00:00 UTC, when it is a representable calendar date. */
  function NaiveToUtc(y: int, m: int, d: int): (r: Option<DateTime>)
    ensures r.Some? <==> ValidDate(y, m, d) && MinYear <= y <= MaxYear
    ensures r.Some? ==> ValidDateTime(r.value)
    ensures r.Some? ==> r.value.date == Date(y, m, d)
    ensures r.Some? ==> r.value.hour == 12 && r.value.minute == 0 && r.value.second == 0
  {
    if ValidDate(y, m, d) && MinYear <= y <= MaxYear then Some(DateTime(Date(y, m, d), 12, 0, 0))
    else None
  }

  // ---------------------------------------------------------------------------
  // `str::parse::<i64>`

  /** An optional sign followed by at least one ASCII digit. */
  predicate SignedDecimal(s: string) {
    if |s| > 0 && (s[0] == '+' || s[0] == '-') then |s| > 1 && AllDigits(s[1..])
    else |s| > 0 && AllDigits(s)
  }

  function SignedValue(s: string): int
    requires SignedDecimal(s)
  {
    if s[0] == '-' then -(DigitsValue(s[1..]) as int)
    else if s[0] == '+' then DigitsValue(s[1..])
    else DigitsValue(s)
  }

  predicate InI64(v: int) {
    I64Min <= v <= I64Max
  }

  /**
   * The digit loop of the standard library's integer parser up to the `k`-th
   * digit: each step multiplies by ten and adds (or, for a negative number,
   * subtracts) the digit, failing as soon as the value leaves the i64 range
   * or a non-digit is met.
   */
  function Accumulate(digits: string, k: nat, negative: bool): Option<int>
    requires k <= |digits|
  {
    if k == 0 then Some(0)
    else match Accumulate(digits, k - 1, negative)
      case None => None
      case Some(acc) =>
        if !IsDigit(digits[k - 1]) then None
        else
          var next := if negative then acc * 10 - DigitValue(digits[k - 1])
                      else acc * 10 + DigitValue(digits[k - 1]);
          if InI64(next) then Some(next) else None
  }

  lemma {:induction false} AccumulateSpec(digits: string, k: nat, negative: bool)
    requires k <= |digits| && AllDigits(digits)
    ensures AllDigits(digits[..k])
    ensures var v := if negative then -(DigitsValue(digits[..k]) as int) else DigitsValue(digits[..k]);
            Accumulate(digits, k, negative) == if InI64(v) then Some(v) else None
  {
    assert AllDigits(digits[..k]);
    if k > 0 {
      AccumulateSpec(digits, k - 1, negative);
      assert digits[..k][..k - 1] == digits[..k - 1];
    }
  }

  lemma AccumulateNonDigit(digits: string, k: nat, negative: bool)
    requires k <= |digits|
    requires exists j :: 0 <= j < k && !IsDigit(digits[j])
    ensures Accumulate(digits, k, negative) == None
  {
    if k > 0 && IsDigit(digits[k - 1]) {
      AccumulateNonDigit(digits, k - 1, negative);
    }
  }

  /** `str::parse::<i64>`: an optional sign, then the digit loop over the rest. */
  function ParseI64(s: string): (r: Option<int>)
    ensures r.Some? <==> SignedDecimal(s) && InI64(SignedValue(s))
    ensures r.Some? ==> r.value == SignedValue(s)
  {
    var negative := |s| > 0 && s[0] == '-';
    var digits := if |s| > 0 && (s[0] == '+' || s[0] == '-') then s[1..] else s;
    if |digits| == 0 then None
    else
      var r := Accumulate(digits, |digits|, negative);
      assert r.Some? <==> SignedDecimal(s) && InI64(SignedValue(s)) by {
        if AllDigits(digits) {
          AccumulateSpec(digits, |digits|, negative);
          assert digits[..|digits|] == digits;
        } else {
          AccumulateNonDigit(digits, |digits|, negative);
        }
      }
      assert r.Some? ==> r.value == SignedValue(s) by {
        if AllDigits(digits) {
          AccumulateSpec(digits, |digits|, negative);
          assert digits[..|digits|] == digits;
        }
      }
      r
  }

  /** Every i64 printed in decimal parses back to itself. */
  lemma ParseI64RoundTrip(n: int)
    requires InI64(n)
    ensures ParseI64(IntToString(n)) == Some(n)
  {
    var s := IntToString(n);
    if n < 0 {
      assert s[1..] == NatToDigits(-n);
    }
  }

  /** Empty strings and lone signs are refused. */
  lemma ParseI64RejectsEmpty()
    ensures ParseI64("") == None
    ensures ParseI64("+") == None && ParseI64("-") == None
  {
  }

  /** Surrounding whitespace and fractions are refused. */
  lemma ParseI64RejectsNonDigits()
    ensures ParseI64(" 12") == None && ParseI64("12 ") == None
    ensures ParseI64("1.5") == None
  {
    assert !IsDigit(" 12"[0]);
    assert !IsDigit("12 "[2]);
    assert !IsDigit("1.5"[1]);
  }

  /** A leading sign of either kind is accepted. */
  lemma ParseI64Signs()
    ensures ParseI64("+42") == Some(42) && ParseI64("-42") == Some(-42)
  {
    assert "+42"[1..] == "42" && "-42"[1..] == "42";
    assert DigitsValue("42") == 42 by {
      assert "42"[..1] == "4";
    }
  }

  // ---------------------------------------------------------------------------
  // `DateTime::from_timestamp(secs, 0)`

  /**
   * The instant `secs` seconds after the epoch: the day is `secs` divided by
   * 86400 rounded down (Euclidean, so negative values land before 1970), the
   * time of day the remainder; `None` when the day falls outside chrono's
   * year range.
   */
  function FromTimestamp(secs: int): Option<DateTime> {
    var date := CivilFromDays(secs / 86400);
    var sod := secs % 86400;
    if MinYear <= date.year <= MaxYear then Some(DateTime(date, sod / 3600, sod % 3600 / 60, sod % 60))
    else None
  }

  /** When present, the instant is valid and lies exactly `secs` seconds after the epoch. */
  lemma FromTimestampCorrect(secs: int)
    ensures FromTimestamp(secs).Some? <==> MinYear <= CivilFromDays(secs / 86400).year <= MaxYear
    ensures FromTimestamp(secs).Some? ==> ValidDateTime(FromTimestamp(secs).value)
    ensures FromTimestamp(secs).Some? ==> InstantSeconds(FromTimestamp(secs).value) == secs
  {
    var days, sod := secs / 86400, secs % 86400;
    assert secs == days * 86400 + sod;
    CivilFromDaysCorrect(days);
    TimeOfDayParts(sod);
  }

  /** A second of the day splits into hours, minutes and seconds in range. */
  lemma TimeOfDayParts(sod: int)
    requires 0 <= sod < 86400
    ensures 0 <= sod / 3600 < 24 && 0 <= sod % 3600 / 60 < 60 && 0 <= sod % 60 < 60
    ensures sod == sod / 3600 * 3600 + sod % 3600 / 60 * 60 + sod % 60
  {
    var h, r := sod / 3600, sod % 3600;
    assert sod == h * 3600 + r;
    assert r == r / 60 * 60 + r % 60;
    assert r % 60 == sod % 60 by {
      assert sod == (h * 60) * 60 + r;
    }
  }

  lemma SplitSeconds(days: int, tod: int)
    requires 0 <= tod < 86400
    ensures (days * 86400 + tod) / 86400 == days
    ensures (days * 86400 + tod) % 86400 == tod
  {
  }

  lemma SplitTimeOfDay(h: int, mi: int, sec: int)
    requires 0 <= h < 24 && 0 <= mi < 60 && 0 <= sec < 60
    ensures var tod := h * 3600 + mi * 60 + sec;
            tod / 3600 == h && tod % 3600 / 60 == mi && tod % 60 == sec
  {
    var tod := h * 3600 + mi * 60 + sec;
    assert tod % 3600 == mi * 60 + sec;
    assert tod % 60 == sec by {
      assert tod == (h * 60 + mi) * 60 + sec;
    }
  }

  /** Every valid instant is the conversion of its own epoch seconds. */
  lemma FromTimestampUnique(t: DateTime)
    requires ValidDateTime(t)
    ensures FromTimestamp(InstantSeconds(t)) == Some(t)
  {
    var days, tod := DaysOf(t.date), t.hour * 3600 + t.minute * 60 + t.second;
    var secs := InstantSeconds(t);
    assert secs == days * 86400 + tod;
    SplitTimeOfDay(t.hour, t.minute, t.second);
    SplitSeconds(days, tod);
    assert secs / 86400 == days && secs % 86400 == tod;
    DaysFromCivilCorrect(t.date);
    assert CivilFromDays(secs / 86400) == t.date;
  }

  /** Adding 86400 seconds moves the instant to the same time on the next calendar day. */
  lemma FromTimestampNextDay(secs: int)
    requires FromTimestamp(secs).Some? && FromTimestamp(secs + 86400).Some?
    ensures Valid(FromTimestamp(secs).value.date)
    ensures FromTimestamp(secs + 86400).value.date == NextDay(FromTimestamp(secs).value.date)
    ensures FromTimestamp(secs + 86400).value.hour == FromTimestamp(secs).value.hour
    ensures FromTimestamp(secs + 86400).value.minute == FromTimestamp(secs).value.minute
    ensures FromTimestamp(secs + 86400).value.second == FromTimestamp(secs).value.second
  {
    var days := secs / 86400;
    assert (secs + 86400) / 86400 == days + 1;
    assert (secs + 86400) % 86400 == secs % 86400;
    DayAfter(days, (secs + 86400) / 86400);
  }

  /** `CivilFromDaysSucc` for a following day count given by any expression equal to it. */
  lemma DayAfter(days: int, next: int)
    requires next == days + 1
    ensures Valid(CivilFromDays(days))
    ensures CivilFromDays(next) == NextDay(CivilFromDays(days))
  {
    CivilFromDaysSucc(days);
  }

  /** Zero seconds is midnight of 1970-01-01. */
  lemma FromTimestampEpoch()
    ensures FromTimestamp(0) == Some(DateTime(Date(1970, 1, 1), 0, 0, 0))
  {
    var t := DateTime(Date(1970, 1, 1), 0, 0, 0);
    assert DaysOf(t.date) == 0 by {
      assert MarchStart(1969) == 719162 by {
        assert 1969 / 400 == 4 && 1969 % 400 == 369;
      }
      assert MonthStart(10) == 306;
    }
    FromTimestampUnique(t);
  }

  /** Negative seconds land before 1970: minus one second is the last second of 1969. */
  lemma FromTimestampBeforeEpoch()
    ensures FromTimestamp(-1) == Some(DateTime(Date(1969, 12, 31), 23, 59, 59))
  {
    var t := DateTime(Date(1969, 12, 31), 23, 59, 59);
    assert DaysOf(t.date) == -1 by {
      assert MarchStart(1969) == 719162 by {
        assert 1969 / 400 == 4 && 1969 % 400 == 369;
      }
      assert MonthStart(9) == 275;
    }
    FromTimestampUnique(t);
  }

  /** The noon anchor is the instant 43200 seconds into the day. */
  lemma NaiveToUtcInstant(y: int, m: int, d: int)
    requires NaiveToUtc(y, m, d).Some?
    ensures InstantSeconds(NaiveToUtc(y, m, d).value) == DaysFromCivil(y, m, d) * 86400 + 43200
    ensures FromTimestamp(DaysFromCivil(y, m, d) * 86400 + 43200) == NaiveToUtc(y, m, d)
  {
    FromTimestampUnique(NaiveToUtc(y, m, d).value);
  }

  /** `timestamp_string_to_date`: parse the seconds, then convert. */
  function TimestampStringToDate(s: string): (r: Option<DateTime>)
    ensures ParseI64(s).None? ==> r.None?
    ensures r.Some? ==> ValidDateTime(r.value) && InstantSeconds(r.value) == ParseI64(s).value
  {
    match ParseI64(s)
    case None => None
    case Some(secs) =>
      FromTimestampCorrect(secs);
      FromTimestamp(secs)
  }

  /** The string "0" is the epoch itself. */
  lemma TimestampStringOfEpoch()
    ensures TimestampStringToDate("0") == Some(DateTime(Date(1970, 1, 1), 0, 0, 0))
  {
    assert DigitsValue("0") == 0;
    FromTimestampEpoch();
  }

  /** Writing an instant's epoch seconds in decimal and reading them back gives the instant. */
  lemma TimestampStringRoundTrip(t: DateTime)
    requires ValidDateTime(t) && InI64(InstantSeconds(t))
    ensures TimestampStringToDate(IntToString(InstantSeconds(t))) == Some(t)
  {
    ParseI64RoundTrip(InstantSeconds(t));
    FromTimestampUnique(t);
  }
}
