/**
 * Calendar days as integers (day 0 is 1970-01-01, the JavaScript epoch), the
 * proleptic Gregorian civil date of a day, `getUTCDay`, and the RFC 3339
 * `full-date` text `YYYY-MM-DD` that `toISOString().slice(0, 10)` produces.
 *
 * Days and civil dates are converted with the era-based algorithm (400-year
 * eras of 146097 days, years counted from March so that the leap day ends the
 * year). Dafny's `/` and `%` on `int` are Euclidean, which for the positive
 * divisors used here is floor division, as the algorithm requires.
 */
module Calendar {
  import opened Wrappers

  datatype Civil = Civil(year: int, month: int, day: int)

  /** Days from 0000-03-01 to the 1st of March of year `yoe` of an era. */
  function YearStart(yoe: int): int
  {
    365 * yoe + yoe / 4 - yoe / 100
  }

  /** Days from the 1st of March to the first day of month index `mp` (0 = March). */
  function MonthStart(mp: int): int
  {
    (153 * mp + 2) / 5
  }

  /** The day number of a civil date; a day past the end of its month rolls over. */
  function DaysFromCivil(c: Civil): int
  {
    var y := if c.month <= 2 then c.year - 1 else c.year;
    var era := y / 400;
    var yoe := y - era * 400;
    var mp := if c.month > 2 then c.month - 3 else c.month + 9;
    var doy := MonthStart(mp) + c.day - 1;
    var doe := YearStart(yoe) + doy;
    era * 146097 + doe - 719468
  }

  /**
   * The year of era (0..399) that holds day `doe` of a 400-year era: the era is
   * cut into centuries of 36524 days (the last one a day longer), a century into
   * four-year blocks of 1461 days, a block into years of 365 days (the last one
   * a day longer).
   */
  function YearOfEra(doe: int): (yoe: int)
    requires 0 <= doe < 146097
    ensures 0 <= yoe <= 399
    ensures YearStart(yoe) <= doe <= YearStart(yoe) + 365
    ensures doe == YearStart(yoe) + 365 ==> LongYear(yoe)
  {
    var c := if doe / 36524 < 4 then doe / 36524 else 3;
    var rc := doe - 36524 * c;
    var q := rc / 1461;
    var rq := rc - 1461 * q;
    var t := if rq / 365 < 4 then rq / 365 else 3;
    var yoe := 100 * c + 4 * q + t;
    assert 0 <= q <= 24;
    assert yoe / 4 == 25 * c + q && yoe / 100 == c;
    assert YearStart(yoe) == 36524 * c + 1461 * q + 365 * t;
    assert doe == YearStart(yoe) + 365 ==> LongYear(yoe) by {
      if doe == YearStart(yoe) + 365 {
        // only the last year of a four-year block has a 366th day
        assert rq / 365 >= 4 && t == 3 && rq == 1460;
        assert (yoe + 1) % 4 == 0;
        if q == 24 {
          // a century's last block is a day short, unless it ends the era
          assert rc == 36524;
          assert doe / 36524 >= 4 && c == 3;
        }
      }
    }
    yoe
  }

  /**
   * Year `yoe` of an era has 366 days: the civil year its February falls in,
   * `yoe + 1` of the era, is a leap year.
   */
  predicate LongYear(yoe: int)
  {
    (yoe + 1) % 4 == 0 && ((yoe + 1) % 100 != 0 || yoe == 399)
  }

  /** The Gregorian leap years. */
  predicate IsLeap(y: int)
  {
    y % 4 == 0 && (y % 100 != 0 || y % 400 == 0)
  }

  /** The length of month `m` (1 = January) of year `y`. */
  function DaysInMonth(y: int, m: int): int
  {
    if m == 2 then (if IsLeap(y) then 29 else 28)
    else if m == 4 || m == 6 || m == 9 || m == 11 then 30
    else 31
  }

  /** A civil date that names a day of the calendar: a month 1..12 and a day within it. */
  predicate IsValidDate(c: Civil)
  {
    1 <= c.month <= 12 && 1 <= c.day <= DaysInMonth(c.year, c.month)
  }

  /** The civil year of the February of year `yoe` of an era is a leap year exactly when that year is long. */
  lemma LeapOfEra(era: int, yoe: int)
    requires 0 <= yoe <= 399
    ensures IsLeap(yoe + era * 400 + 1) <==> LongYear(yoe)
  {
    var a := yoe + 1;
    EraShift(a, era);
  }

  /** Whole eras of 400 years do not change a year's remainders by 4, 100 and 400. */
  lemma EraShift(a: int, era: int)
    ensures var y := a + era * 400;
      y % 4 == a % 4 && y % 100 == a % 100 && y % 400 == a % 400
  {
    Shift4(a, era * 100);
    Shift100(a, era * 4);
    Shift400(a, era);
  }

  lemma Shift4(a: int, q: int)
    ensures (a + 4 * q) % 4 == a % 4
  {
  }

  lemma Shift100(a: int, q: int)
    ensures (a + 100 * q) % 100 == a % 100
  {
  }

  lemma Shift400(a: int, q: int)
    ensures (a + 400 * q) % 400 == a % 400
  {
  }

  /** From March on, the distance between month starts is the month's length (February aside). */
  lemma MonthLength(y: int, mp: int)
    requires 0 <= mp <= 10
    ensures MonthStart(mp + 1) - MonthStart(mp) == DaysInMonth(y, if mp < 10 then mp + 3 else mp - 9)
  {
  }

  /** The month index (0 = March) and the day of month for a day `doy` of a March-based year. */
  lemma YearDay(doy: int)
    requires 0 <= doy <= 365
    ensures var mp := (5 * doy + 2) / 153;
      0 <= mp <= 11 && MonthStart(mp) <= doy && doy - MonthStart(mp) <= 30
      && (mp < 11 ==> doy < MonthStart(mp + 1))
  {
  }

  /** The civil date of day `doe` of the 400-year era `era` (eras start on 1 March). */
  function CivilOfEra(era: int, doe: int): Civil
    requires 0 <= doe < 146097
  {
    var yoe := YearOfEra(doe);
    var doy := doe - YearStart(yoe);
    YearDay(doy);
    var mp := (5 * doy + 2) / 153;
    var m := if mp < 10 then mp + 3 else mp - 9;
    Civil(yoe + era * 400 + (if m <= 2 then 1 else 0), m, doy - MonthStart(mp) + 1)
  }

  /** Every date `CivilOfEra` produces has a month 1..12 and a day within that month. */
  lemma CivilOfEraValid(era: int, doe: int)
    requires 0 <= doe < 146097
    ensures IsValidDate(CivilOfEra(era, doe))
  {
    var yoe := YearOfEra(doe);
    var doy := doe - YearStart(yoe);
    YearDay(doy);
    var mp := (5 * doy + 2) / 153;
    var m := if mp < 10 then mp + 3 else mp - 9;
    var y := yoe + era * 400 + (if m <= 2 then 1 else 0);
    if mp < 11 {
      MonthLength(y, mp);
    } else {
      LeapOfEra(era, yoe);
    }
  }

  /** `DaysFromCivil` maps the date of day `doe` of era `era` back to that day. */
  lemma CivilOfEraRoundTrip(era: int, doe: int)
    requires 0 <= doe < 146097
    ensures DaysFromCivil(CivilOfEra(era, doe)) == era * 146097 + doe - 719468
  {
    var yoe := YearOfEra(doe);
    var doy := doe - YearStart(yoe);
    YearDay(doy);
    var mp := (5 * doy + 2) / 153;
    var m := if mp < 10 then mp + 3 else mp - 9;
    var d := doy - MonthStart(mp) + 1;
    assert CivilOfEra(era, doe) == Civil(yoe + era * 400 + (if m <= 2 then 1 else 0), m, d);
    DaysFromCivilParts(era, yoe, mp, d);
  }

  /** The civil date of day number `z`. */
  function CivilFromDays(z: int): (c: Civil)
    ensures 1 <= c.month <= 12 && 1 <= c.day <= 31
  {
    var z' := z + 719468;
    var era := z' / 146097;
    CivilOfEra(era, z' - era * 146097)
  }

  /** The civil date of a day is valid: its day lies within its month's length, leap years included. */
  lemma CivilFromDaysValid(z: int)
    ensures IsValidDate(CivilFromDays(z))
  {
    var z' := z + 719468;
    var era := z' / 146097;
    CivilOfEraValid(era, z' - era * 146097);
  }

  /** Converting a day to its civil date and back gives the same day. */
  lemma {:induction false} CivilRoundTrip(z: int)
    ensures DaysFromCivil(CivilFromDays(z)) == z
  {
    var z' := z + 719468;
    var era := z' / 146097;
    CivilOfEraRoundTrip(era, z' - era * 146097);
  }

  /** `DaysFromCivil` undoes the last step of `CivilFromDays`. */
  lemma DaysFromCivilParts(era: int, yoe: int, mp: int, d: int)
    requires 0 <= yoe <= 399 && 0 <= mp <= 11
    ensures var m := if mp < 10 then mp + 3 else mp - 9;
      DaysFromCivil(Civil(yoe + era * 400 + (if m <= 2 then 1 else 0), m, d))
      == era * 146097 + YearStart(yoe) + MonthStart(mp) + d - 1 - 719468
  {
    var y := yoe + era * 400;
    assert y / 400 == era;
  }

  // ---------------------------------------------------------------------------
  // Weekday
  // ---------------------------------------------------------------------------

  /** `getUTCDay()` of day `z`: 0 is Sunday, 1 Monday, ..., 6 Saturday; day 0 was a Thursday. */
  function UtcWeekday(z: int): (w: int)
    ensures 0 <= w <= 6
  {
    (z + 4) % 7
  }

  // ---------------------------------------------------------------------------
  // The RFC 3339 full-date text
  // ---------------------------------------------------------------------------

  /** 0000-03-01, the first day of the era the calendar starts from. */
  const MinDay: int := -719468
  /** 9999-12-31, the last day whose ISO text has a four-digit year. */
  const MaxDay: int := 2932896

  /** The days for which `toISOString()` writes `YYYY-MM-DD` with a four-digit year. */
  predicate InRange(z: int)
  {
    MinDay <= z <= MaxDay
  }

  /** Days in range have a civil year that fits in four digits. */
  lemma EraInRange(z: int)
    requires InRange(z)
    ensures 0 <= (z + 719468) / 146097 <= 24
  {
  }

  lemma YearInRange(z: int)
    requires InRange(z)
    ensures 0 <= CivilFromDays(z).year <= 9999
  {
    var z' := z + 719468;
    var era := z' / 146097;
    var doe := z' - era * 146097;
    var yoe := YearOfEra(doe);
    var doy := doe - YearStart(yoe);
    EraInRange(z);
    YearDay(doy);
    var mp := (5 * doy + 2) / 153;
    var m := if mp < 10 then mp + 3 else mp - 9;
    assert CivilFromDays(z).year == yoe + era * 400 + (if m <= 2 then 1 else 0);
    if era == 24 && yoe == 399 {
      assert doy <= 305;
      assert mp <= 9;
    }
  }

  function DigitChar(d: int): (c: char)
    requires 0 <= d <= 9
    ensures '0' <= c <= '9'
  {
    ('0' as int + d) as char
  }

  function DigitValue(c: char): int
  {
    c as int - '0' as int
  }

  /**
   * The text `YYYY-MM-DD` of day `z`: `toISOString().slice(0, 10)`. Its fields
   * are the civil date of `z`, so it is a valid RFC 3339 `full-date`.
   */
  function FullDate(z: int): (s: string)
    requires InRange(z)
    ensures IsFullDateText(s)
  {
    YearInRange(z);
    var c := CivilFromDays(z);
    var y, m, d := c.year, c.month, c.day;
    [DigitChar(y / 1000), DigitChar(y / 100 % 10), DigitChar(y / 10 % 10), DigitChar(y % 10), '-',
     DigitChar(m / 10), DigitChar(m % 10), '-', DigitChar(d / 10), DigitChar(d % 10)]
  }

  /** The fields of the text of day `z` are the civil date of `z`. */
  lemma FullDateFields(z: int)
    requires InRange(z)
    ensures DateFields(FullDate(z)) == CivilFromDays(z)
  {
    YearInRange(z);
    var c := CivilFromDays(z);
    FourDigits(c.year);
    TwoDigits(c.month);
    TwoDigits(c.day);
  }

  /** The text of a day is a valid date: a month 01..12 and a day within that month's length. */
  lemma FullDateValid(z: int)
    requires InRange(z)
    ensures IsValidDate(DateFields(FullDate(z)))
  {
    FullDateFields(z);
    CivilFromDaysValid(z);
  }

  /** Ten characters: digits, with a `-` at offsets 4 and 7. */
  predicate IsFullDateText(s: string)
  {
    |s| == 10 && s[4] == '-' && s[7] == '-'
    && forall i :: 0 <= i < 10 && i != 4 && i != 7 ==> '0' <= s[i] <= '9'
  }

  /** The year, month and day that the digits of a `YYYY-MM-DD` text spell. */
  function DateFields(s: string): Civil
    requires IsFullDateText(s)
  {
    Civil(DigitValue(s[0]) * 1000 + DigitValue(s[1]) * 100 + DigitValue(s[2]) * 10 + DigitValue(s[3]),
          DigitValue(s[5]) * 10 + DigitValue(s[6]),
          DigitValue(s[8]) * 10 + DigitValue(s[9]))
  }

  /**
   * The day that `new Date(s + "T00:00:00Z")` stands for, or None for an
   * Invalid Date. A day number past the end of its month rolls over into the
   * next month, as the V8 engine's date parser does.
   */
  function ParseFullDate(s: string): (r: Option<int>)
    ensures r.Some? ==> IsFullDateText(s)
  {
    if !IsFullDateText(s) then None
    else
      var c := DateFields(s);
      if 1 <= c.month <= 12 && 1 <= c.day <= 31 then Some(DaysFromCivil(c)) else None
  }

  lemma DigitRoundTrip(d: int)
    requires 0 <= d <= 9
    ensures DigitValue(DigitChar(d)) == d
  {
  }

  lemma TwoDigits(n: int)
    requires 0 <= n <= 99
    ensures DigitValue(DigitChar(n / 10)) * 10 + DigitValue(DigitChar(n % 10)) == n
  {
    DigitRoundTrip(n / 10);
    DigitRoundTrip(n % 10);
  }

  lemma FourDigits(n: int)
    requires 0 <= n <= 9999
    ensures DigitValue(DigitChar(n / 1000)) * 1000 + DigitValue(DigitChar(n / 100 % 10)) * 100
          + DigitValue(DigitChar(n / 10 % 10)) * 10 + DigitValue(DigitChar(n % 10)) == n
  {
    DigitRoundTrip(n / 1000);
    DigitRoundTrip(n / 100 % 10);
    DigitRoundTrip(n / 10 % 10);
    DigitRoundTrip(n % 10);
    assert n == n / 10 * 10 + n % 10;
    assert n / 10 == n / 100 * 10 + n / 10 % 10;
    assert n / 100 == n / 1000 * 10 + n / 100 % 10;
  }

  /** Parsing the text of a day gives that day back. */
  lemma ParseFullDateOfFullDate(z: int)
    requires InRange(z)
    ensures ParseFullDate(FullDate(z)) == Some(z)
  {
    FullDateFields(z);
    CivilRoundTrip(z);
  }

  /** Different days in range have different texts. */
  lemma FullDateInjective(z1: int, z2: int)
    requires InRange(z1) && InRange(z2) && FullDate(z1) == FullDate(z2)
    ensures z1 == z2
  {
    ParseFullDateOfFullDate(z1);
    ParseFullDateOfFullDate(z2);
  }
}
