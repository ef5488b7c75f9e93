/**
 Timestamps: the conversion of a Unix day count to a proleptic Gregorian date, against a
 reference calendar that only knows the month-length table of RFC 3339 (section 5.7) and the
 leap-year rule (Appendix C).
 */
module Calendar {

  datatype Date = Date(year: int, month: int, day: int)

  datatype Stamp = Stamp(date: Date, hour: int, minute: int, second: int, millis: int)

  const EPOCH := Date(1970, 1, 1)

  // ----- The reference calendar -----

  predicate IsLeap(year: int) {
    year % 4 == 0 && (year % 100 != 0 || year % 400 == 0)
  }

  function MonthLength(year: int, month: int): int {
    if month == 2 then (if IsLeap(year) then 29 else 28)
    else if month == 4 || month == 6 || month == 9 || month == 11 then 30
    else 31
  }

  predicate ValidDate(d: Date) {
    d.year >= 1 && 1 <= d.month <= 12 && 1 <= d.day <= MonthLength(d.year, d.month)
  }

  /** The day after `d`: next in the month, first of the next month, or New Year. */
  function NextDay(d: Date): Date {
    if d.day < MonthLength(d.year, d.month) then d.(day := d.day + 1)
    else if d.month < 12 then Date(d.year, d.month + 1, 1)
    else Date(d.year + 1, 1, 1)
  }

  /** The calendar read off a day at a time, `n` days after the epoch. */
  function DateAfter(n: nat): Date {
    if n == 0 then EPOCH else NextDay(DateAfter(n - 1))
  }

  predicate Earlier(a: Date, b: Date) {
    a.year < b.year
    || (a.year == b.year && a.month < b.month)
    || (a.year == b.year && a.month == b.month && a.day < b.day)
  }

  function DaysBeforeMonth(year: int, month: int): int
    requires 1 <= month <= 12
    decreases month
  {
    if month == 1 then 0 else DaysBeforeMonth(year, month - 1) + MonthLength(year, month - 1)
  }

  function DaysBeforeYear(year: int): int {
    365 * (year - 1) + (year - 1) / 4 - (year - 1) / 100 + (year - 1) / 400
  }

  /** Days from the epoch to `d`: the inverse of the conversion. */
  function DaysFromDate(d: Date): int
    requires 1 <= d.month <= 12
  {
    DaysBeforeYear(d.year) + DaysBeforeMonth(d.year, d.month) + d.day - 1 - 719_162
  }

  // ----- The conversion -----

  function YearOfEra(dayOfEra: int): int {
    (dayOfEra - dayOfEra / 1_460 + dayOfEra / 36_524 - dayOfEra / 146_096) / 365
  }

  /** The date of day `dayOfYear` of the year that starts on 1 March of `year`. */
  function DateInMarchYear(year: int, dayOfYear: int): Date {
    var monthPrime := (5 * dayOfYear + 2) / 153;
    var day := dayOfYear - (153 * monthPrime + 2) / 5 + 1;
    var month := monthPrime + (if monthPrime < 10 then 3 else -9);
    Date(if month <= 2 then year + 1 else year, month, day)
  }

  function DateInEra(era: int, dayOfEra: int): Date {
    var yearOfEra := YearOfEra(dayOfEra);
    DateInMarchYear(yearOfEra + era * 400,
                    dayOfEra - (365 * yearOfEra + yearOfEra / 4 - yearOfEra / 100))
  }

  function DateFromDays(days: int): Date {
    var z := days + 719_468;
    var era := z / 146_097;
    DateInEra(era, z - era * 146_097)
  }

  function UtcTimestamp(unixSeconds: nat, millis: nat): Stamp {
    var secondsInDay := unixSeconds % 86_400;
    Stamp(DateFromDays(unixSeconds / 86_400),
          secondsInDay / 3_600, (secondsInDay % 3_600) / 60, secondsInDay % 60, millis)
  }

  // ----- Proofs -----

  /** Day number, within a 400-year era of March-based years, on which year `y` starts. */
  function YearStart(y: int): int {
    365 * y + y / 4 - y / 100
  }

  /** Division is determined by a quotient and a remainder in range. */
  lemma Quotient(n: int, d: int, q: int, r: int)
    requires d > 0 && n == d * q + r && 0 <= r < d
    ensures n / d == q && n % d == r
  {
    var p := n / d - q;
    assert d * p + (n % d - r) == 0;
    assert p > 0 ==> d * p >= d;
    assert p < 0 ==> d * p <= -d;
  }

  /** A day `k` into the year with century `c`, four-year block `a` and year `b` in the block. */
  lemma YearOfEraSplit(c: int, a: int, b: int, k: int)
    requires 0 <= c <= 3 && 0 <= a <= 24 && 0 <= b <= 3 && 0 <= k <= 365
    requires k == 365 ==> b == 3 && (a < 24 || c == 3)
    ensures var y := 100 * c + 4 * a + b;
            && YearOfEra(36_524 * c + 1_461 * a + 365 * b + k) == y
            && YearStart(y) == 36_524 * c + 1_461 * a + 365 * b
  {
    var doe := 36_524 * c + 1_461 * a + 365 * b + k;
    var y := 100 * c + 4 * a + b;
    Quotient(y, 100, c, 4 * a + b);
    Quotient(y, 4, 25 * c + a, b);
    var rest := 24 * c + a + 365 * b + k;
    var e := if rest >= 1_460 then 1 else 0;
    Quotient(doe, 1_460, 25 * c + a + e, rest - 1_460 * e);
    var last := if doe == 146_096 then 1 else 0;
    Quotient(doe, 36_524, c + last, doe - 36_524 * (c + last));
    Quotient(doe, 146_096, last, doe - 146_096 * last);
    Quotient(doe - (25 * c + a + e) + c, 365, y, k - e);
  }

  lemma SplitDayOfEra(doe: int) returns (c: int, a: int, b: int, k: int)
    requires 0 <= doe < 146_097
    ensures 0 <= c <= 3 && 0 <= a <= 24 && 0 <= b <= 3 && 0 <= k <= 365
    ensures doe == 36_524 * c + 1_461 * a + 365 * b + k
    ensures k == 365 ==> b == 3 && (a < 24 || c == 3)
  {
    c := if doe == 146_096 then 3 else doe / 36_524;
    var r := doe - 36_524 * c;
    assert 0 <= c <= 3 && 0 <= r <= 36_524;
    a := r / 1_461;
    var s := r - 1_461 * a;
    assert 0 <= a <= 24 && 0 <= s < 1_461;
    b := if s == 1_460 then 3 else s / 365;
    k := s - 365 * b;
  }

  /** Every day of an era lies in the year the division formula names. */
  lemma YearOfEraCorrect(doe: int)
    requires 0 <= doe < 146_097
    ensures var y := YearOfEra(doe);
            && 0 <= y < 400
            && 0 <= doe - YearStart(y) <= 365
            && (doe - YearStart(y) == 365 ==> y % 4 == 3 && (y % 100 != 99 || y == 399))
  {
    var c, a, b, k := SplitDayOfEra(doe);
    YearOfEraSplit(c, a, b, k);
    Quotient(YearOfEra(doe), 100, c, 4 * a + b);
    Quotient(YearOfEra(doe), 4, 25 * c + a, b);
  }

  /** The (153m + 2) / 5 month table, read against the month lengths of the reference calendar. */
  lemma MonthTable(year: int, month: int)
    requires 3 <= month <= 12
    ensures DaysBeforeMonth(year, month) == (if IsLeap(year) then 60 else 59) + (153 * (month - 3) + 2) / 5
    decreases month
  {
    if month == 3 {
      assert DaysBeforeMonth(year, 2) == 31;
    } else {
      MonthTable(year, month - 1);
    }
  }

  /** Splitting a day of a March-based year into month and day. */
  lemma MonthFromDayOfYear(doy: int)
    requires 0 <= doy <= 365
    ensures var mp := (5 * doy + 2) / 153;
            var day := doy - (153 * mp + 2) / 5 + 1;
            && 0 <= mp <= 11
            && 1 <= day
            && (mp < 11 ==> day <= MonthLength(1, if mp < 10 then mp + 3 else mp - 9))
            && (mp == 11 ==> day == doy - 336 <= 29)
  {
  }

  lemma ModuloOfShift(n: int, q: int)
    ensures (n + 400 * q) % 400 == n % 400
    ensures (n + 400 * q) % 100 == n % 100
    ensures (n + 400 * q) % 4 == n % 4
  {
    Quotient(n + 400 * q, 400, n / 400 + q, n % 400);
    Quotient(n + 400 * q, 100, n / 100 + 4 * q, n % 100);
    Quotient(n + 400 * q, 4, n / 4 + 100 * q, n % 4);
  }

  /** The March-based year `y` of an era ends in a leap day exactly when the next year is leap. */
  lemma LeapDay(y: int, era: int)
    requires 0 <= y < 400
    ensures IsLeap(y + 1 + 400 * era) <==> y % 4 == 3 && (y % 100 != 99 || y == 399)
  {
    ModuloOfShift(y + 1, era);
    assert (y + 1) % 4 == 0 <==> y % 4 == 3;
    assert (y + 1) % 100 == 0 <==> y % 100 == 99;
    assert (y + 1) % 400 == 0 <==> y == 399;
  }

  lemma EraDays(y: int, era: int)
    requires 0 <= y < 400
    ensures DaysBeforeYear(y + 400 * era + 1) == 146_097 * era + YearStart(y)
  {
    var n := y + 400 * era;
    Quotient(n, 400, era, y);
    Quotient(n, 100, y / 100 + 4 * era, y % 100);
    Quotient(n, 4, y / 4 + 100 * era, y % 4);
  }

  lemma YearLength(year: int)
    ensures DaysBeforeYear(year + 1) - DaysBeforeYear(year) == if IsLeap(year) then 366 else 365
  {
    var n := year - 1;
    assert (n + 1) / 4 == n / 4 + if (n + 1) % 4 == 0 then 1 else 0;
    assert (n + 1) / 100 == n / 100 + if (n + 1) % 100 == 0 then 1 else 0;
    assert (n + 1) / 400 == n / 400 + if (n + 1) % 400 == 0 then 1 else 0;
  }

  /** Day `doy` of the year that starts on 1 March of `year`. */
  lemma DateInMarchYearCorrect(year: int, doy: int)
    requires year >= 1 && 0 <= doy <= 365
    requires doy == 365 ==> IsLeap(year + 1)
    ensures var d := DateInMarchYear(year, doy);
            ValidDate(d) && DaysFromDate(d) == DaysBeforeYear(year + 1) + doy - 306 - 719_162
  {
    MonthFromDayOfYear(doy);
    var mp := (5 * doy + 2) / 153;
    if mp < 10 {
      MonthTable(year, mp + 3);
      YearLength(year);
    } else {
      assert DaysBeforeMonth(year + 1, 1) == 0;
      assert DaysBeforeMonth(year + 1, 2) == 31;
    }
  }

  lemma DateInEraYear(era: int, y: int, doy: int)
    requires era >= 1 && 0 <= y < 400 && 0 <= doy <= 365
    requires doy == 365 ==> y % 4 == 3 && (y % 100 != 99 || y == 399)
    ensures var d := DateInMarchYear(y + era * 400, doy);
            ValidDate(d) && DaysFromDate(d) == 146_097 * era + YearStart(y) + doy - 719_468
  {
    LeapDay(y, era);
    EraDays(y, era);
    DateInMarchYearCorrect(y + era * 400, doy);
  }

  lemma DateInEraCorrect(era: int, doe: int)
    requires 0 <= doe < 146_097 && era >= 1
    ensures var d := DateInEra(era, doe);
            ValidDate(d) && DaysFromDate(d) == 146_097 * era + doe - 719_468
  {
    hide DateInMarchYear, DaysFromDate, ValidDate, YearOfEra;
    YearOfEraCorrect(doe);
    DateInEraYear(era, YearOfEra(doe), doe - YearStart(YearOfEra(doe)));
  }

  /** The conversion yields a real date, and the inverse returns the day count. */
  lemma DateFromDaysCorrect(days: nat)
    ensures ValidDate(DateFromDays(days))
    ensures DaysFromDate(DateFromDays(days)) == days
  {
    var z := days + 719_468;
    DateInEraCorrect(z / 146_097, z % 146_097);
  }

  // ----- The reference calendar and the inverse -----

  lemma MonthsAddUp(year: int, month: int)
    requires 1 <= month <= 12
    ensures DaysBeforeMonth(year, month) + MonthLength(year, month)
            <= if IsLeap(year) then 366 else 365
    ensures month == 12 ==> DaysBeforeMonth(year, month) + MonthLength(year, month)
                            == if IsLeap(year) then 366 else 365
  {
    if month == 2 {
      assert DaysBeforeMonth(year, 1) == 0;
    } else if month >= 3 {
      MonthTable(year, month);
    }
  }

  lemma NextDayIsNext(d: Date)
    requires ValidDate(d)
    ensures ValidDate(NextDay(d))
    ensures Earlier(d, NextDay(d))
    ensures DaysFromDate(NextDay(d)) == DaysFromDate(d) + 1
  {
    MonthsAddUp(d.year, d.month);
    YearLength(d.year);
    assert DaysBeforeMonth(d.year + 1, 1) == 0;
  }

  lemma {:induction false} MonthsIncrease(year: int, m: int, n: int)
    requires 1 <= m < n <= 12
    ensures DaysBeforeMonth(year, m) + MonthLength(year, m) <= DaysBeforeMonth(year, n)
    decreases n
  {
    if m < n - 1 {
      MonthsIncrease(year, m, n - 1);
    }
  }

  lemma {:induction false} YearsIncrease(a: int, b: int)
    requires a < b
    ensures DaysBeforeYear(a) + (if IsLeap(a) then 366 else 365) <= DaysBeforeYear(b)
    decreases b - a
  {
    YearLength(b - 1);
    if a < b - 1 {
      YearsIncrease(a, b - 1);
    }
  }

  /** Day numbers order dates: the inverse is strictly monotone, hence injective. */
  lemma DaysFollowDates(a: Date, b: Date)
    requires ValidDate(a) && ValidDate(b)
    ensures Earlier(a, b) <==> DaysFromDate(a) < DaysFromDate(b)
    ensures DaysFromDate(a) == DaysFromDate(b) ==> a == b
  {
    if Earlier(a, b) { EarlierHasFewerDays(a, b); }
    if Earlier(b, a) { EarlierHasFewerDays(b, a); }
  }

  lemma EarlierHasFewerDays(a: Date, b: Date)
    requires ValidDate(a) && ValidDate(b) && Earlier(a, b)
    ensures DaysFromDate(a) < DaysFromDate(b)
  {
    if a.year < b.year {
      YearsIncrease(a.year, b.year);
      MonthsAddUp(a.year, a.month);
      MonthsNonNegative(b.year, b.month);
    } else if a.month < b.month {
      MonthsIncrease(a.year, a.month, b.month);
    }
  }

  lemma MonthsNonNegative(year: int, month: int)
    requires 1 <= month <= 12
    ensures DaysBeforeMonth(year, month) >= 0
  {
  }

  /** The conversion is onto: every valid date from the epoch on is hit, by its own day number. */
  lemma EveryDateIsReached(d: Date)
    requires ValidDate(d) && DaysFromDate(d) >= 0
    ensures DateFromDays(DaysFromDate(d)) == d
  {
    DateFromDaysCorrect(DaysFromDate(d));
    DaysFollowDates(DateFromDays(DaysFromDate(d)), d);
  }

  lemma {:induction false} ReferenceCountsDays(n: nat)
    ensures ValidDate(DateAfter(n)) && DaysFromDate(DateAfter(n)) == n
  {
    if n == 0 {
      assert DaysBeforeMonth(1970, 1) == 0;
    } else {
      ReferenceCountsDays(n - 1);
      NextDayIsNext(DateAfter(n - 1));
    }
  }

  /** The conversion of `n` days is the reference calendar stepped `n` times from the epoch. */
  lemma DateFromDaysIsTheCalendar(n: nat)
    ensures DateFromDays(n) == DateAfter(n)
  {
    DateFromDaysCorrect(n);
    ReferenceCountsDays(n);
    DaysFollowDates(DateFromDays(n), DateAfter(n));
  }

  /** Later days give strictly later dates. */
  lemma LaterDaysAreLaterDates(m: nat, n: nat)
    ensures m < n <==> Earlier(DateFromDays(m), DateFromDays(n))
  {
    DateFromDaysCorrect(m);
    DateFromDaysCorrect(n);
    DaysFollowDates(DateFromDays(m), DateFromDays(n));
  }

  function SecondsFromStamp(t: Stamp): int
    requires 1 <= t.date.month <= 12
  {
    86_400 * DaysFromDate(t.date) + 3_600 * t.hour + 60 * t.minute + t.second
  }

  lemma ClockRoundTrip(unixSeconds: nat)
    ensures var r := unixSeconds % 86_400;
            && unixSeconds == 86_400 * (unixSeconds / 86_400) + r
            && r == 3_600 * (r / 3_600) + 60 * ((r % 3_600) / 60) + r % 60
            && r / 3_600 < 24 && (r % 3_600) / 60 < 60
  {
    var r := unixSeconds % 86_400;
    var s := r % 3_600;
    assert r == 3_600 * (r / 3_600) + s;
    assert r % 60 == s % 60;
  }

  /** A timestamp has fields in range and determines the second it was made from. */
  lemma UtcTimestampRoundTrip(unixSeconds: nat, millis: nat)
    ensures var t := UtcTimestamp(unixSeconds, millis);
            && ValidDate(t.date)
            && 0 <= t.hour < 24 && 0 <= t.minute < 60 && 0 <= t.second < 60
            && SecondsFromStamp(t) == unixSeconds
            && t.millis == millis
  {
    DateFromDaysCorrect(unixSeconds / 86_400);
    ClockRoundTrip(unixSeconds);
  }
}
