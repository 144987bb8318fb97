/** The Gregorian calendar between an epoch and a date, and the one-second step of a date.

    `DateTimeOf` peels whole years, then whole months, off a day count, up to a last year `cap`
    (2100 in the firmware).  The reference it is held against is the opposite direction: the
    formula "Seconds Since the Epoch" of IEEE Std 1003.1-2017, Base Definitions, section 4.16. */
module Calendar {

  const FIRMWARE_CAP := 2100

  datatype DateTime = DateTime(year: int, month: int, day: int,
                               hour: int, minute: int, second: int, weekday: int)

  // ---------------------------------------------------------------- calendar tables

  /** Leap years, RFC 3339, Appendix C. */
  predicate IsLeap(year: int) {
    year % 4 == 0 && (year % 100 != 0 || year % 400 == 0)
  }

  function YearLength(year: int): int {
    if IsLeap(year) then 366 else 365
  }

  function MonthLength(year: int, month: int): int {
    if month == 2 then (if IsLeap(year) then 29 else 28)
    else if month == 4 || month == 6 || month == 9 || month == 11 then 30
    else 31
  }

  /** Days from 1 Jan 1970 to 1 Jan of `year`. */
  function DaysBeforeYear(year: int): int
    decreases year - 1970
  {
    if year <= 1970 then 0 else DaysBeforeYear(year - 1) + YearLength(year - 1)
  }

  /** Days from 1 Jan to the first of `month`. */
  function DaysBeforeMonth(year: int, month: int): int
    decreases month
  {
    if month <= 1 then 0 else DaysBeforeMonth(year, month - 1) + MonthLength(year, month - 1)
  }

  predicate ValidDate(t: DateTime) {
    && 1970 <= t.year
    && 1 <= t.month <= 12
    && 1 <= t.day <= MonthLength(t.year, t.month)
  }

  predicate ValidTime(t: DateTime) {
    0 <= t.hour < 24 && 0 <= t.minute < 60 && 0 <= t.second < 60
  }

  /** IEEE Std 1003.1-2017, Base Definitions, section 4.16, with tm_year = year - 1900. */
  function PosixSeconds(t: DateTime): int {
    var tmYear := t.year - 1900;
    var tmYday := DaysBeforeMonth(t.year, t.month) + t.day - 1;
    t.second + t.minute * 60 + t.hour * 3600 + tmYday * 86400
    + (tmYear - 70) * 31536000 + ((tmYear - 69) / 4) * 86400
    - ((tmYear - 1) / 100) * 86400 + ((tmYear + 299) / 400) * 86400
  }

  /** Day of the week, 0 = Sunday, RFC 3339, Appendix B. */
  function ZellerDay(day: int, month: int, year: int): int {
    var m := if month - 2 < 1 then month + 10 else month - 2;
    var y := if month - 2 < 1 then year - 1 else year;
    var cent := y / 100;
    var yy := y % 100;
    ((26 * m - 2) / 10 + day + yy + yy / 4 + cent / 4 + 5 * cent) % 7
  }

  /** The first epoch after the last second of `cap`. */
  function EndOfYear(cap: int): int {
    DaysBeforeYear(cap + 1) * 86400
  }

  // ---------------------------------------------------------------- the decomposition

  function PeelYears(d: int, year: int, cap: int): (int, int)
    decreases cap - year
  {
    if year >= cap || d < YearLength(year) then (year, d)
    else PeelYears(d - YearLength(year), year + 1, cap)
  }

  function PeelMonths(d: int, year: int, month: int): (int, int)
    decreases 13 - month
  {
    if month > 12 || d < MonthLength(year, month) then (month, d)
    else PeelMonths(d - MonthLength(year, month), year, month + 1)
  }

  function DateTimeOf(epoch: int, cap: int): DateTime {
    var e := if epoch < 0 then 0 else epoch;
    var days := e / 86400;
    var (year, d) := PeelYears(days, 1970, cap);
    var (month, rest) := PeelMonths(d, year, 1);
    DateTime(year, if month > 12 then 12 else month, rest + 1,
             (e / 3600) % 24, (e / 60) % 60, e % 60, (days + 4) % 7)
  }

  /** The firmware's form of the leap-year test. */
  predicate LeapTest(year: int) {
    (year % 4 == 0 && year % 100 != 0) || year % 400 == 0
  }

  lemma LeapTestIsLeap(year: int)
    ensures LeapTest(year) == IsLeap(year)
  {
    DivUnique(year, 4, 100 * (year / 400) + year % 400 / 4);
  }

  const MDAYS := [0, 31, 28, 31, 30, 31, 30, 31, 31, 30, 31, 30, 31]

  lemma MdaysAgree(year: int, month: int)
    requires 1 <= month <= 12
    ensures |MDAYS| == 13
    ensures MDAYS[month] + (if month == 2 && IsLeap(year) then 1 else 0) == MonthLength(year, month)
  {
  }

  /** The firmware's loops.  Its out-pointers are the results; `long` is `int`. */
  method EpochToDateTime(epoch0: int, cap: int)
    returns (year: int, month: int, day: int, hour: int, minute: int, second: int, weekday: int)
    requires 1970 <= cap
    ensures DateTime(year, month, day, hour, minute, second, weekday) == DateTimeOf(epoch0, cap)
  {
    hide IsLeap, LeapTest;
    var epoch := epoch0;
    if epoch < 0 { epoch := 0; }
    second := epoch % 60;
    minute := (epoch / 60) % 60;
    hour := (epoch / 3600) % 24;

    var daysTotal := epoch / 86400;
    weekday := (daysTotal + 4) % 7;

    var d := daysTotal;
    year := 1970;
    while year < cap
      invariant 1970 <= year <= cap
      invariant PeelYears(d, year, cap) == PeelYears(daysTotal, 1970, cap)
    {
      LeapTestIsLeap(year);
      var leap := LeapTest(year);
      var daysInYear := if leap then 366 else 365;
      if d < daysInYear { break; }
      d := d - daysInYear;
      year := year + 1;
    }

    LeapTestIsLeap(year);
    var leap := LeapTest(year);
    ghost var inYear := d;
    month := 1;
    while month <= 12
      invariant 1 <= month <= 13
      invariant PeelMonths(d, year, month) == PeelMonths(inYear, year, 1)
    {
      MdaysAgree(year, month);
      var md := MDAYS[month] + if month == 2 && leap then 1 else 0;
      if d < md { break; }
      d := d - md;
      month := month + 1;
    }
    if month > 12 { month := 12; }
    day := d + 1;
  }

  // ---------------------------------------------------------------- closed forms

  lemma {:induction false} DaysBeforeYearClosed(year: int)
    requires 1970 <= year
    ensures DaysBeforeYear(year)
         == (year - 1970) * 365 + (year - 1969) / 4 - (year - 1901) / 100 + (year - 1601) / 400
    decreases year
  {
    if year == 1970 {
    } else {
      DaysBeforeYearClosed(year - 1);
      Shifted(year - 1);
      Shifted(year - 2);
      LeapDayQuotients(year - 1);
    }
  }

  lemma QuotientStep(x: int, n: int, q: int)
    requires 0 < n && q * n <= x < q * n + n
    ensures x / n == q
    ensures (x - 1) / n == if x == q * n then q - 1 else q
  {
    DivUnique(x, n, q);
    DivUnique(x - 1, n, if x == q * n then q - 1 else q);
  }

  lemma MulMonotone(a: int, b: int, n: int)
    requires a <= b && 0 < n
    ensures a * n <= b * n
  {
  }

  lemma DivUnique(x: int, n: int, q: int)
    requires 0 < n && q * n <= x < q * n + n
    ensures x / n == q
  {
    var p := x / n;
    assert x == p * n + x % n;
    if p < q { MulMonotone(p + 1, q, n); }
    if q < p { MulMonotone(q + 1, p, n); }
  }

  lemma Shifted(y: int)
    ensures (y - 1968) / 4 == y / 4 - 492
    ensures (y - 1900) / 100 == y / 100 - 19
    ensures (y - 1600) / 400 == y / 400 - 4
  {
    DivUnique(y - 1968, 4, y / 4 - 492);
    DivUnique(y - 1900, 100, y / 100 - 19);
    DivUnique(y - 1600, 400, y / 400 - 4);
  }

  lemma LeapDayQuotients(y: int)
    ensures y / 4 - y / 100 + y / 400
         == (y - 1) / 4 - (y - 1) / 100 + (y - 1) / 400 + if IsLeap(y) then 1 else 0
  {
    QuotientStep(y, 4, y / 4);
    QuotientStep(y, 100, y / 100);
    QuotientStep(y, 400, y / 400);
  }

  lemma PosixSecondsByDays(t: DateTime)
    requires 1970 <= t.year
    ensures PosixSeconds(t)
         == (DaysBeforeYear(t.year) + DaysBeforeMonth(t.year, t.month) + t.day - 1) * 86400
            + t.hour * 3600 + t.minute * 60 + t.second
  {
    DaysBeforeYearClosed(t.year);
  }

  lemma MonthsFillYear(year: int)
    ensures DaysBeforeMonth(year, 13) == YearLength(year)
    ensures DaysBeforeMonth(year, 12) == YearLength(year) - 31
  {
    var b := if IsLeap(year) then 1 else 0;
    assert DaysBeforeMonth(year, 4) == 90 + b by { assert DaysBeforeMonth(year, 2) == 31; }
    assert DaysBeforeMonth(year, 7) == 181 + b by { assert DaysBeforeMonth(year, 6) == 151 + b; }
    assert DaysBeforeMonth(year, 10) == 273 + b by { assert DaysBeforeMonth(year, 9) == 243 + b; }
    assert DaysBeforeMonth(year, 12) == 334 + b;
  }

  // ---------------------------------------------------------------- what the two loops find

  lemma {:induction false} PeelYearsSplits(d: int, year: int, cap: int)
    requires 1970 <= year <= cap && 0 <= d
    ensures var r := PeelYears(d, year, cap);
      && year <= r.0 <= cap && 0 <= r.1
      && DaysBeforeYear(year) + d == DaysBeforeYear(r.0) + r.1
      && (r.0 < cap ==> r.1 < YearLength(r.0))
    decreases cap - year
  {
    if year == cap || d < YearLength(year) {
    } else {
      PeelYearsSplits(d - YearLength(year), year + 1, cap);
    }
  }

  lemma {:induction false} PeelMonthsSplits(d: int, year: int, month: int)
    requires 1 <= month <= 13 && 0 <= d
    ensures var r := PeelMonths(d, year, month);
      && month <= r.0 <= 13 && 0 <= r.1
      && DaysBeforeMonth(year, month) + d == DaysBeforeMonth(year, r.0) + r.1
      && (r.0 <= 12 ==> r.1 < MonthLength(year, r.0))
    decreases 13 - month
  {
    if month == 13 || d < MonthLength(year, month) {
    } else {
      PeelMonthsSplits(d - MonthLength(year, month), year, month + 1);
    }
  }

  lemma {:induction false} DaysBeforeYearGrows(a: int, b: int)
    requires 1970 <= a <= b
    ensures DaysBeforeYear(a) + 365 * (b - a) <= DaysBeforeYear(b)
    decreases b - a
  {
    if a == b {
    } else {
      DaysBeforeYearGrows(a, b - 1);
    }
  }

  lemma {:induction false} PeelYearsFinds(year: int, rest: int, from: int, cap: int)
    requires 1970 <= from <= year <= cap && 0 <= rest < YearLength(year)
    ensures PeelYears(DaysBeforeYear(year) - DaysBeforeYear(from) + rest, from, cap) == (year, rest)
    decreases year - from
  {
    if from == year {
    } else {
      DaysBeforeYearGrows(from + 1, year);
      PeelYearsFinds(year, rest, from + 1, cap);
    }
  }

  lemma {:induction false} DaysBeforeMonthGrows(year: int, a: int, b: int)
    requires 1 <= a <= b
    ensures DaysBeforeMonth(year, a) <= DaysBeforeMonth(year, b)
    decreases b - a
  {
    if a == b {
    } else {
      DaysBeforeMonthGrows(year, a, b - 1);
    }
  }

  lemma {:induction false} PeelMonthsFinds(year: int, month: int, rest: int, from: int)
    requires 1 <= from <= month <= 12 && 0 <= rest < MonthLength(year, month)
    ensures PeelMonths(DaysBeforeMonth(year, month) - DaysBeforeMonth(year, from) + rest, year, from)
         == (month, rest)
    decreases month - from
  {
    if from == month {
    } else {
      DaysBeforeMonthGrows(year, from + 1, month);
      PeelMonthsFinds(year, month, rest, from + 1);
    }
  }

  // ---------------------------------------------------------------- main results

  /** The time of day split off by three quotients adds up to the epoch again. */
  lemma TimeOfDayAddsUp(e: int)
    requires 0 <= e
    ensures e == (e / 86400) * 86400 + ((e / 3600) % 24) * 3600 + ((e / 60) % 60) * 60 + e % 60
  {
    assert e / 3600 == (e / 60) / 60;
    assert e / 86400 == (e / 3600) / 24;
  }

  /** Every epoch up to the end of year `cap` yields a valid date and time, and the POSIX
      formula leads back to that epoch. */
  lemma RoundTrip(epoch: int, cap: int)
    requires 1970 <= cap && 0 <= epoch < EndOfYear(cap)
    ensures var t := DateTimeOf(epoch, cap);
      && ValidDate(t) && ValidTime(t) && t.year <= cap && PosixSeconds(t) == epoch
  {
    var days := epoch / 86400;
    var (year, d) := PeelYears(days, 1970, cap);
    PeelYearsSplits(days, 1970, cap);
    assert d < YearLength(year);
    MonthsFillYear(year);
    PeelMonthsSplits(d, year, 1);
    PosixSecondsByDays(DateTimeOf(epoch, cap));
    TimeOfDayAddsUp(epoch);
  }

  lemma PastTheCap(days: int, cap: int)
    requires 1970 <= cap && DaysBeforeYear(cap + 1) <= days
    ensures var (year, d) := PeelYears(days, 1970, cap);
      year == cap && DaysBeforeYear(cap) + d == days
    ensures var (year, d) := PeelYears(days, 1970, cap);
      var (month, rest) := PeelMonths(d, year, 1);
      month == 13 && rest == d - YearLength(cap)
  {
    hide PeelYears, PeelMonths, IsLeap, MonthLength;
    DaysBeforeYearGrows(1970, cap + 1);
    var (year, d) := PeelYears(days, 1970, cap);
    PeelYearsSplits(days, 1970, cap);
    if year < cap {
      DaysBeforeYearGrows(year + 1, cap + 1);
      assert false;
    }
    MonthsFillYear(year);
    PeelMonthsSplits(d, year, 1);
    var (month, rest) := PeelMonths(d, year, 1);
    if month <= 12 {
      DaysBeforeMonthGrows(year, month + 1, 13);
      assert false;
    }
  }

  /** Past the end of year `cap` both clamps act and the date read is 31 days early. */
  lemma BeyondCap(epoch: int, cap: int)
    requires 1970 <= cap && EndOfYear(cap) <= epoch
    ensures PosixSeconds(DateTimeOf(epoch, cap)) == epoch - 31 * 86400
  {
    var days := epoch / 86400;
    DaysBeforeYearGrows(1970, cap + 1);
    DayReached(epoch, DaysBeforeYear(cap + 1));
    PastTheCap(days, cap);
    MonthsFillYear(cap);
    PosixSecondsByDays(DateTimeOf(epoch, cap));
    TimeOfDayAddsUp(epoch);
  }

  /** Every epoch before 1970 reads as its first second, a Thursday. */
  lemma BeforeEpoch(epoch: int, cap: int)
    requires 1970 <= cap && epoch <= 0
    ensures DateTimeOf(epoch, cap) == DateTime(1970, 1, 1, 0, 0, 0, 4)
  {
    assert PeelYears(0, 1970, cap) == (1970, 0) && PeelMonths(0, 1970, 1) == (1, 0);
  }

  /** The cap only concerns the date: hour, minute, second and weekday are right for every epoch. */
  lemma CapLeavesTime(epoch: int, cap: int, wide: int)
    requires 1970 <= cap <= wide && EndOfYear(cap) <= epoch < EndOfYear(wide)
    ensures var t, u := DateTimeOf(epoch, cap), DateTimeOf(epoch, wide);
      && t.hour == u.hour && t.minute == u.minute && t.second == u.second && t.weekday == u.weekday
      && ValidTime(t) && t.weekday == ZellerDay(u.day, u.month, u.year)
      && t.year == cap && t.month == 12 && t.day > 0
  {
    hide ZellerDay;
    DaysBeforeYearGrows(1970, cap + 1);
    RoundTrip(epoch, wide);
    WeekdayIsZeller(epoch, wide);
    DayReached(epoch, DaysBeforeYear(cap + 1));
    PastTheCap(epoch / 86400, cap);
    var (year, d) := PeelYears(epoch / 86400, 1970, cap);
    PeelMonthsSplits(d, year, 1);
    hide PeelYears, PeelMonths, ValidDate, PosixSeconds;
  }

  /** The round trip holds exactly for the epochs from 1970 up to the end of year `cap`. */
  lemma RoundTripExactly(epoch: int, cap: int)
    requires 1970 <= cap
    ensures PosixSeconds(DateTimeOf(epoch, cap)) == epoch <==> 0 <= epoch < EndOfYear(cap)
  {
    if 0 <= epoch < EndOfYear(cap) {
      RoundTrip(epoch, cap);
    } else if epoch < 0 {
      DaysBeforeYearGrows(1970, cap + 1);
      RoundTrip(0, cap);
    } else {
      BeyondCap(epoch, cap);
    }
  }

  lemma DayReached(epoch: int, day: int)
    requires day * 86400 <= epoch
    ensures day <= epoch / 86400
  {
  }

  lemma PosixSecondsInRange(t: DateTime, cap: int)
    requires ValidDate(t) && ValidTime(t) && t.year <= cap
    ensures 0 <= PosixSeconds(t) < EndOfYear(cap)
    ensures PosixSeconds(t) / 86400 == DaysBeforeYear(t.year) + DaysBeforeMonth(t.year, t.month) + t.day - 1
    ensures 0 <= DaysBeforeMonth(t.year, t.month) + t.day - 1 < YearLength(t.year)
  {
    PosixSecondsByDays(t);
    MonthsFillYear(t.year);
    DaysBeforeMonthGrows(t.year, 1, t.month);
    DaysBeforeMonthGrows(t.year, t.month + 1, 13);
    DaysBeforeYearGrows(1970, t.year);
    DaysBeforeYearGrows(t.year + 1, cap + 1);
  }

  lemma DayIsFound(t: DateTime, cap: int)
    requires ValidDate(t) && t.year <= cap
    ensures var inYear := DaysBeforeMonth(t.year, t.month) + t.day - 1;
      && PeelYears(DaysBeforeYear(t.year) + inYear, 1970, cap) == (t.year, inYear)
      && PeelMonths(inYear, t.year, 1) == (t.month, t.day - 1)
  {
    hide PeelYears, PeelMonths;
    MonthsFillYear(t.year);
    DaysBeforeMonthGrows(t.year, 1, t.month);
    DaysBeforeMonthGrows(t.year, t.month + 1, 13);
    PeelYearsFinds(t.year, DaysBeforeMonth(t.year, t.month) + t.day - 1, 1970, cap);
    PeelMonthsFinds(t.year, t.month, t.day - 1, 1);
  }

  lemma DateIsFound(t: DateTime, cap: int)
    requires ValidDate(t) && ValidTime(t) && t.year <= cap
    ensures DateTimeOf(PosixSeconds(t), cap).(weekday := t.weekday) == t
  {
    hide PeelYears, PeelMonths, DaysBeforeYear, DaysBeforeMonth, PosixSeconds, MonthLength, EndOfYear;
    PosixSecondsInRange(t, cap);
    DayIsFound(t, cap);
    PosixSecondsByDays(t);
    SplitTimeOfDay(PosixSeconds(t) / 86400, t.hour, t.minute, t.second);
  }

  lemma SameDateSameEpoch(t: DateTime, u: DateTime)
    ensures u.(weekday := t.weekday) == t ==> PosixSeconds(u) == PosixSeconds(t)
  {
  }

  /** Every valid date and time up to `cap` is produced, and by its POSIX epoch alone. */
  lemma EveryDateOnce(t: DateTime, epoch: int, cap: int)
    requires ValidDate(t) && ValidTime(t) && t.year <= cap
    requires 0 <= epoch < EndOfYear(cap)
    ensures 0 <= PosixSeconds(t) < EndOfYear(cap)
    ensures DateTimeOf(epoch, cap).(weekday := t.weekday) == t <==> epoch == PosixSeconds(t)
  {
    hide DateTimeOf, PosixSeconds;
    PosixSecondsInRange(t, cap);
    DateIsFound(t, cap);
    RoundTrip(epoch, cap);
    SameDateSameEpoch(t, DateTimeOf(epoch, cap));
  }

  lemma SplitTimeOfDay(days: int, hour: int, minute: int, second: int)
    requires 0 <= hour < 24 && 0 <= minute < 60 && 0 <= second < 60
    ensures var e := days * 86400 + hour * 3600 + minute * 60 + second;
      (e / 3600) % 24 == hour && (e / 60) % 60 == minute && e % 60 == second
  {
    var e := days * 86400 + hour * 3600 + minute * 60 + second;
    DivUnique(e, 60, days * 1440 + hour * 60 + minute);
    DivUnique(e, 3600, days * 24 + hour);
    DivUnique(days * 1440 + hour * 60 + minute, 60, days * 24 + hour);
    DivUnique(days * 24 + hour, 24, days);
    assert e == e / 60 * 60 + e % 60;
  }

  // ---------------------------------------------------------------- weekday

  /** The month of a year that begins in March. */
  function MarchMonth(month: int): int {
    if month < 3 then month + 10 else month - 2
  }

  /** Days from 1 March to the first of a March-based month. */
  function MarchDays(m: int): int {
    (153 * (m - 1) + 2) / 5
  }

  lemma MarchDaysOfMonth(year: int, month: int)
    requires 1 <= month <= 12
    ensures DaysBeforeMonth(year, month) + (if month < 3 then 365 else 0)
         == MarchDays(MarchMonth(month)) + 59 + (if month >= 3 && IsLeap(year) then 1 else 0)
  {
    MonthTable(year);
  }

  /** Zeller's month term differs from the days since March by whole weeks. */
  lemma ZellerMonthTerm(m: int) returns (weeks: int)
    requires 1 <= m <= 12
    ensures MarchDays(m) + 2 == (26 * m - 2) / 10 + 7 * weeks
  {
    weeks := 4 * (m - 1);
  }

  lemma MonthTable(year: int)
    ensures var b := if IsLeap(year) then 1 else 0;
      && DaysBeforeMonth(year, 1) == 0 && DaysBeforeMonth(year, 2) == 31
      && DaysBeforeMonth(year, 3) == 59 + b && DaysBeforeMonth(year, 4) == 90 + b
      && DaysBeforeMonth(year, 5) == 120 + b && DaysBeforeMonth(year, 6) == 151 + b
      && DaysBeforeMonth(year, 7) == 181 + b && DaysBeforeMonth(year, 8) == 212 + b
      && DaysBeforeMonth(year, 9) == 243 + b && DaysBeforeMonth(year, 10) == 273 + b
      && DaysBeforeMonth(year, 11) == 304 + b && DaysBeforeMonth(year, 12) == 334 + b
  {
    assert DaysBeforeMonth(year, 2) == 31;
  }

  /** (days + 4) mod 7 is the weekday that RFC 3339 computes from the date. */
  lemma WeekdayIsZeller(epoch: int, cap: int)
    requires 1970 <= cap && 0 <= epoch < EndOfYear(cap)
    ensures var t := DateTimeOf(epoch, cap);
      t.weekday == ZellerDay(t.day, t.month, t.year)
  {
    var t := DateTimeOf(epoch, cap);
    RoundTrip(epoch, cap);
    PosixSecondsInRange(t, cap);
    ZellerCongruence(t.year, t.month, t.day);
  }

  lemma ZellerCongruence(year: int, month: int, day: int)
    requires 1970 <= year && 1 <= month <= 12
    ensures (DaysBeforeYear(year) + DaysBeforeMonth(year, month) + day + 3) % 7
         == ZellerDay(day, month, year)
  {
    var m := MarchMonth(month);
    var y := if month < 3 then year - 1 else year;
    var cent, yy := y / 100, y % 100;
    MarchCount(year, month);
    Centuries(y);
    var weeks := ZellerMonthTerm(m);
    SameModSeven(DaysBeforeYear(year) + DaysBeforeMonth(year, month) + day + 3,
                 (26 * m - 2) / 10 + day + yy + yy / 4 + cent / 4 + 5 * cent,
                 weeks + 52 * y + 17 * cent - 102781);
  }

  lemma SameModSeven(a: int, b: int, k: int)
    requires a == b + 7 * k
    ensures a % 7 == b % 7
  {
  }

  /** Days to the first of `month`, counted in years that begin in March. */
  lemma MarchCount(year: int, month: int)
    requires 1970 <= year && 1 <= month <= 12
    ensures var y := if month < 3 then year - 1 else year;
      DaysBeforeYear(year) + DaysBeforeMonth(year, month)
      == 365 * y + y / 4 - y / 100 + y / 400 + MarchDays(MarchMonth(month)) - 719468
  {
    MarchDaysOfMonth(year, month);
    DaysByWholeQuotients(year);
    LeapDayQuotients(year);
  }

  lemma DaysByWholeQuotients(year: int)
    requires 1970 <= year
    ensures DaysBeforeYear(year)
         == 365 * year + (year - 1) / 4 - (year - 1) / 100 + (year - 1) / 400 - 719527
  {
    DaysBeforeYearClosed(year);
    Shifted(year - 1);
  }

  lemma Centuries(y: int)
    ensures y == 100 * (y / 100) + y % 100
    ensures y / 4 == 25 * (y / 100) + (y % 100) / 4
    ensures y / 400 == (y / 100) / 4
  {
    DivUnique(y, 4, 25 * (y / 100) + (y % 100) / 4);
    DivUnique(y, 400, (y / 100) / 4);
  }

  // ---------------------------------------------------------------- one second later

  function NextDay(t: DateTime): DateTime {
    var w := (t.weekday + 1) % 7;
    if t.day < MonthLength(t.year, t.month) then t.(day := t.day + 1, weekday := w)
    else if t.month < 12 then t.(month := t.month + 1, day := 1, weekday := w)
    else t.(year := t.year + 1, month := 1, day := 1, weekday := w)
  }

  /** The one-second carry of a calendar clock. */
  function NextSecond(t: DateTime): DateTime {
    if t.second < 59 then t.(second := t.second + 1)
    else if t.minute < 59 then t.(minute := t.minute + 1, second := 0)
    else if t.hour < 23 then t.(hour := t.hour + 1, minute := 0, second := 0)
    else NextDay(t).(hour := 0, minute := 0, second := 0)
  }

  /** Lexicographic order on year, month, day, hour, minute, second. */
  predicate Earlier(a: DateTime, b: DateTime) {
    a.year < b.year || (a.year == b.year && (
    a.month < b.month || (a.month == b.month && (
    a.day < b.day || (a.day == b.day && (
    a.hour < b.hour || (a.hour == b.hour && (
    a.minute < b.minute || (a.minute == b.minute &&
    a.second < b.second)))))))))
  }

  lemma NextDayIsOneDay(t: DateTime)
    requires ValidDate(t)
    ensures ValidDate(NextDay(t)) && Earlier(t, NextDay(t))
    ensures DaysBeforeYear(NextDay(t).year) + DaysBeforeMonth(NextDay(t).year, NextDay(t).month) + NextDay(t).day
         == DaysBeforeYear(t.year) + DaysBeforeMonth(t.year, t.month) + t.day + 1
  {
    MonthsFillYear(t.year);
  }

  lemma NextSecondIsOneSecond(t: DateTime)
    requires ValidDate(t) && ValidTime(t)
    ensures var n := NextSecond(t);
      ValidDate(n) && ValidTime(n) && Earlier(t, n) && PosixSeconds(n) == PosixSeconds(t) + 1
  {
    hide PosixSeconds, MonthLength, DaysBeforeMonth, DaysBeforeYear;
    var n := NextSecond(t);
    PosixSecondsByDays(t);
    if t.second == 59 && t.minute == 59 && t.hour == 23 {
      NextDayIsOneDay(t);
    }
    PosixSecondsByDays(n);
  }

  lemma NextWeekday(epoch: int)
    requires 0 <= epoch
    ensures var last := (epoch / 3600) % 24 == 23 && (epoch / 60) % 60 == 59 && epoch % 60 == 59;
      && (epoch + 1) / 86400 == epoch / 86400 + (if last then 1 else 0)
      && ((epoch + 1) / 86400 + 4) % 7
         == if last then ((epoch / 86400 + 4) % 7 + 1) % 7 else (epoch / 86400 + 4) % 7
  {
    var q := epoch / 86400;
    LastSecondOfDay(epoch);
    var last := epoch % 86400 == 86399;
    DivUnique(epoch + 1, 86400, if last then q + 1 else q);
    NextInWeek(q + 4);
  }

  lemma LastSecondOfDay(epoch: int)
    requires 0 <= epoch
    ensures ((epoch / 3600) % 24 == 23 && (epoch / 60) % 60 == 59 && epoch % 60 == 59)
            <==> epoch % 86400 == 86399
  {
    TimeOfDayAddsUp(epoch);
  }

  lemma NextInWeek(x: int)
    ensures (x + 1) % 7 == (x % 7 + 1) % 7
  {
  }

  lemma SuccessorWeekday(epoch: int, cap: int)
    requires 1970 <= cap && 0 <= epoch
    ensures DateTimeOf(epoch + 1, cap).weekday == NextSecond(DateTimeOf(epoch, cap)).weekday
  {
    NextWeekday(epoch);
    WeekdayCarry(DateTimeOf(epoch, cap));
  }

  lemma WeekdayCarry(t: DateTime)
    requires ValidTime(t)
    ensures NextSecond(t).weekday
         == if t.hour == 23 && t.minute == 59 && t.second == 59 then (t.weekday + 1) % 7 else t.weekday
  {
  }

  /** The date of the next epoch is the one-second carry of the date of this one. */
  lemma SuccessorIsCarry(epoch: int, cap: int)
    requires 1970 <= cap && 0 <= epoch && epoch + 1 < EndOfYear(cap)
    ensures DateTimeOf(epoch + 1, cap) == NextSecond(DateTimeOf(epoch, cap))
    ensures Earlier(DateTimeOf(epoch, cap), DateTimeOf(epoch + 1, cap))
  {
    var t := DateTimeOf(epoch, cap);
    var n := NextSecond(t);
    RoundTrip(epoch, cap);
    NextSecondIsOneSecond(t);
    YearWithinCap(n, cap);
    EveryDateOnce(n, epoch + 1, cap);
    SuccessorWeekday(epoch, cap);
  }

  lemma YearWithinCap(t: DateTime, cap: int)
    requires ValidDate(t) && ValidTime(t) && 1970 <= cap && PosixSeconds(t) < EndOfYear(cap)
    ensures t.year <= cap
  {
    if cap < t.year {
      PosixSecondsInRange(t, t.year);
      DaysBeforeYearGrows(cap + 1, t.year);
      assert false;
    }
  }

  lemma EarlierIsAnOrder(a: DateTime, b: DateTime, c: DateTime)
    ensures Earlier(a, b) && Earlier(b, c) ==> Earlier(a, c)
    ensures !(Earlier(a, b) && Earlier(b, a))
  {
  }

  lemma {:induction false} LaterEpochLaterDate(a: int, b: int, cap: int)
    requires 1970 <= cap && 0 <= a < b < EndOfYear(cap)
    ensures Earlier(DateTimeOf(a, cap), DateTimeOf(b, cap))
    decreases b - a
  {
    SuccessorIsCarry(b - 1, cap);
    if a == b - 1 {
    } else {
      LaterEpochLaterDate(a, b - 1, cap);
      EarlierIsAnOrder(DateTimeOf(a, cap), DateTimeOf(b - 1, cap), DateTimeOf(b, cap));
    }
  }

  /** Dates are ordered exactly as their epochs are. */
  lemma EpochOrderIsDateOrder(a: int, b: int, cap: int)
    requires 1970 <= cap && 0 <= a < EndOfYear(cap) && 0 <= b < EndOfYear(cap)
    ensures a < b <==> Earlier(DateTimeOf(a, cap), DateTimeOf(b, cap))
  {
    if a < b {
      LaterEpochLaterDate(a, b, cap);
    } else if b < a {
      LaterEpochLaterDate(b, a, cap);
      EarlierIsAnOrder(DateTimeOf(a, cap), DateTimeOf(b, cap), DateTimeOf(a, cap));
    }
  }

  /** With the firmware's cap the good epochs end on 1 Jan 2101, past any 32-bit `long`. */
  lemma FirmwareRange()
    ensures EndOfYear(FIRMWARE_CAP) == 4133980800
    ensures 0x7fff_ffff < EndOfYear(FIRMWARE_CAP)
  {
    DaysBeforeYearClosed(FIRMWARE_CAP + 1);
  }
}
