/** The build date's calendar arithmetic, against the proleptic Gregorian calendar. */
module Civil {
  import opened Base

  datatype Date = Date(year: int, month: int, day: int)

  // ----- The calendar -----

  /** The leap rule of Appendix C of RFC 3339. */
  predicate IsLeap(year: int) {
    year % 4 == 0 && (year % 100 != 0 || year % 400 == 0)
  }

  /** The month lengths of section 5.7 of RFC 3339. */
  function DaysInMonth(year: int, month: int): int
    requires 1 <= month <= 12
  {
    if month == 2 then (if IsLeap(year) then 29 else 28)
    else if month == 4 || month == 6 || month == 9 || month == 11 then 30
    else 31
  }

  predicate IsDate(d: Date) {
    1 <= d.month <= 12 && 1 <= d.day <= DaysInMonth(d.year, d.month)
  }

  function NextDay(d: Date): Date
    requires IsDate(d)
  {
    if d.day < DaysInMonth(d.year, d.month) then d.(day := d.day + 1)
    else if d.month < 12 then Date(d.year, d.month + 1, 1)
    else Date(d.year + 1, 1, 1)
  }

  // ----- The code -----

  /** Division that truncates toward zero. */
  function Quotient(a: int, b: int): int
    requires b > 0
  {
    if a >= 0 then a / b else -((-a) / b)
  }

  function YearOfEra(doe: int): int {
    (doe - doe / 1460 + doe / 36_524 - doe / 146_096) / 365
  }

  function DayOfYear(doe: int, yoe: int): int {
    doe - (365 * yoe + yoe / 4 - yoe / 100)
  }

  /** A day of a year that starts in March, as a month and a day. */
  function MonthDay(doy: int): (int, int) {
    var mp := (5 * doy + 2) / 153;
    (if mp < 10 then mp + 3 else mp - 9, doy - (153 * mp + 2) / 5 + 1)
  }

  function Era(z: int): int {
    Quotient(if z >= 0 then z else z - 146_096, 146_097)
  }

  function DateInEra(era: int, doe: int): Date {
    var yoe := YearOfEra(doe);
    var y := yoe + era * 400;
    var (m, d) := MonthDay(DayOfYear(doe, yoe));
    Date(if m <= 2 then y + 1 else y, m, d)
  }

  /** `civil_from_days`; every division after the first is of a value that is not negative. */
  function CivilFromDays(days: int): Date {
    var z := days + 719_468;
    DateInEra(Era(z), z - Era(z) * 146_097)
  }

  // ----- Its inverse -----

  /** Days before each month of a year that starts in March. */
  function DaysBefore(mp: int): int
    requires 0 <= mp <= 11
  {
    [0, 31, 61, 92, 122, 153, 184, 214, 245, 275, 306, 337][mp]
  }

  /** The day number of a date, counted from 1970-01-01. */
  function DaysFromCivil(d: Date): int
    requires IsDate(d)
  {
    var y := if d.month <= 2 then d.year - 1 else d.year;
    var mp := if d.month > 2 then d.month - 3 else d.month + 9;
    365 * y + y / 4 - y / 100 + y / 400 + DaysBefore(mp) + d.day - 1 - 719_468
  }

  /** Days count up by one from each date to the next. */
  lemma DaysFromNext(d: Date)
    requires IsDate(d)
    ensures IsDate(NextDay(d)) && DaysFromCivil(NextDay(d)) == DaysFromCivil(d) + 1
  {
    if d.month == 2 && d.day == DaysInMonth(d.year, 2) {
      LeapDays(d.year);
    }
  }

  lemma LeapDays(y: int)
    ensures (y / 4 - y / 100 + y / 400) - ((y - 1) / 4 - (y - 1) / 100 + (y - 1) / 400) == if IsLeap(y) then 1 else 0
  {
    StepQuotient(y, 4);
    StepQuotient(y, 100);
    StepQuotient(y, 400);
    Divides(y);
  }

  lemma StepQuotient(y: int, k: int)
    requires k == 4 || k == 100 || k == 400
    ensures y / k - (y - 1) / k == if y % k == 0 then 1 else 0
  {
  }

  lemma Divides(y: int)
    ensures y % 400 == 0 ==> y % 100 == 0
    ensures y % 100 == 0 ==> y % 4 == 0
  {
    if y % 400 == 0 {
      var k := 4 * (y / 400);
      assert y == 100 * k;
    }
    if y % 100 == 0 {
      var k := 25 * (y / 100);
      assert y == 4 * k;
    }
  }

  // ----- Inside one era of 400 years -----

  /** Year `100c + 4q + r` of an era has a 366th day: the February it ends with is a leap one. */
  predicate Long(c: int, q: int, r: int) {
    r == 3 && (q != 24 || c == 3)
  }

  predicate InEra(c: int, q: int, r: int, doy: int) {
    0 <= c <= 3 && 0 <= q <= 24 && 0 <= r <= 3 && 0 <= doy <= 365 && (doy == 365 ==> Long(c, q, r))
  }

  function DayOfEra(c: int, q: int, r: int, doy: int): int {
    36_524 * c + 1461 * q + 365 * r + doy
  }

  /** The code's year formula inverts the day count of the era. */
  lemma YearFormula(c: int, q: int, r: int, doy: int)
    requires InEra(c, q, r, doy)
    ensures 0 <= DayOfEra(c, q, r, doy) <= 146_096
    ensures YearOfEra(DayOfEra(c, q, r, doy)) == 100 * c + 4 * q + r
    ensures DayOfYear(DayOfEra(c, q, r, doy), 100 * c + 4 * q + r) == doy
  {
    var doe, yoe := DayOfEra(c, q, r, doy), 100 * c + 4 * q + r;
    var e := LeapDaysPassed(c, q, r, doy);
    CenturiesPassed(c, q, r, doy);
    assert doe - doe / 1460 + doe / 36_524 - doe / 146_096 == 365 * yoe + (doy - e);
    assert yoe / 4 == 25 * c + q && yoe / 100 == c;
  }

  /** The first correction of the year formula; `e` is one on the last day of a long year. */
  lemma LeapDaysPassed(c: int, q: int, r: int, doy: int) returns (e: int)
    requires InEra(c, q, r, doy)
    ensures DayOfEra(c, q, r, doy) / 1460 == 25 * c + q + e && 0 <= doy - e < 365
  {
    var extra := 24 * c + q + 365 * r + doy;
    e := if extra >= 1460 then 1 else 0;
    assert DayOfEra(c, q, r, doy) == 1460 * (25 * c + q) + extra && 0 <= extra < 2920;
  }

  /** Its second and third corrections count the centuries. */
  lemma CenturiesPassed(c: int, q: int, r: int, doy: int)
    requires InEra(c, q, r, doy)
    ensures 0 <= DayOfEra(c, q, r, doy) <= 146_096
    ensures DayOfEra(c, q, r, doy) / 36_524 - DayOfEra(c, q, r, doy) / 146_096 == c
  {
  }

  /** Every day of an era is some day of some year. */
  lemma SplitEra(doe: int) returns (c: int, q: int, r: int, doy: int)
    requires 0 <= doe <= 146_096
    ensures InEra(c, q, r, doy) && DayOfEra(c, q, r, doy) == doe
  {
    c := if doe / 36_524 > 3 then 3 else doe / 36_524;
    var inCentury := doe - 36_524 * c;
    q := if inCentury / 1461 > 24 then 24 else inCentury / 1461;
    var inCycle := inCentury - 1461 * q;
    r := if inCycle / 365 > 3 then 3 else inCycle / 365;
    doy := inCycle - 365 * r;
  }

  /** The month formula finds the month whose days the day of the year is among. */
  lemma MonthFormula(doy: int) returns (mp: int)
    requires 0 <= doy <= 365
    ensures 0 <= mp <= 11 && DaysBefore(mp) <= doy && (mp < 11 ==> doy < DaysBefore(mp + 1))
    ensures MonthDay(doy) == (if mp < 10 then mp + 3 else mp - 9, doy - DaysBefore(mp) + 1)
  {
    mp := (5 * doy + 2) / 153;
    assert forall k :: 0 <= k <= 11 ==> DaysBefore(k) == (153 * k + 2) / 5;
  }

  // ----- Eras -----

  function Leaps(y: int): int {
    365 * y + y / 4 - y / 100 + y / 400
  }

  lemma EraYears(era: int, c: int, q: int, r: int)
    requires InEra(c, q, r, 0)
    ensures var y := 400 * era + 100 * c + 4 * q + r;
            Leaps(y) == 146_097 * era + DayOfEra(c, q, r, 0) && (IsLeap(y + 1) <==> Long(c, q, r))
  {
    var y := 400 * era + 100 * c + 4 * q + r;
    assert y == 4 * (100 * era + 25 * c + q) + r;
    assert y == 100 * (4 * era + c) + (4 * q + r);
    assert y == 400 * era + (100 * c + 4 * q + r);
    assert y / 4 == 100 * era + 25 * c + q && y / 100 == 4 * era + c && y / 400 == era;
    LeapYear(era, c, q, r);
  }

  lemma LeapYear(era: int, c: int, q: int, r: int)
    requires InEra(c, q, r, 0)
    ensures IsLeap(400 * era + 100 * c + 4 * q + r + 1) <==> Long(c, q, r)
  {
    var y := 400 * era + 100 * c + 4 * q + r + 1;
    if r != 3 {
      Remainders(100 * era + 25 * c + q, r + 1);
    } else if q != 24 {
      Remainders(4 * era + c, 4 * (q + 1));
      Remainders(100 * era + 25 * c + q + 1, 0);
    } else {
      CenturyYear(era, c + 1);
    }
  }

  lemma Remainders(k: int, r: int)
    ensures 0 <= r < 4 ==> (4 * k + r) % 4 == r
    ensures 0 <= r < 100 ==> (100 * k + r) % 100 == r
    ensures 0 <= r < 400 ==> (400 * k + r) % 400 == r
  {
  }

  lemma CenturyYear(era: int, c: int)
    requires 1 <= c <= 4
    ensures IsLeap(400 * era + 100 * c) <==> c == 4
  {
    var y := 400 * era + 100 * c;
    Remainders(4 * era + c, 0);
    Remainders(100 * era + 25 * c, 0);
    if c == 4 {
      Remainders(era + 1, 0);
    } else {
      Remainders(era, 100 * c);
    }
  }

  lemma EraOf(era: int, doe: int)
    requires 0 <= doe <= 146_096
    ensures Era(146_097 * era + doe) == era
  {
    var z := 146_097 * era + doe;
    if z >= 0 {
      assert z / 146_097 == era;
    } else {
      assert 146_096 - z == 146_097 * (-era) + (146_096 - doe);
      assert (146_096 - z) / 146_097 == -era;
    }
  }

  /** The date of day `doy` of the March-based year `y`, whose month is `mp`. */
  function DateOf(y: int, mp: int, doy: int): Date
    requires 0 <= mp <= 11
  {
    if mp < 10 then Date(y, mp + 3, doy - DaysBefore(mp) + 1) else Date(y + 1, mp - 9, doy - DaysBefore(mp) + 1)
  }

  predicate InMonth(mp: int, doy: int) {
    0 <= mp <= 11 && DaysBefore(mp) <= doy && (mp < 11 ==> doy < DaysBefore(mp + 1))
  }

  lemma DateOfSplit(era: int, c: int, q: int, r: int, doy: int, mp: int)
    requires InEra(c, q, r, doy) && InMonth(mp, doy)
    ensures DateInEra(era, DayOfEra(c, q, r, doy)) == DateOf(100 * c + 4 * q + r + era * 400, mp, doy)
  {
    YearFormula(c, q, r, doy);
    var found := MonthFormula(doy);
    OneMonth(mp, found, doy);
  }

  lemma OneMonth(a: int, b: int, doy: int)
    requires InMonth(a, doy) && InMonth(b, doy)
    ensures a == b
  {
  }

  lemma CivilInEra(era: int, doe: int)
    requires 0 <= doe <= 146_096
    ensures CivilFromDays(146_097 * era + doe - 719_468) == DateInEra(era, doe)
  {
    EraOf(era, doe);
  }

  /** The code's date for a day given by its era, year and day of the year. */
  lemma CivilOfSplit(era: int, c: int, q: int, r: int, doy: int, mp: int)
    requires InEra(c, q, r, doy) && InMonth(mp, doy)
    ensures CivilFromDays(146_097 * era + DayOfEra(c, q, r, doy) - 719_468)
            == DateOf(100 * c + 4 * q + r + era * 400, mp, doy)
  {
    assert 0 <= DayOfEra(c, q, r, doy) <= 146_096 by {
      YearFormula(c, q, r, doy);
    }
    CivilAt(era, c, q, r, doy, mp, DayOfEra(c, q, r, doy));
  }

  lemma CivilAt(era: int, c: int, q: int, r: int, doy: int, mp: int, doe: int)
    requires InEra(c, q, r, doy) && InMonth(mp, doy) && doe == DayOfEra(c, q, r, doy) && 0 <= doe <= 146_096
    ensures CivilFromDays(146_097 * era + doe - 719_468) == DateOf(100 * c + 4 * q + r + era * 400, mp, doy)
  {
    assert CivilFromDays(146_097 * era + doe - 719_468) == DateInEra(era, doe) by {
      CivilInEra(era, doe);
    }
    assert DateInEra(era, doe) == DateOf(100 * c + 4 * q + r + era * 400, mp, doy) by {
      DateOfSplit(era, c, q, r, doy, mp);
    }
  }

  /** That date is on the calendar, and its day number is the day it was computed from. */
  lemma SplitIsDate(era: int, c: int, q: int, r: int, doy: int, mp: int)
    requires InEra(c, q, r, doy) && InMonth(mp, doy)
    ensures var d := DateOf(100 * c + 4 * q + r + era * 400, mp, doy);
            IsDate(d) && DaysFromCivil(d) == 146_097 * era + DayOfEra(c, q, r, doy) - 719_468
  {
    EraYears(era, c, q, r);
  }

  lemma SplitYear(y: int) returns (era: int, c: int, q: int, r: int)
    ensures InEra(c, q, r, 0) && y == 100 * c + 4 * q + r + era * 400
  {
    era := y / 400;
    var yoe := y - 400 * era;
    c := yoe / 100;
    var inCentury := yoe - 100 * c;
    q := inCentury / 4;
    r := inCentury - 4 * q;
  }

  lemma SplitDate(d: Date) returns (era: int, c: int, q: int, r: int, doy: int, mp: int)
    requires IsDate(d)
    ensures InEra(c, q, r, doy) && InMonth(mp, doy) && DateOf(100 * c + 4 * q + r + era * 400, mp, doy) == d
  {
    era, c, q, r := SplitYear(if d.month <= 2 then d.year - 1 else d.year);
    LeapYear(era, c, q, r);
    mp := if d.month > 2 then d.month - 3 else d.month + 9;
    doy := DaysBefore(mp) + d.day - 1;
  }

  // ----- Main results -----

  /** For every day count, negative ones included, the result is a calendar date, and its day number is that count. */
  lemma CivilIsDate(days: int)
    ensures IsDate(CivilFromDays(days)) && DaysFromCivil(CivilFromDays(days)) == days
  {
    var z := days + 719_468;
    var era, doe := z / 146_097, z % 146_097;
    var c, q, r, doy := SplitEra(doe);
    var mp := MonthFormula(doy);
    CivilOfSplit(era, c, q, r, doy, mp);
    SplitIsDate(era, c, q, r, doy, mp);
  }

  /** The other round trip: every calendar date is the date of its day number. */
  lemma DateIsCivil(d: Date)
    requires IsDate(d)
    ensures CivilFromDays(DaysFromCivil(d)) == d
  {
    var era, c, q, r, doy, mp := SplitDate(d);
    CivilOfSplit(era, c, q, r, doy, mp);
    SplitIsDate(era, c, q, r, doy, mp);
  }

  /** Day zero is the Unix epoch. */
  lemma CivilEpoch()
    ensures CivilFromDays(0) == Date(1970, 1, 1)
  {
    assert Era(719_468) == 4;
    assert YearOfEra(135_080) == 369;
    assert DayOfYear(135_080, 369) == 306;
    assert MonthDay(306) == (1, 1);
  }

  lemma CivilOfDate(d: Date, days: int)
    requires IsDate(d) && DaysFromCivil(d) == days
    ensures CivilFromDays(days) == d
  {
    DateIsCivil(d);
  }

  /** Each day is the calendar successor of the day before it. */
  lemma CivilSuccessor(days: int)
    ensures IsDate(CivilFromDays(days)) && CivilFromDays(days + 1) == NextDay(CivilFromDays(days))
  {
    var d := CivilFromDays(days);
    CivilIsDate(days);
    DaysFromNext(d);
    CivilOfDate(NextDay(d), days + 1);
  }

  // ----- Machine integers -----

  newtype I64 = n: int | -0x8000_0000_0000_0000 <= n <= 0x7FFF_FFFF_FFFF_FFFF

  newtype U32 = n: int | 0 <= n <= 0xFFFF_FFFF

  const I64_MAX: int := 0x7FFF_FFFF_FFFF_FFFF

  lemma EraRange(z: int)
    ensures 0 <= z - Era(z) * 146_097 <= 146_096
  {
    EraOf(z / 146_097, z % 146_097);
  }

  lemma YearRange(doe: int)
    requires 0 <= doe <= 146_096
    ensures 0 <= YearOfEra(doe) <= 399
    ensures 0 <= DayOfYear(doe, YearOfEra(doe)) <= 365
  {
    var c, q, r, doy := SplitEra(doe);
    assert YearOfEra(doe) == 100 * c + 4 * q + r && DayOfYear(doe, 100 * c + 4 * q + r) == doy by {
      YearFormula(c, q, r, doy);
    }
  }

  function Era64(z: I64): (era: I64)
    requires z as int >= 719_468 - 0x8000_0000_0000_0000
    ensures era as int == Era(z as int)
  {
    var shifted: I64 := if z >= 0 then z else z - 146_096;
    if shifted >= 0 then shifted / 146_097 else -((-shifted) / 146_097)
  }

  function YearOfEra64(doe: I64): (yoe: I64)
    requires 0 <= doe <= 146_096
    ensures yoe as int == YearOfEra(doe as int)
  {
    (doe - doe / 1460 + doe / 36_524 - doe / 146_096) / 365
  }

  function DateInEra64(era: I64, doe: I64): (r: (I64, U32, U32))
    requires -0x1_0000_0000_0000 <= era <= 0x1_0000_0000_0000 && 0 <= doe <= 146_096
    ensures Date(r.0 as int, r.1 as int, r.2 as int) == DateInEra(era as int, doe as int)
  {
    YearRange(doe as int);
    var yoe := YearOfEra64(doe);
    var y: I64 := yoe + era * 400;
    var doy: I64 := doe - (365 * yoe + yoe / 4 - yoe / 100);
    assert doy as int == DayOfYear(doe as int, yoe as int);
    var mp: I64 := (5 * doy + 2) / 153;
    var d: U32 := (doy - (153 * mp + 2) / 5 + 1) as U32;
    var m: U32 := (if mp < 10 then mp + 3 else mp - 9) as U32;
    (if m <= 2 then y + 1 else y, m, d)
  }

  /**
   * The code on its own integer types, every step checked. The first addition is the only one that
   * can overflow, so the condition on `days` is exactly when none does.
   */
  function CivilFromDays64(days: I64): (r: (I64, U32, U32))
    requires days as int + 719_468 <= I64_MAX
    ensures Date(r.0 as int, r.1 as int, r.2 as int) == CivilFromDays(days as int)
  {
    var z: I64 := days + 719_468;
    EraRange(z as int);
    var era := Era64(z);
    DateInEra64(era, z - era * 146_097)
  }

  /** `build_date`: no seconds count of 64 bits overflows, and the date is that of its day. */
  function BuildDate(seconds: U64): (r: (I64, U32, U32))
    ensures Date(r.0 as int, r.1 as int, r.2 as int) == CivilFromDays(seconds / 86_400)
    ensures IsDate(Date(r.0 as int, r.1 as int, r.2 as int)) && r.0 >= 1970
  {
    CivilIsDate(seconds / 86_400);
    NotBeforeEpoch(CivilFromDays(seconds / 86_400));
    CivilFromDays64((seconds / 86_400) as I64)
  }

  lemma NotBeforeEpoch(d: Date)
    requires IsDate(d) && DaysFromCivil(d) >= 0
    ensures d.year >= 1970
  {
  }
}
