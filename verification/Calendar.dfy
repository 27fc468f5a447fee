// The two calendar algorithms of the repository: the loop that IMAP uses for
// INTERNALDATE and the closed form that SMTP uses for the Received header.
module Calendar {
  import opened Wrappers

  // ---------------------------------------------------------------- reference

  datatype Date = Date(year: nat, month: nat, day: nat)

  predicate IsLeap(y: nat) {
    (y % 4 == 0 && y % 100 != 0) || y % 400 == 0
  }

  function DaysInYear(y: nat): nat {
    if IsLeap(y) then 366 else 365
  }

  function DaysInMonth(y: nat, m: nat): nat {
    if m == 2 then (if IsLeap(y) then 29 else 28)
    else if m == 4 || m == 6 || m == 9 || m == 11 then 30
    else 31
  }

  predicate Valid(date: Date) {
    1970 <= date.year && 1 <= date.month <= 12 && 1 <= date.day <= DaysInMonth(date.year, date.month)
  }

  /** Days from 1 January 1970 to 1 January of `y`. */
  function YearStart(y: nat): nat
    requires 1970 <= y
  {
    if y == 1970 then 0 else YearStart(y - 1) + DaysInYear(y - 1)
  }

  /** Days from 1 January to the first day of month `m` of the same year. */
  function MonthStart(y: nat, m: nat): nat
    requires 1 <= m
  {
    if m == 1 then 0 else MonthStart(y, m - 1) + DaysInMonth(y, m - 1)
  }

  /** The meaning of a date: its distance in days from 1 January 1970. */
  function DayNumber(date: Date): nat
    requires Valid(date)
  {
    YearStart(date.year) + MonthStart(date.year, date.month) + date.day - 1
  }

  predicate IsLeapDay(date: Date) {
    date.month == 2 && date.day == 29
  }

  // ---------------------------------------------------------------- the loop

  /** imap/mod.rs: count years and then months off the day number. */
  method EpochDaysToYmd(days: nat) returns (year: nat, month: nat, day: nat)
    ensures Valid(Date(year, month, day))
    ensures DayNumber(Date(year, month, day)) == days
  {
    var left := days;
    year := 1970;
    while true
      invariant 1970 <= year
      invariant YearStart(year) + left == days
      decreases left
    {
      var diy := if IsLeap(year) then 366 else 365;
      if left < diy {
        break;
      }
      left := left - diy;
      year := year + 1;
    }
    var dim := [31, if IsLeap(year) then 29 else 28, 31, 30, 31, 30, 31, 31, 30, 31, 30, 31];
    month := 1;
    YearIsTwelveMonths(year);
    var i := 0;
    while i < |dim|
      invariant 0 <= i <= |dim|
      invariant month == i + 1
      invariant YearStart(year) + MonthStart(year, month) + left == days
      invariant MonthStart(year, month) + left < DaysInYear(year)
    {
      assert dim[i] == DaysInMonth(year, i + 1);
      if left < dim[i] {
        break;
      }
      left := left - dim[i];
      month := month + 1;
      i := i + 1;
    }
    day := left + 1;
  }

  lemma YearIsTwelveMonths(y: nat)
    ensures MonthStart(y, 13) == DaysInYear(y)
  {
    MonthTable(y);
  }

  /** MonthStart written out. */
  lemma MonthTable(y: nat)
    ensures var f := if IsLeap(y) then 1 else 0;
            && MonthStart(y, 1) == 0 && MonthStart(y, 2) == 31 && MonthStart(y, 3) == 59 + f
            && MonthStart(y, 4) == 90 + f && MonthStart(y, 5) == 120 + f && MonthStart(y, 6) == 151 + f
            && MonthStart(y, 7) == 181 + f && MonthStart(y, 8) == 212 + f && MonthStart(y, 9) == 243 + f
            && MonthStart(y, 10) == 273 + f && MonthStart(y, 11) == 304 + f && MonthStart(y, 12) == 334 + f
            && MonthStart(y, 13) == 365 + f
  {
    assert MonthStart(y, 3) == MonthStart(y, 2) + DaysInMonth(y, 2);
    assert MonthStart(y, 5) == MonthStart(y, 4) + DaysInMonth(y, 4);
    assert MonthStart(y, 7) == MonthStart(y, 6) + DaysInMonth(y, 6);
    assert MonthStart(y, 9) == MonthStart(y, 8) + DaysInMonth(y, 8);
    assert MonthStart(y, 11) == MonthStart(y, 10) + DaysInMonth(y, 10);
    assert MonthStart(y, 13) == MonthStart(y, 12) + DaysInMonth(y, 12);
  }

  // ---------------------------------------------------------------- the closed form

  const U64 := 0x1_0000_0000_0000_0000
  const SECS_PER_DAY := 86400

  /** Where a u64 sum or product lands when overflow is not checked. */
  function WrapU64(x: nat): nat {
    if x < U64 then x else x % U64
  }

  /** `a - b` on u64 values: None is the overflow panic of a checked build. */
  function SubU64(a: nat, b: int, checked: bool): Option<nat> {
    if b <= a then Some(a - b)
    else if checked then None
    else Some((a - b) % U64)
  }

  /** The year of the era as coded. */
  function CodedYearOfEra(doe: nat): nat {
    assert doe / 1461 + doe / 146097 <= doe + doe / 36524;
    (doe - doe / 1461 + doe / 36524 - doe / 146097) / 365
  }

  /** Day of the March-based year to a date; None when the month table is indexed outside its twelve entries. */
  function MonthAndDay(y: nat, doy: nat, checked: bool): Option<Date> {
    var mp := WrapU64(5 * doy + 2) / 153;
    var month := if mp < 10 then mp + 3 else mp - 9;
    if month > 12 then None
    else match SubU64(doy, (153 * mp + 2) / 5, checked)
      case None => None
      case Some(d) => Some(Date(if month <= 2 then y + 1 else y, month, WrapU64(d + 1)))
  }

  /**
   * smtp/mod.rs: the date part of the timestamp, with the divisors as coded.
   * None is a panic: an overflow in a checked build, or the month lookup.
   */
  function ChronoDate(days: nat, checked: bool): Option<Date> {
    var z := days + 719468;
    var era := z / 146097;
    ChronoInEra(era, z - era * 146097, checked)
  }

  /** The rest of the closed form, for day `doe` of an era. */
  function ChronoInEra(era: nat, doe: nat, checked: bool): Option<Date> {
    ChronoInYear(era, CodedYearOfEra(doe), doe, checked)
  }

  function ChronoInYear(era: nat, yoe: nat, doe: nat, checked: bool): Option<Date> {
    match SubU64(doe, 365 * yoe + yoe / 4 - yoe / 100, checked)
    case None => None
    case Some(doy) => MonthAndDay(yoe + era * 400, doy, checked)
  }

  // ---------------------------------------------------------------- agreement

  /** Leap days in the years 1 .. n. */
  function LeapsThrough(n: nat): int {
    n / 4 - n / 100 + n / 400
  }

  lemma Distributes(m: int, q: int, k: int)
    ensures m * (q - k) == m * q - m * k
  {
  }

  lemma AtLeastOnce(m: int, d: int)
    requires m > 0 && d >= 1
    ensures m * d >= m
  {
  }

  lemma SameQuotient(m: int, q: int, r: int, k: int, s: int)
    requires m > 0 && m * q + r == m * k + s && 0 <= r < m && 0 <= s < m
    ensures q == k && r == s
  {
    if q > k {
      Distributes(m, q, k);
      AtLeastOnce(m, q - k);
    } else if q < k {
      Distributes(m, k, q);
      AtLeastOnce(m, k - q);
    }
  }

  /** Quotient and remainder are determined. */
  lemma DivMod(x: int, m: int, q: int, r: int)
    requires m > 0 && x == m * q + r && 0 <= r < m
    ensures x / m == q && x % m == r
  {
    SameQuotient(m, q, r, x / m, x % m);
  }

  /** The quotients of `400 a + b`. */
  lemma Quotients(a: int, b: int)
    requires 0 <= b < 400
    ensures var n := 400 * a + b;
            && n / 400 == a && n % 400 == b
            && n / 100 == 4 * a + b / 100 && n % 100 == b % 100
            && n / 4 == 100 * a + b / 4 && n % 4 == b % 4
  {
    var n := 400 * a + b;
    DivMod(n, 400, a, b);
    DivMod(n, 100, 4 * a + b / 100, b % 100);
    DivMod(n, 4, 100 * a + b / 4, b % 4);
  }

  lemma LeapStep(n: nat)
    requires n > 0
    ensures LeapsThrough(n) == LeapsThrough(n - 1) + (if IsLeap(n) then 1 else 0)
  {
    var a, b := n / 400, n % 400;
    assert n == 400 * a + b;
    Quotients(a, b);
    if b == 0 {
      Quotients(a - 1, 399);
    } else {
      Quotients(a, b - 1);
      LeapStepInEra(b);
    }
  }

  lemma LeapStepInEra(b: nat)
    requires 0 < b < 400
    ensures b / 4 - b / 100 == (b - 1) / 4 - (b - 1) / 100 + (if b % 4 == 0 && b % 100 != 0 then 1 else 0)
  {
  }

  lemma {:induction false} YearStartClosed(y: nat)
    requires 1970 <= y
    ensures YearStart(y) == 365 * (y - 1970) + LeapsThrough(y - 1) - 477
  {
    if y > 1970 {
      YearStartClosed(y - 1);
      LeapStep(y - 1);
    }
  }

  /** Days before March-based year `y` of an era. */
  function EraStart(y: nat): int {
    365 * y + y / 4 - y / 100
  }

  /** Day of the March-based year, from the month counted from March. */
  function MarchDay(mp: nat, day: nat): int {
    (153 * mp + 2) / 5 + day - 1
  }

  /** March-based coordinates of a date. */
  function MarchYear(date: Date): nat
    requires Valid(date)
  {
    if date.month <= 2 then date.year - 1 else date.year
  }

  function MarchMonth(date: Date): nat
    requires Valid(date)
  {
    if date.month <= 2 then date.month + 9 else date.month - 3
  }

  /** March-based year `y` starts 60 days (61 when leap) before the year after it ends its February. */
  lemma MarchYearStart(y: nat)
    requires 1969 <= y
    ensures YearStart(y + 1) + 719468 - 306 == 146097 * (y / 400) + EraStart(y % 400)
  {
    YearStartClosed(y + 1);
    var a, b := y / 400, y % 400;
    assert y == 400 * a + b;
    assert y / 4 == 100 * a + b / 4 && y / 100 == 4 * a + b / 100;
  }

  lemma MarchDayOfDate(date: Date)
    requires Valid(date)
    ensures 0 <= MarchDay(MarchMonth(date), date.day) <= 365
    ensures MarchDay(MarchMonth(date), date.day) == 365 <==> IsLeapDay(date)
    ensures MonthStart(date.year, date.month) + date.day - 1
         == MarchDay(MarchMonth(date), date.day) - (if date.month <= 2 then 306 else 306 - DaysInYear(date.year))
  {
    MonthTable(date.year);
  }

  lemma InMarchCoordinates(date: Date)
    requires Valid(date)
    ensures var y := MarchYear(date);
            DayNumber(date) + 719468 == 146097 * (y / 400) + EraStart(y % 400) + MarchDay(MarchMonth(date), date.day)
  {
    MarchDayOfDate(date);
    MarchYearStart(MarchYear(date));
    if date.month > 2 {
      assert YearStart(date.year + 1) == YearStart(date.year) + DaysInYear(date.year);
    }
  }

  /** The same, with era and year of era given. */
  lemma MarchCoordinatesAt(date: Date, era: nat, yoe: nat, doy: int)
    requires Valid(date) && MarchYear(date) == 400 * era + yoe && yoe < 400 && doy == MarchDay(MarchMonth(date), date.day)
    ensures DayNumber(date) + 719468 == 146097 * era + EraStart(yoe) + doy
  {
    InMarchCoordinates(date);
    DivMod(MarchYear(date), 400, era, yoe);
  }

  lemma EraStartAt(c: nat, q: nat, r: nat)
    requires c <= 3 && q <= 24 && r <= 3
    ensures EraStart(100 * c + 4 * q + r) == 36524 * c + 1461 * q + 365 * r
  {
    var yoe := 100 * c + 4 * q + r;
    DivMod(yoe, 4, 25 * c + q, r);
    DivMod(yoe, 100, c, 4 * q + r);
  }

  /** The division by 365 that yields the coded year of era. */
  lemma CodedQuotient(yoe: nat, doy: nat, borrow: nat, carry: nat)
    requires doy <= 365 && borrow <= 1 && carry <= 1
    requires if doy == 365 then borrow == 0 else carry == 0 && doy + borrow < 365
    ensures (365 * yoe + doy + borrow + carry) / 365 == if doy == 365 then yoe + 1 else yoe
  {
    if doy == 365 {
      DivMod(365 * yoe + doy + borrow + carry, 365, yoe + 1, carry);
    } else {
      DivMod(365 * yoe + doy + borrow + carry, 365, yoe, doy + borrow);
    }
  }

  /** Borrow and carry never meet the last days of a year. */
  lemma BorrowAndCarry(c: nat, q: nat, r: nat, doy: nat, w: nat)
    requires c <= 3 && q <= 24 && r <= 3 && doy <= 365 && w == 365 * r + doy
    requires doy == 365 ==> r == 3 && (q < 24 || c == 3)
    ensures w <= 1460 && 36524 * c + 1461 * q + w < 146097 && 1461 * q + w <= 36524
    ensures if doy == 365 then w >= c else 1461 * q + w != 36524 && (w < c ==> doy + 1 < 365)
  {
  }

  /** Year of era as coded, for day `doy` of March-based year `100c + 4q + r`. */
  lemma CodedYearOfEraAt(c: nat, q: nat, r: nat, doy: nat, doe: nat)
    requires c <= 3 && q <= 24 && r <= 3 && doy <= 365 && doe == 36524 * c + 1461 * q + 365 * r + doy
    requires doy == 365 ==> r == 3 && (q < 24 || c == 3)
    ensures doe < 146097
    ensures CodedYearOfEra(doe) == 100 * c + 4 * q + r + if doy == 365 then 1 else 0
  {
    var w := 365 * r + doy;
    var borrow := if w < c then 1 else 0;
    var carry := if 1461 * q + w == 36524 then 1 else 0;
    BorrowAndCarry(c, q, r, doy, w);
    CodedSum(c, q, w);
    CodedQuotient(100 * c + 4 * q + r, doy, borrow, carry);
  }

  /** The coded sum of quotients: one borrow and one carry away from 365 days a year. */
  lemma CodedSum(c: nat, q: nat, w: nat)
    requires c <= 3 && q <= 24 && w <= 1460 && 36524 * c + 1461 * q + w < 146097 && 1461 * q + w <= 36524
    ensures var doe := 36524 * c + 1461 * q + w;
            doe - doe / 1461 + doe / 36524 - doe / 146097
            == 36500 * c + 1460 * q + w + (if w < c then 1 else 0) + (if 1461 * q + w == 36524 then 1 else 0)
  {
    var doe := 36524 * c + 1461 * q + w;
    var borrow := if w < c then 1 else 0;
    var carry := if 1461 * q + w == 36524 then 1 else 0;
    DivMod(doe, 1461, 25 * c + q - borrow, w - c + 1461 * borrow);
    DivMod(doe, 36524, c + carry, 1461 * q + w - 36524 * carry);
    DivMod(doe, 146097, 0, doe);
  }

  /** The month arithmetic shared by both algorithms is exact on 0 .. 364. */
  lemma MonthRoundTrip(mp: nat, day: nat)
    requires mp <= 11 && 1 <= day
    requires mp in {0, 2, 4, 5, 7, 9, 10} ==> day <= 31
    requires mp in {1, 3, 6, 8} ==> day <= 30
    requires mp == 11 ==> day <= 28
    ensures 0 <= MarchDay(mp, day) <= 364
    ensures (5 * MarchDay(mp, day) + 2) / 153 == mp
  {
  }

  /**
   * Main result. Off 29 February the closed form gives the date the loop gives.
   * On 29 February the coded year-of-era is one too large: the day-of-year
   * subtraction goes below zero and the month lookup panics, except in years
   * divisible by 400, where the result is 1 March.
   */
  lemma ChronoAgainstLoop(days: nat, date: Date, checked: bool)
    requires days <= (U64 - 1) / SECS_PER_DAY
    requires Valid(date) && DayNumber(date) == days
    ensures !IsLeapDay(date) ==> ChronoDate(days, checked) == Some(date)
    ensures IsLeapDay(date) && date.year % 400 != 0 ==> ChronoDate(days, checked) == None
    ensures IsLeapDay(date) && date.year % 400 == 0 ==> ChronoDate(days, checked) == Some(Date(date.year, 3, 1))
  {
    if IsLeapDay(date) {
      OnLeapDay(days, date, checked);
    } else {
      OffLeapDay(days, date, checked);
    }
  }

  lemma OffLeapDay(days: nat, date: Date, checked: bool)
    requires days <= (U64 - 1) / SECS_PER_DAY
    requires Valid(date) && DayNumber(date) == days && !IsLeapDay(date)
    ensures ChronoDate(days, checked) == Some(date)
  {
    var y := MarchYear(date);
    YearInEra(y);
    OffLeapDayAt(days, date, y / 400, y % 400, checked);
  }

  /** The day of the March-based year off 29 February, and the month it gives back. */
  lemma MarchDayOff(date: Date) returns (doy: nat)
    requires Valid(date) && !IsLeapDay(date)
    ensures doy == MarchDay(MarchMonth(date), date.day) && doy <= 364 && (5 * doy + 2) / 153 == MarchMonth(date)
  {
    MonthRoundTrip(MarchMonth(date), date.day);
    doy := MarchDay(MarchMonth(date), date.day);
  }

  lemma DateFromMarch(date: Date, y: nat, mp: nat)
    requires Valid(date) && y == MarchYear(date) && mp == MarchMonth(date)
    ensures var month := if mp < 10 then mp + 3 else mp - 9;
            mp <= 11 && date == Date(y + (if month <= 2 then 1 else 0), month, date.day)
  {
  }

  lemma OffLeapDayAt(days: nat, date: Date, era: nat, yoe: nat, checked: bool)
    requires Valid(date) && DayNumber(date) == days && !IsLeapDay(date) && days < U64
    requires MarchYear(date) == 400 * era + yoe && yoe < 400
    ensures ChronoDate(days, checked) == Some(date)
  {
    var doy := MarchDayOff(date);
    MarchCoordinatesAt(date, era, yoe, doy);
    DateFromMarch(date, yoe + era * 400, MarchMonth(date));
    ChronoAtMarch(days, era, yoe, doy, MarchMonth(date), date.day, checked);
  }

  lemma ChronoAtMarch(days: nat, era: nat, yoe: nat, doy: nat, mp: nat, day: nat, checked: bool)
    requires yoe < 400 && mp <= 11 && 1 <= day <= 31 && days + 719468 == 146097 * era + EraStart(yoe) + doy
    requires doy <= 364 && doy == MarchDay(mp, day) && (5 * doy + 2) / 153 == mp
    ensures var month := if mp < 10 then mp + 3 else mp - 9;
            ChronoDate(days, checked) == Some(Date(yoe + era * 400 + (if month <= 2 then 1 else 0), month, day))
  {
    DayOfEra(yoe, doy, EraStart(yoe) + doy);
    ChronoOffLeapDay(days, era, yoe, EraStart(yoe) + doy, doy, mp, day, checked);
  }

  /** The coded year of era, for every day but the last of a leap year. */
  lemma DayOfEra(yoe: nat, doy: nat, doe: int)
    requires yoe < 400 && doy <= 364 && doe == EraStart(yoe) + doy
    ensures 0 <= doe < 146097 && CodedYearOfEra(doe) == yoe
  {
    var c, q, r := yoe / 100, yoe % 100 / 4, yoe % 4;
    CoordinatesInEra(yoe);
    EraStartAt(c, q, r);
    CodedYearOfEraAt(c, q, r, doy, doe);
  }

  lemma OnLeapDay(days: nat, date: Date, checked: bool)
    requires days <= (U64 - 1) / SECS_PER_DAY
    requires Valid(date) && DayNumber(date) == days && IsLeapDay(date)
    ensures ChronoDate(days, checked) == if date.year % 400 == 0 then Some(Date(date.year, 3, 1)) else None
  {
    var y := MarchYear(date);
    YearInEra(y);
    var doe, short := LeapDayInEra(days, date, y / 400, y % 400);
    ChronoOnLeapDay(days, y / 400, y % 400 + 1, doe, short, checked);
  }

  lemma YearInEra(y: nat)
    ensures y % 400 + y / 400 * 400 == y
  {
  }

  /** A leap day is the last of its March-based year; the coded year of era is one too large. */
  lemma LeapDayInEra(days: nat, date: Date, era: nat, yoe: nat) returns (doe: nat, short: int)
    requires Valid(date) && DayNumber(date) == days && IsLeapDay(date)
    requires MarchYear(date) == 400 * era + yoe && yoe < 400
    ensures doe < 146097 && days + 719468 == 146097 * era + doe
    ensures CodedYearOfEra(doe) == yoe + 1 && doe - EraStart(yoe + 1) == short
    ensures short == if date.year % 400 == 0 then 0 else -1
  {
    var c, q, r := yoe / 100, yoe % 100 / 4, yoe % 4;
    CoordinatesInEra(yoe);
    LeapDayIsLast(date, era, c, q, r);
    MarchDayOfDate(date);
    MarchCoordinatesAt(date, era, yoe, 365);
    EraStartAt(c, q, r);
    doe, short := EraStart(yoe) + 365, if q == 24 then 0 else -1;
    CodedYearOfEraAt(c, q, r, 365, doe);
    LeapDayOutcome(c, q, doe);
  }

  lemma CoordinatesInEra(b: nat)
    requires b < 400
    ensures b == 100 * (b / 100) + 4 * (b % 100 / 4) + b % 4 && b / 100 <= 3 && b % 100 / 4 <= 24
  {
    DivMod(b, 4, 25 * (b / 100) + b % 100 / 4, b % 100 % 4);
  }

  /** The closed form evaluated where the coded year of era is right. */
  lemma ChronoOffLeapDay(days: nat, era: nat, yoe: nat, doe: nat, doy: nat, mp: nat, day: nat, checked: bool)
    requires yoe < 400 && mp <= 11 && 1 <= day <= 31 && days + 719468 == 146097 * era + doe
    requires doe < 146097 && CodedYearOfEra(doe) == yoe && doe == EraStart(yoe) + doy
    requires doy <= 364 && doy == MarchDay(mp, day) && (5 * doy + 2) / 153 == mp
    ensures var month := if mp < 10 then mp + 3 else mp - 9;
            ChronoDate(days, checked) == Some(Date(yoe + era * 400 + (if month <= 2 then 1 else 0), month, day))
  {
    EraOfDay(days, era, doe, checked);
    InYearOffLeapDay(era, yoe, doe, doy, checked);
    InsideYear(yoe + era * 400, mp, day, doy, checked);
  }

  /** Splitting off the era. */
  lemma EraOfDay(days: nat, era: nat, doe: nat, checked: bool)
    requires days + 719468 == 146097 * era + doe && doe < 146097
    ensures ChronoDate(days, checked) == ChronoInEra(era, doe, checked)
  {
    assert (days + 719468) / 146097 == era;
  }

  lemma InYearOffLeapDay(era: nat, yoe: nat, doe: nat, doy: nat, checked: bool)
    requires doe == EraStart(yoe) + doy
    ensures ChronoInYear(era, yoe, doe, checked) == MonthAndDay(yoe + era * 400, doy, checked)
  {
    assert SubU64(doe, EraStart(yoe), checked) == Some(doy);
  }

  lemma InsideYear(y: nat, mp: nat, day: nat, doy: nat, checked: bool)
    requires mp <= 11 && 1 <= day <= 31
    requires doy <= 364 && doy == MarchDay(mp, day) && (5 * doy + 2) / 153 == mp
    ensures var month := if mp < 10 then mp + 3 else mp - 9;
            MonthAndDay(y, doy, checked) == Some(Date(if month <= 2 then y + 1 else y, month, day))
  {
  }

  /** The closed form evaluated on the last day of a leap March-based year. */
  lemma ChronoOnLeapDay(days: nat, era: nat, yoe: nat, doe: nat, short: int, checked: bool)
    requires doe < 146097 && days + 719468 == 146097 * era + doe
    requires CodedYearOfEra(doe) == yoe && doe - EraStart(yoe) == short && -1 <= short <= 0
    ensures ChronoDate(days, checked) == if short == 0 then Some(Date(yoe + era * 400, 3, 1)) else None
  {
    EraOfDay(days, era, doe, checked);
    InYearOnLeapDay(era, yoe, doe, short, checked);
    OutsideYear(yoe + era * 400, checked);
  }

  lemma InYearOnLeapDay(era: nat, yoe: nat, doe: nat, short: int, checked: bool)
    requires doe - EraStart(yoe) == short && -1 <= short <= 0
    ensures ChronoInYear(era, yoe, doe, checked) ==
            if short == 0 then MonthAndDay(yoe + era * 400, 0, checked)
            else if checked then None else MonthAndDay(yoe + era * 400, U64 - 1, checked)
  {
    if short == 0 {
      assert SubU64(doe, EraStart(yoe), checked) == Some(0);
    } else {
      assert SubU64(doe, EraStart(yoe), checked) == if checked then None else Some(U64 - 1);
    }
  }

  /** Both ends of a day number one too small: 1 March, and the wrapped subtraction. */
  lemma OutsideYear(y: nat, checked: bool)
    ensures MonthAndDay(y, 0, checked) == Some(Date(y, 3, 1))
    ensures MonthAndDay(y, U64 - 1, checked) == None
  {
    assert (5 * (U64 - 1) + 2) % U64 == U64 - 3;
  }

  lemma LeapDayIsLast(date: Date, era: nat, c: nat, q: nat, r: nat)
    requires Valid(date) && c <= 3 && q <= 24 && r <= 3 && IsLeapDay(date)
    requires MarchYear(date) == 400 * era + 100 * c + 4 * q + r
    ensures r == 3 && (q < 24 || c == 3)
    ensures date.year % 400 == 0 <==> q == 24
  {
    DivMod(date.year, 4, 100 * era + 25 * c + q + (r + 1) / 4, (r + 1) % 4);
    if q == 24 {
      DivMod(date.year, 100, 4 * era + c + (r + 1) / 4, if r == 3 then 0 else 97 + r);
      DivMod(date.year, 400, if c == 3 && r == 3 then era + 1 else era, if c == 3 && r == 3 then 0 else 100 * c + 97 + r);
    } else {
      DivMod(date.year, 100, 4 * era + c, 4 * q + r + 1);
      DivMod(date.year, 400, era, 100 * c + 4 * q + r + 1);
    }
  }

  lemma LeapDayOutcome(c: nat, q: nat, doe: int)
    requires c <= 3 && q <= 24 && (q < 24 || c == 3)
    requires doe == EraStart(100 * c + 4 * q + 3) + 365
    ensures var yoe := 100 * c + 4 * q + 4;
            doe - (365 * yoe + yoe / 4 - yoe / 100) == if q == 24 then 0 else -1
  {
    var yoe := 100 * c + 4 * q + 4;
    DivMod(yoe, 4, 25 * c + q + 1, 0);
    DivMod(yoe, 100, if q == 24 then c + 1 else c, if q == 24 then 0 else 4 * q + 4);
    DivMod(yoe - 1, 4, 25 * c + q, 3);
    DivMod(yoe - 1, 100, c, 4 * q + 3);
  }

  /** A day number has one date, so the loop's answer is the date. */
  lemma DateIsUnique(a: Date, b: Date)
    requires Valid(a) && Valid(b) && DayNumber(a) == DayNumber(b)
    ensures a == b
  {
    if a.year < b.year {
      EarlierYear(a, b);
    } else if b.year < a.year {
      EarlierYear(b, a);
    } else {
      MonthTable(a.year);
    }
  }

  lemma EarlierYear(a: Date, b: Date)
    requires Valid(a) && Valid(b) && a.year < b.year
    ensures DayNumber(a) < DayNumber(b)
  {
    MonthTable(a.year);
    YearStartGrows(a.year + 1, b.year);
  }

  lemma {:induction false} YearStartGrows(a: nat, b: nat)
    requires 1970 <= a <= b
    ensures YearStart(a) <= YearStart(b)
    decreases b - a
  {
    if a < b {
      YearStartGrows(a, b - 1);
    }
  }

  /** The exact exception set: the two algorithms agree off 29 February and only there. */
  lemma AgreeExactlyOffLeapDay(days: nat, date: Date, checked: bool)
    requires days <= (U64 - 1) / SECS_PER_DAY
    requires Valid(date) && DayNumber(date) == days
    ensures ChronoDate(days, checked) == Some(date) <==> !IsLeapDay(date)
  {
    ChronoAgainstLoop(days, date, checked);
  }
}
