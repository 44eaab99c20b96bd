/** ngx_http_parse_time: the three forms of an HTTP date (section 7.1.1.1 of RFC 7231)
    and Gauss' formula for the number of days. Bytes are modelled as characters. */
module ParseTime {
  import opened Common

  const ERROR := -1
  const U64 := 0x1_0000_0000_0000_0000

  /** The fields read from a date; months count from 0. */
  datatype Stamp = Stamp(year: nat, month: nat, day: nat, hour: nat, min: nat, sec: nat)

  datatype Format = No | Rfc822 | Rfc850 | Isoc

  // ---------------------------------------------------------------- what a date looks like

  predicate IsDigit(c: char) { '0' <= c <= '9' }

  function Digit(c: char): nat
    requires IsDigit(c)
  {
    c as int - '0' as int
  }

  predicate Two(s: string, i: nat) { i + 2 <= |s| && IsDigit(s[i]) && IsDigit(s[i + 1]) }

  function TwoOf(s: string, i: nat): nat
    requires Two(s, i)
  {
    Digit(s[i]) * 10 + Digit(s[i + 1])
  }

  predicate Four(s: string, i: nat) { Two(s, i) && Two(s, i + 2) }

  function FourOf(s: string, i: nat): nat
    requires Four(s, i)
  {
    TwoOf(s, i) * 100 + TwoOf(s, i + 2)
  }

  /** The month is told from as few letters as possible. */
  function MonthAt(s: string, i: nat): Option<nat>
    requires i + 3 <= |s|
  {
    match s[i]
    case 'J' => Some(if s[i + 1] == 'a' then 0 else if s[i + 2] == 'n' then 5 else 6)
    case 'F' => Some(1)
    case 'M' => Some(if s[i + 2] == 'r' then 2 else 4)
    case 'A' => Some(if s[i + 1] == 'p' then 3 else 7)
    case 'S' => Some(8)
    case 'O' => Some(9)
    case 'N' => Some(10)
    case 'D' => Some(11)
    case _ => None
  }

  /** hh:mm:ss at i */
  predicate Clock(s: string, i: nat)
  {
    Two(s, i) && i + 8 <= |s| && s[i + 2] == ':' && Two(s, i + 3) && s[i + 5] == ':' && Two(s, i + 6)
  }

  function Made(year: nat, month: nat, day: nat, s: string, i: nat): Stamp
    requires Clock(s, i)
  {
    Stamp(year, month, day, TwoOf(s, i), TwoOf(s, i + 3), TwoOf(s, i + 6))
  }

  /** 10 Nov 2002 23:50:13, from b on */
  function Fields822(s: string, b: nat): Option<Stamp>
  {
    if b + 20 <= |s| && Two(s, b) && s[b + 2] == ' ' && MonthAt(s, b + 3).Some? && s[b + 6] == ' ' && Four(s, b + 7)
       && s[b + 11] == ' ' && Clock(s, b + 12)
    then Some(Made(FourOf(s, b + 7), MonthAt(s, b + 3).value, TwoOf(s, b), s, b + 12))
    else None
  }

  /** 10-Dec-02 23:50:13 */
  function Fields850(s: string, b: nat): Option<Stamp>
  {
    if b + 18 <= |s| && Two(s, b) && s[b + 2] == '-' && MonthAt(s, b + 3).Some? && s[b + 6] == '-' && Two(s, b + 7)
       && s[b + 9] == ' ' && Clock(s, b + 10)
    then Some(Made(TwoOf(s, b + 7) + (if TwoOf(s, b + 7) < 70 then 2000 else 1900), MonthAt(s, b + 3).value,
                   TwoOf(s, b), s, b + 10))
    else None
  }

  /** Dec 10 23:50:13 2002, the day with one or two digits */
  function FieldsIsoc(s: string, b: nat): Option<Stamp>
    requires b + 18 <= |s|
  {
    var o := if s[b + 4] == ' ' then b + 5 else b + 4;
    if !IsDigit(s[o]) || (s[o + 1] != ' ' && !IsDigit(s[o + 1])) then None
    else
      var (day, q) := if s[o + 1] == ' ' then (Digit(s[o]), o + 1) else (TwoOf(s, o), o + 2);
      if MonthAt(s, b).Some? && |s| - q >= 14 && s[q] == ' ' && Clock(s, q + 1) && s[q + 9] == ' ' && Four(s, q + 10)
      then Some(Made(FourOf(s, q + 10), MonthAt(s, b).value, day, s, q + 1))
      else None
  }

  /** The fields from b on, for a date with or without a comma before. */
  function FieldsFrom(s: string, b: nat, isoc: bool): Option<Stamp>
    requires b + 18 <= |s|
  {
    if isoc then FieldsIsoc(s, b) else if s[b + 2] == ' ' then Fields822(s, b) else Fields850(s, b)
  }

  /** The first comma or space, which ends the name of the day. */
  function Separator(s: string, i: nat): (k: nat)
    requires i <= |s|
    ensures i <= k <= |s|
    decreases |s| - i
  {
    if i == |s| || s[i] == ',' || s[i] == ' ' then i else Separator(s, i + 1)
  }

  function NoSpace(s: string, i: nat): (k: nat)
    requires i <= |s|
    ensures i <= k <= |s|
    decreases |s| - i
  {
    if i == |s| || s[i] != ' ' then i else NoSpace(s, i + 1)
  }

  function Fields(value: string): Option<Stamp>
  {
    var k := Separator(value, 0);
    if k == |value| then None
    else
      var b := NoSpace(value, k + 1);
      if b + 18 > |value| then None else FieldsFrom(value, b, value[k] == ' ')
  }

  // ---------------------------------------------------------------- what a date means

  predicate Leap(year: nat) { year % 4 == 0 && (year % 100 != 0 || year % 400 == 0) }

  function DaysIn(year: nat, month: nat): nat
  {
    if month == 1 then if Leap(year) then 29 else 28
    else if month == 3 || month == 5 || month == 8 || month == 10 then 30 else 31
  }

  /** The days of the years from 0 to year - 1, counted one by one. */
  function YearDays(year: nat): nat
  {
    if year == 0 then 0 else YearDays(year - 1) + (if Leap(year - 1) then 366 else 365)
  }

  /** The days of the months before one. */
  function MonthDays(year: nat, month: nat): nat
  {
    if month == 0 then 0 else MonthDays(year, month - 1) + DaysIn(year, month - 1)
  }

  /** The date, as days since 1 January 1970 of the proleptic Gregorian calendar. */
  function DayNumber(st: Stamp): int
  {
    YearDays(st.year) + MonthDays(st.year, st.month) + st.day - 1 - YearDays(1970)
  }

  function SecondOf(st: Stamp): nat { st.hour * 3600 + st.min * 60 + st.sec }

  /** Unix time */
  function Time(st: Stamp): int { DayNumber(st) * 86400 + SecondOf(st) }

  /** The dates the code accepts. A day 0 is among them. */
  predicate Accepted(st: Stamp)
  {
    st.month < 12 && st.day <= DaysIn(st.year, st.month) && st.hour <= 23 && st.min <= 59 && st.sec <= 59
  }

  /** Gauss' formula as the code evaluates it, on unsigned 64-bit numbers. */
  function Gauss(st: Stamp): int
  {
    var m := if st.month <= 1 then st.month + 11 else st.month - 1;
    var y := if st.month <= 1 then (st.year - 1) % U64 else st.year;
    Signed64((365 * y + y / 4 - y / 100 + y / 400 + 367 * m / 12 - 30 + st.day - 1 - 719527 + 31 + 28) * 86400
             + SecondOf(st))
  }

  /** The value of a 64-bit expression, cast to a signed type. */
  function Signed64(x: int): int
  {
    var t := x % U64;
    if t < U64 / 2 then t else t - U64
  }

  lemma SignedExact(x: int)
    requires -U64 / 2 <= x < U64 / 2
    ensures Signed64(x) == x
  {
  }

  lemma {:induction false} YearDaysClosed(y: nat)
    ensures YearDays(y + 1) == 366 + 365 * y + y / 4 - y / 100 + y / 400
  {
    if y > 0 {
      YearDaysClosed(y - 1);
      LeapSteps(y);
    }
  }

  lemma LeapSteps(y: nat)
    requires y > 0
    ensures y / 4 - (y - 1) / 4 == if y % 4 == 0 then 1 else 0
    ensures y / 100 - (y - 1) / 100 == if y % 100 == 0 then 1 else 0
    ensures y / 400 - (y - 1) / 400 == if y % 400 == 0 then 1 else 0
    ensures y % 400 == 0 ==> y % 100 == 0
    ensures y % 100 == 0 ==> y % 4 == 0
  {
  }

  lemma MonthDaysClosed(year: nat, month: nat)
    requires month < 12
    ensures month <= 1 ==> MonthDays(year, month) == 31 * month && 367 * (month + 11) / 12 == 336 + 31 * month
    ensures month > 1 ==> MonthDays(year, month) == 367 * (month - 1) / 12 - 30 + 59 + (if Leap(year) then 1 else 0)
  {
    assert MonthDays(year, 1) == 31;
    assert MonthDays(year, 2) == 31 + DaysIn(year, 1);
    assert MonthDays(year, 3) == MonthDays(year, 2) + 31;
    assert MonthDays(year, 4) == MonthDays(year, 3) + 30;
    assert MonthDays(year, 5) == MonthDays(year, 4) + 31;
    assert MonthDays(year, 6) == MonthDays(year, 5) + 30;
    assert MonthDays(year, 7) == MonthDays(year, 6) + 31;
    assert MonthDays(year, 8) == MonthDays(year, 7) + 31;
    assert MonthDays(year, 9) == MonthDays(year, 8) + 30;
    assert MonthDays(year, 10) == MonthDays(year, 9) + 31;
    assert MonthDays(year, 11) == MonthDays(year, 10) + 30;
  }

  lemma GaussDays(st: Stamp)
    requires Accepted(st) && st.year + (if st.month <= 1 then 0 else 1) > 0
    ensures var m := if st.month <= 1 then st.month + 11 else st.month - 1;
            var y := if st.month <= 1 then st.year - 1 else st.year;
            DayNumber(st) == 365 * y + y / 4 - y / 100 + y / 400 + 367 * m / 12 - 30 + st.day - 1 - 719527 + 31 + 28
  {
    var y := if st.month <= 1 then st.year - 1 else st.year;
    YearDaysClosed(y);
    YearDaysClosed(1969);
    MonthDaysClosed(st.year, st.month);
    if st.month > 1 { assert YearDays(st.year + 1) == YearDays(st.year) + (if Leap(st.year) then 366 else 365); }
  }

  /** The formula gives the count, for all accepted dates of the years the formats can
      express but January and February of the year 0, where the year wraps. */
  lemma GaussExact(st: Stamp)
    requires Accepted(st) && st.year <= 9999
    ensures Gauss(st) == Time(st) <==> !(st.year == 0 && st.month <= 1)
  {
    hide Gauss, Time;
    if st.year == 0 && st.month <= 1 {
      WrappedYear(st);
    } else {
      GaussCast(st);
      DayBounds(st);
      SignedExact(Time(st));
    }
  }

  lemma GaussCast(st: Stamp)
    requires Accepted(st) && 1 <= st.year + (if st.month <= 1 then 0 else 1) && st.year <= 9999
    ensures Gauss(st) == Signed64(Time(st))
  {
    hide Signed64, DayNumber, SecondOf, DaysIn;
    GaussDays(st);
    assert st.month <= 1 ==> (st.year - 1) % U64 == st.year - 1;
  }

  lemma DayBounds(st: Stamp)
    requires Accepted(st) && st.year <= 9999 && !(st.year == 0 && st.month <= 1)
    ensures -1_000_000 < DayNumber(st) < 4_000_000 && SecondOf(st) < 86400
    ensures -U64 / 2 <= Time(st) < U64 / 2
  {
    GaussDays(st);
  }

  /** With a year of 2^64 - 1 the formula is off by a number of days that 2^64 does not
      divide. */
  lemma WrappedYear(st: Stamp)
    requires Accepted(st) && st.year == 0 && st.month <= 1
    ensures Gauss(st) == Time(st) + 10368
  {
    hide Signed64, DaysIn, SecondOf;
    var y := U64 - 1;
    var days, wraps := 6737534922341860905741, 31556952;
    assert 365 * y + y / 4 - y / 100 + y / 400 == days;
    var x := (days + 367 * (st.month + 11) / 12 - 30 + st.day - 1 - 719527 + 31 + 28) * 86400 + SecondOf(st);
    assert (st.year - 1) % U64 == y;
    assert Gauss(st) == Signed64(x);
    FirstDays(st);
    FirstSeconds(st);
    assert x - Time(st) == (days + 366) * 86400 == wraps * U64 + 10368;
    SignedShift(Time(st) + 10368, wraps);
    SignedExact(Time(st) + 10368);
  }

  lemma FirstSeconds(st: Stamp)
    requires Accepted(st) && st.year == 0 && st.month <= 1
    ensures -U64 / 2 <= Time(st) < -20000
  {
    FirstDays(st);
  }

  lemma SignedShift(x: int, k: int)
    ensures Signed64(x + k * U64) == Signed64(x)
  {
    ModShift(x, k);
  }

  lemma ModShift(x: int, k: int)
    ensures (x + k * U64) % U64 == x % U64
  {
    var q, r := x / U64, x % U64;
    assert x + k * U64 == (q + k) * U64 + r;
  }

  lemma FirstDays(st: Stamp)
    requires Accepted(st) && st.year == 0 && st.month <= 1
    ensures DayNumber(st) == 367 * (st.month + 11) / 12 - 30 + st.day - 1 - 719527 + 31 + 28 - 366
  {
    YearDaysClosed(1969);
    MonthDaysClosed(0, st.month);
    assert YearDays(0) == 0;
  }

  // ---------------------------------------------------------------- order

  /** The order of dates, field by field. */
  predicate Before(a: Stamp, b: Stamp)
  {
    a.year < b.year || (a.year == b.year &&
    (a.month < b.month || (a.month == b.month &&
    (a.day < b.day || (a.day == b.day && SecondOf(a) < SecondOf(b))))))
  }

  lemma {:induction false} MonthsGrow(year: nat, m: nat, n: nat)
    requires m < n <= 12
    ensures MonthDays(year, m) + DaysIn(year, m) <= MonthDays(year, n)
  {
    if m + 1 < n { MonthsGrow(year, m, n - 1); }
  }

  lemma {:induction false} YearsGrow(y: nat, z: nat)
    requires y < z
    ensures YearDays(y) + MonthDays(y, 12) <= YearDays(z)
  {
    if y + 1 < z {
      YearsGrow(y, z - 1);
    } else {
      MonthDaysClosed(y, 11);
      assert MonthDays(y, 12) == MonthDays(y, 11) + 31;
    }
  }

  /** Later dates have greater times. */
  lemma TimeMonotone(a: Stamp, b: Stamp)
    requires Accepted(a) && Accepted(b) && a.day >= 1 && b.day >= 1 && Before(a, b)
    ensures Time(a) < Time(b)
  {
    hide YearDays, MonthDays, DaysIn;
    MonthsGrow(a.year, a.month, 12);
    if a.year < b.year {
      YearsGrow(a.year, b.year);
    } else if a.month < b.month {
      MonthsGrow(a.year, a.month, b.month);
    }
  }

  /** Dates with a day of at least 1 are the same when their times are. */
  lemma TimeInjective(a: Stamp, b: Stamp)
    requires Accepted(a) && Accepted(b) && a.day >= 1 && b.day >= 1 && Time(a) == Time(b)
    ensures a == b
  {
    hide Time, SecondOf, DaysIn;
    if Before(a, b) { TimeMonotone(a, b); }
    if Before(b, a) { TimeMonotone(b, a); }
    assert SecondOf(a) == SecondOf(b);
    SecondsInjective(a, b);
  }

  lemma SecondsInjective(a: Stamp, b: Stamp)
    requires Accepted(a) && Accepted(b) && SecondOf(a) == SecondOf(b)
    ensures a.hour == b.hour && a.min == b.min && a.sec == b.sec
  {
  }

  /** A day 0 read as the last day of the month before; there is none before year 0. */
  function Normal(st: Stamp): Stamp
  {
    if st.day > 0 then st
    else if st.month > 0 then st.(month := st.month - 1, day := DaysIn(st.year, st.month - 1))
    else if st.year > 0 then st.(year := st.year - 1, month := 11, day := 31)
    else st
  }

  /** A day 0, which the code accepts in every month, has the time of the last day of the
      month before. */
  lemma DayZero(st: Stamp)
    requires Accepted(st) && st.day == 0 && !(st.year == 0 && st.month == 0)
    ensures Accepted(Normal(st)) && Normal(st).day >= 1 && Normal(st) != st && Time(Normal(st)) == Time(st)
  {
    hide MonthDays;
    if st.month > 0 {
      MonthStep(st.year, st.month);
      assert MonthDays(st.year, st.month) == MonthDays(st.year, st.month - 1) + DaysIn(st.year, st.month - 1);
    } else {
      YearWhole(st.year - 1);
    }
  }

  lemma MonthStep(year: nat, month: nat)
    requires 0 < month
    ensures MonthDays(year, month) == MonthDays(year, month - 1) + DaysIn(year, month - 1)
  {
  }

  /** The last month of a year ends with the year. */
  lemma YearWhole(year: nat)
    ensures MonthDays(year, 11) + 31 == YearDays(year + 1) - YearDays(year) && MonthDays(year + 1, 0) == 0
  {
    MonthDaysClosed(year, 11);
  }

  /** Two accepted dates have the same time exactly when they are the same once a day 0
      is read as the last day of the month before. */
  lemma SameTime(a: Stamp, b: Stamp)
    requires Accepted(a) && Accepted(b)
    ensures Time(a) == Time(b) <==> Normal(a) == Normal(b)
  {
    hide Time, Normal, Accepted;
    NormalTime(a);
    NormalTime(b);
    if Normal(a).day >= 1 && Normal(b).day >= 1 {
      if Time(a) == Time(b) { TimeInjective(Normal(a), Normal(b)); }
    } else {
      BeforeYearZero(Normal(a), Normal(b));
      BeforeYearZero(Normal(b), Normal(a));
    }
  }

  lemma NormalTime(st: Stamp)
    requires Accepted(st)
    ensures Accepted(Normal(st)) && Time(Normal(st)) == Time(st)
    ensures Normal(st).day == 0 ==> Normal(st).year == 0 && Normal(st).month == 0
  {
    if st.day == 0 && !(st.year == 0 && st.month == 0) { DayZero(st); }
  }

  /** The day before year 0 comes before every other. */
  lemma BeforeYearZero(a: Stamp, b: Stamp)
    requires Accepted(a) && Accepted(b) && (b.day == 0 ==> b.year == 0 && b.month == 0)
    ensures a.day == 0 && a.year == 0 && a.month == 0 ==> (Time(a) == Time(b) <==> a == b)
  {
    if a.day == 0 && a.year == 0 && a.month == 0 && Time(a) == Time(b) {
      assert YearDays(0) == 0 && MonthDays(0, 0) == 0;
      assert b.day == 0;
      SecondsInjective(a, b);
    }
  }

  /** The accepted dates whose value cannot be told from an error: the second before the
      epoch, as the last day of 1969 or as a day 0 of 1970. */
  const BEFORE_EPOCH := Stamp(1969, 11, 31, 23, 59, 59)
  const BEFORE_EPOCH_ZERO := Stamp(1970, 0, 0, 23, 59, 59)

  lemma ErrorIff(st: Stamp)
    requires Accepted(st) && st.year <= 9999
    ensures Gauss(st) == ERROR <==> st == BEFORE_EPOCH || st == BEFORE_EPOCH_ZERO
  {
    hide Gauss, Time;
    GaussExact(st);
    if st.year == 0 && st.month <= 1 {
      WrappedYear(st);
      FirstSeconds(st);
    } else {
      LastSecondOf1969();
      SameTime(st, BEFORE_EPOCH);
    }
  }

  lemma LastSecondOf1969()
    ensures Accepted(BEFORE_EPOCH) && Time(BEFORE_EPOCH) == ERROR
    ensures Accepted(BEFORE_EPOCH_ZERO) && Normal(BEFORE_EPOCH_ZERO) == BEFORE_EPOCH
  {
    YearWhole(1969);
  }

  // ---------------------------------------------------------------- the parser

  const MDAY: seq<nat> := [31, 28, 31, 30, 31, 30, 31, 31, 30, 31, 30, 31]

  function Expected(value: string): int
  {
    match Fields(value)
    case None => ERROR
    case Some(st) => if Accepted(st) then Gauss(st) else ERROR
  }

  /** ngx_http_parse_time: every character it looks at lies inside the value, and a date
      it accepts gives its Unix time. */
  method Parse(value: string) returns (time: int)
    ensures time == Expected(value)
    ensures Fields(value).Some? ==>
              var st := Fields(value).value;
              Accepted(st) && !(st.year == 0 && st.month <= 1) ==> time == Time(st)
  {
    hide Fields822, Fields850, FieldsIsoc, Gauss, Time, Accepted;
    var fmt := No;
    var p, end := 0, |value|;
    while p < end
      invariant p <= end && fmt == No && Separator(value, 0) == Separator(value, p)
    {
      if value[p] == ',' {
        break;
      }
      if value[p] == ' ' {
        fmt := Isoc;
        break;
      }
      p := p + 1;
    }
    assert p == Separator(value, 0);
    p := p + 1;
    ghost var p0 := p;
    while p < end
      invariant p0 <= p <= (if p0 <= end then end else p0)
      invariant p0 <= end ==> NoSpace(value, p0) == NoSpace(value, p)
    {
      if value[p] != ' ' {
        break;
      }
      p := p + 1;
    }
    if end - p < 18 {
      return ERROR;
    }
    var st := ParseFields(value, p, fmt);
    if st.None? {
      return ERROR;
    }
    FieldsBound(value);
    time := Evaluate(st.value);
    if Accepted(st.value) { GaussExact(st.value); }
  }

  lemma FieldsBound(value: string)
    ensures Fields(value).Some? ==> Fields(value).value.year <= 9999 && Fields(value).value.month < 12
  {
  }

  /** The parser returns the error value for exactly the values it cannot read, the dates
      out of range, and the second before the epoch. */
  lemma ErrorMeans(value: string)
    ensures Expected(value) == ERROR
            <==> Fields(value).None? || !Accepted(Fields(value).value)
                 || Fields(value).value == BEFORE_EPOCH || Fields(value).value == BEFORE_EPOCH_ZERO
  {
    hide Fields, Accepted, Gauss;
    FieldsBound(value);
    if Fields(value).Some? && Accepted(Fields(value).value) {
      ErrorIff(Fields(value).value);
    }
  }

  method ReadMonth(value: string, p: nat) returns (month: Option<nat>)
    requires p + 3 <= |value|
    ensures month == MonthAt(value, p)
  {
    match value[p] {
      case 'J' => month := Some(if value[p + 1] == 'a' then 0 else if value[p + 2] == 'n' then 5 else 6);
      case 'F' => month := Some(1);
      case 'M' => month := Some(if value[p + 2] == 'r' then 2 else 4);
      case 'A' => month := Some(if value[p + 1] == 'p' then 3 else 7);
      case 'S' => month := Some(8);
      case 'O' => month := Some(9);
      case 'N' => month := Some(10);
      case 'D' => month := Some(11);
      case _ => month := None;
    }
  }

  method ReadTwo(value: string, p: nat) returns (n: Option<nat>)
    requires p + 2 <= |value|
    ensures n == if Two(value, p) then Some(TwoOf(value, p)) else None
  {
    if !IsDigit(value[p]) || !IsDigit(value[p + 1]) {
      return None;
    }
    return Some(Digit(value[p]) * 10 + Digit(value[p + 1]));
  }

  method ReadFour(value: string, p: nat) returns (n: Option<nat>)
    requires p + 4 <= |value|
    ensures n == if Four(value, p) then Some(FourOf(value, p)) else None
  {
    if !IsDigit(value[p]) || !IsDigit(value[p + 1]) || !IsDigit(value[p + 2]) || !IsDigit(value[p + 3]) {
      return None;
    }
    return Some(Digit(value[p]) * 1000 + Digit(value[p + 1]) * 100 + Digit(value[p + 2]) * 10 + Digit(value[p + 3]));
  }

  /** The time of day, without the two digits after it. */
  method ReadClock(value: string, p0: nat) returns (ok: bool, hour: nat, min: nat, sec: nat)
    requires p0 + 8 <= |value|
    ensures ok == Clock(value, p0)
    ensures ok ==> hour == TwoOf(value, p0) && min == TwoOf(value, p0 + 3) && sec == TwoOf(value, p0 + 6)
  {
    var p := p0;
    ok, hour, min, sec := false, 0, 0, 0;
    var n := ReadTwo(value, p);
    if n.None? {
      return;
    }
    hour, p := n.value, p + 2;
    if value[p] != ':' {
      return;
    }
    p := p + 1;
    n := ReadTwo(value, p);
    if n.None? {
      return;
    }
    min, p := n.value, p + 2;
    if value[p] != ':' {
      return;
    }
    p := p + 1;
    n := ReadTwo(value, p);
    if n.None? {
      return;
    }
    sec, ok := n.value, true;
  }

  /** The day of the month of the third form, which may have one digit only. */
  method ReadDay(value: string, p0: nat) returns (ok: bool, day: nat, p: nat)
    requires p0 + 3 <= |value|
    ensures var o := if value[p0] == ' ' then p0 + 1 else p0;
            && ok == (IsDigit(value[o]) && (value[o + 1] == ' ' || IsDigit(value[o + 1])))
            && (ok ==> if value[o + 1] == ' ' then p == o + 1 && day == Digit(value[o])
                       else p == o + 2 && Two(value, o) && day == TwoOf(value, o))
  {
    p, ok, day := p0, false, 0;
    if value[p] == ' ' {
      p := p + 1;
    }
    if !IsDigit(value[p]) {
      return;
    }
    day := Digit(value[p]);
    p := p + 1;
    if value[p] != ' ' {
      if !IsDigit(value[p]) {
        return;
      }
      day := day * 10 + Digit(value[p]);
      p := p + 1;
    }
    ok := true;
  }

  /** The part of ngx_http_parse_time from the day of the month on. */
  method ParseFields(value: string, start: nat, format: Format) returns (st: Option<Stamp>)
    requires start + 18 <= |value| && (format == No || format == Isoc)
    ensures st == FieldsFrom(value, start, format == Isoc)
  {
    hide Two, TwoOf, Four, FourOf, Clock, MonthAt;
    var fmt, p, end := format, start, |value|;
    var day, year := 32, 2038;
    var ok, hour, min, sec;
    if fmt != Isoc {
      var n := ReadTwo(value, p);
      if n.None? {
        return None;
      }
      day, p := n.value, p + 2;
      if value[p] == ' ' {
        if end - p < 18 {
          return None;
        }
        fmt := Rfc822;
      } else if value[p] == '-' {
        fmt := Rfc850;
      } else {
        return None;
      }
      p := p + 1;
    }
    var month := ReadMonth(value, p);
    if month.None? {
      return None;
    }
    p := p + 3;
    if (fmt == Rfc822 && value[p] != ' ') || (fmt == Rfc850 && value[p] != '-') {
      return None;
    }
    p := p + 1;
    if fmt == Rfc822 {
      var n := ReadFour(value, p);
      if n.None? {
        return None;
      }
      year, p := n.value, p + 4;
    } else if fmt == Rfc850 {
      var n := ReadTwo(value, p);
      if n.None? {
        return None;
      }
      year, p := n.value + (if n.value < 70 then 2000 else 1900), p + 2;
    }
    if fmt == Isoc {
      ok, day, p := ReadDay(value, p);
      if !ok || end - p < 14 {
        return None;
      }
    }
    if value[p] != ' ' {
      return None;
    }
    p := p + 1;
    ok, hour, min, sec := ReadClock(value, p);
    if !ok {
      return None;
    }
    if fmt == Isoc {
      p := p + 8;
      if value[p] != ' ' {
        return None;
      }
      var n := ReadFour(value, p + 1);
      if n.None? {
        return None;
      }
      year := n.value;
    }
    return Some(Stamp(year, month.value, day, hour, min, sec));
  }

  /** The part of ngx_http_parse_time that checks the fields and applies the formula. */
  method Evaluate(st: Stamp) returns (time: int)
    requires st.month < 12
    ensures time == if Accepted(st) then Gauss(st) else ERROR
  {
    hide Gauss;
    var month, year, day := st.month, st.year, st.day;
    if st.hour > 23 || st.min > 59 || st.sec > 59 {
      return ERROR;
    }
    if day == 29 && month == 1 {
      if year % 4 != 0 || (year % 100 == 0 && year % 400 != 0) {
        return ERROR;
      }
    } else if day > MDAY[month] {
      return ERROR;
    }
    time := ByFormula(st);
  }

  /** The end of it: months are counted from March, and the formula. */
  method ByFormula(st: Stamp) returns (time: int)
    ensures time == Gauss(st)
  {
    hide Signed64;
    var year: int, day := st.year, st.day;
    var m: int := st.month - 1;
    if m <= 0 {
      m := m + 12;
      year := (year - 1) % U64;
    }
    time := Signed64((365 * year + year / 4 - year / 100 + year / 400 + 367 * m / 12 - 30 + day - 1 - 719527 + 31 + 28)
                     * 86400
                     + st.hour * 3600 + st.min * 60 + st.sec);
  }

  // ---------------------------------------------------------------- the three forms of a date

  function Char(n: nat): (c: char)
    requires n < 10
    ensures IsDigit(c) && Digit(c) == n
  {
    ('0' as int + n) as char
  }

  function MonthName(m: nat): (s: string)
    requires m < 12
    ensures |s| == 3
  {
    match m
    case 0 => "Jan" case 1 => "Feb" case 2 => "Mar" case 3 => "Apr" case 4 => "May" case 5 => "Jun"
    case 6 => "Jul" case 7 => "Aug" case 8 => "Sep" case 9 => "Oct" case 10 => "Nov" case _ => "Dec"
  }

  /** Dates that the forms can write. */
  predicate Writable(st: Stamp)
  {
    st.year < 10000 && st.month < 12 && st.day < 100 && st.hour < 100 && st.min < 100 && st.sec < 100
  }

  function ClockText(st: Stamp): (s: string)
    requires Writable(st)
    ensures |s| == 8 && Clock(s, 0) && TwoOf(s, 0) == st.hour && TwoOf(s, 3) == st.min && TwoOf(s, 6) == st.sec
  {
    [Char(st.hour / 10), Char(st.hour % 10), ':', Char(st.min / 10), Char(st.min % 10), ':',
     Char(st.sec / 10), Char(st.sec % 10)]
  }

  function TwoText(n: nat): (s: string)
    requires n < 100
    ensures |s| == 2 && Two(s, 0) && TwoOf(s, 0) == n
  {
    [Char(n / 10), Char(n % 10)]
  }

  function FourText(n: nat): (s: string)
    requires n < 10000
    ensures |s| == 4 && Four(s, 0) && FourOf(s, 0) == n
  {
    var a, b := TwoText(n / 100), TwoText(n % 100);
    assert (a + b)[0] == a[0] && (a + b)[1] == a[1] && (a + b)[2] == b[0] && (a + b)[3] == b[1];
    a + b
  }

  /** IMF-fixdate, the obsolete RFC 850 form and the form of asctime, without the name
      of the day. */
  function Text822(st: Stamp): string
    requires Writable(st)
  {
    TwoText(st.day) + " " + MonthName(st.month) + " " + FourText(st.year) + " " + ClockText(st)
  }

  function Text850(st: Stamp): string
    requires Writable(st)
  {
    TwoText(st.day) + "-" + MonthName(st.month) + "-" + TwoText(st.year % 100) + " " + ClockText(st)
  }

  function TextIsoc(st: Stamp): string
    requires Writable(st)
  {
    MonthName(st.month) + " " + (if st.day < 10 then " " + [Char(st.day)] else TwoText(st.day))
    + " " + ClockText(st) + " "
    + FourText(st.year)
  }

  /** A text at place b of a string. */
  predicate At(s: string, b: nat, t: string)
  {
    b + |t| <= |s| && forall i :: 0 <= i < |t| ==> s[b + i] == t[i]
  }

  lemma AtJoin(s: string, b: nat, t: string, u: string)
    ensures At(s, b, t + u) <==> At(s, b, t) && At(s, b + |t|, u)
  {
    if At(s, b, t + u) {
      forall i | 0 <= i < |u| ensures s[b + |t| + i] == u[i] { assert u[i] == (t + u)[|t| + i]; }
      forall i | 0 <= i < |t| ensures s[b + i] == t[i] { assert t[i] == (t + u)[i]; }
    }
  }

  lemma AtTwo(s: string, b: nat, n: nat)
    requires n < 100 && At(s, b, TwoText(n))
    ensures Two(s, b) && TwoOf(s, b) == n
  {
    assert s[b + 0] == TwoText(n)[0] && s[b + 1] == TwoText(n)[1];
  }

  lemma AtFour(s: string, b: nat, n: nat)
    requires n < 10000 && At(s, b, FourText(n))
    ensures Four(s, b) && FourOf(s, b) == n
  {
    var t := FourText(n);
    assert s[b + 0] == t[0] && s[b + 1] == t[1] && s[b + 2] == t[2] && s[b + 3] == t[3];
  }

  lemma AtMonth(s: string, b: nat, m: nat)
    requires m < 12 && At(s, b, MonthName(m))
    ensures b + 3 <= |s| && MonthAt(s, b) == Some(m)
  {
    var t := MonthName(m);
    assert s[b + 0] == t[0] && s[b + 1] == t[1] && s[b + 2] == t[2];
  }

  lemma AtClock(s: string, b: nat, st: Stamp)
    requires Writable(st) && At(s, b, ClockText(st))
    ensures Clock(s, b) && TwoOf(s, b) == st.hour && TwoOf(s, b + 3) == st.min && TwoOf(s, b + 6) == st.sec
  {
    var t := ClockText(st);
    assert s[b + 0] == t[0] && s[b + 1] == t[1] && s[b + 2] == t[2] && s[b + 3] == t[3];
    assert s[b + 4] == t[4] && s[b + 5] == t[5] && s[b + 6] == t[6] && s[b + 7] == t[7];
  }

  lemma AtChar(s: string, b: nat, c: char)
    requires At(s, b, [c])
    ensures b < |s| && s[b] == c
  {
    assert s[b + 0] == [c][0];
  }

  lemma Read822(s: string, b: nat, st: Stamp)
    requires Writable(st) && At(s, b, Text822(st))
    ensures Fields822(s, b) == Some(st) && b + 20 <= |s| && s[b + 2] == ' ' && s[b] != ' '
  {
    hide At, Two, TwoOf, Four, FourOf, Clock, MonthAt, TwoText, FourText, MonthName, ClockText;
    var a, m, y, c := TwoText(st.day), MonthName(st.month), FourText(st.year), ClockText(st);
    AtJoin(s, b, a + " " + m + " " + y + " ", c);
    AtJoin(s, b, a + " " + m + " " + y, " ");
    AtJoin(s, b, a + " " + m + " ", y);
    AtJoin(s, b, a + " " + m, " ");
    AtJoin(s, b, a + " ", m);
    AtJoin(s, b, a, " ");
    AtTwo(s, b, st.day);
    AtMonth(s, b + 3, st.month);
    AtFour(s, b + 7, st.year);
    AtClock(s, b + 12, st);
    AtChar(s, b + 2, ' ');
    AtChar(s, b + 6, ' ');
    AtChar(s, b + 11, ' ');
    ClockInside(s, b + 12);
    TwoDigits(s, b);
  }

  lemma ClockInside(s: string, b: nat)
    requires Clock(s, b)
    ensures b + 8 <= |s| && Two(s, b) && Two(s, b + 3) && Two(s, b + 6)
  {
  }

  lemma TwoDigits(s: string, b: nat)
    requires Two(s, b)
    ensures b + 2 <= |s| && IsDigit(s[b]) && IsDigit(s[b + 1])
  {
  }

  lemma Read850(s: string, b: nat, st: Stamp)
    requires Writable(st) && 1970 <= st.year <= 2069 && At(s, b, Text850(st))
    ensures Fields850(s, b) == Some(st) && b + 18 <= |s| && s[b + 2] != ' ' && s[b] != ' '
  {
    hide At, Two, TwoOf, Four, FourOf, Clock, MonthAt, TwoText, FourText, MonthName, ClockText;
    var a, m, y, c := TwoText(st.day), MonthName(st.month), TwoText(st.year % 100), ClockText(st);
    AtJoin(s, b, a + "-" + m + "-" + y + " ", c);
    AtJoin(s, b, a + "-" + m + "-" + y, " ");
    AtJoin(s, b, a + "-" + m + "-", y);
    AtJoin(s, b, a + "-" + m, "-");
    AtJoin(s, b, a + "-", m);
    AtJoin(s, b, a, "-");
    AtTwo(s, b, st.day);
    AtMonth(s, b + 3, st.month);
    AtTwo(s, b + 7, st.year % 100);
    AtClock(s, b + 10, st);
    AtChar(s, b + 2, '-');
    AtChar(s, b + 6, '-');
    AtChar(s, b + 9, ' ');
    ClockInside(s, b + 10);
    TwoDigits(s, b);
  }

  lemma ReadIsoc(s: string, b: nat, st: Stamp)
    requires Writable(st) && At(s, b, TextIsoc(st))
    ensures b + 18 <= |s| && FieldsIsoc(s, b) == Some(st) && s[b] != ' '
  {
    hide At, Two, TwoOf, Four, FourOf, Clock, MonthAt, TwoText, FourText, MonthName, ClockText;
    var m, y, c := MonthName(st.month), FourText(st.year), ClockText(st);
    var d := if st.day < 10 then " " + [Char(st.day)] else TwoText(st.day);
    AtJoin(s, b, m + " " + d + " " + c + " ", y);
    AtJoin(s, b, m + " " + d + " " + c, " ");
    AtJoin(s, b, m + " " + d + " ", c);
    AtJoin(s, b, m + " " + d, " ");
    AtJoin(s, b, m + " ", d);
    AtJoin(s, b, m, " ");
    AtMonth(s, b, st.month);
    MonthLetter(s, b);
    AtChar(s, b + 6, ' ');
    AtChar(s, b + 15, ' ');
    AtClock(s, b + 7, st);
    AtFour(s, b + 16, st.year);
    ClockInside(s, b + 7);
    FourInside(s, b + 16);
    if st.day < 10 {
      AtJoin(s, b + 4, " ", [Char(st.day)]);
      AtChar(s, b + 4, ' ');
      AtChar(s, b + 5, Char(st.day));
    } else {
      AtTwo(s, b + 4, st.day);
      TwoDigits(s, b + 4);
    }
  }

  lemma FourInside(s: string, b: nat)
    requires Four(s, b)
    ensures b + 4 <= |s|
  {
  }

  lemma MonthLetter(s: string, b: nat)
    requires b + 3 <= |s| && MonthAt(s, b).Some?
    ensures s[b] != ' '
  {
  }

  predicate Plain(name: string) { forall i :: 0 <= i < |name| ==> name[i] != ',' && name[i] != ' ' }

  lemma {:induction false} SeparatorAfter(s: string, name: string, i: nat)
    requires Plain(name) && i <= |name| && At(s, 0, name) && |name| < |s| && (s[|name|] == ',' || s[|name|] == ' ')
    ensures Separator(s, i) == |name|
    decreases |name| - i
  {
    if i < |name| {
      assert s[0 + i] == name[i];
      SeparatorAfter(s, name, i + 1);
    }
  }

  /** Each of the three forms, after any name of a day and with anything behind it, is
      read as the date it was written for. */
  lemma ReadsForms(name: string, st: Stamp, tail: string)
    requires Plain(name) && Writable(st)
    ensures Fields(name + ", " + Text822(st) + tail) == Some(st)
    ensures 1970 <= st.year <= 2069 ==> Fields(name + ", " + Text850(st) + tail) == Some(st)
    ensures Fields(name + " " + TextIsoc(st) + tail) == Some(st)
  {
    hide *;
    var v := name + ", " + Text822(st) + tail;
    Placed(name, ", ", Text822(st), tail);
    Read822(v, |name| + 2, st);
    FieldsAt(v, |name|, |name| + 2);
    if 1970 <= st.year <= 2069 {
      var w := name + ", " + Text850(st) + tail;
      Placed(name, ", ", Text850(st), tail);
      Read850(w, |name| + 2, st);
      FieldsAt(w, |name|, |name| + 2);
    }
    var x := name + " " + TextIsoc(st) + tail;
    Placed(name, " ", TextIsoc(st), tail);
    ReadIsoc(x, |name| + 1, st);
    FieldsAt(x, |name|, |name| + 1);
  }

  /** Where the fields begin once the name of the day and the spaces are skipped. */
  lemma FieldsAt(s: string, k: nat, b: nat)
    requires Separator(s, 0) == k < |s| && k < b <= k + 2 && b + 18 <= |s| && s[b] != ' '
    requires b == k + 2 ==> s[k + 1] == ' '
    ensures Fields(s) == if s[k] == ' ' then FieldsIsoc(s, b)
                         else if s[b + 2] == ' ' then Fields822(s, b) else Fields850(s, b)
  {
    hide Separator, FieldsIsoc, Fields822, Fields850;
    assert NoSpace(s, b) == b;
    assert NoSpace(s, k + 1) == b;
  }

  lemma Placed(name: string, sep: string, text: string, tail: string)
    requires Plain(name) && (sep == ", " || sep == " ")
    ensures var s := name + sep + text + tail;
            && At(s, |name| + |sep|, text) && Separator(s, 0) == |name| < |s| && s[|name|] == sep[0]
            && (sep == ", " ==> s[|name| + 1] == ' ')
  {
    var s := name + sep + text + tail;
    forall i | 0 <= i < |text| ensures s[|name| + |sep| + i] == text[i] {}
    assert forall i :: 0 <= i < |name| ==> s[0 + i] == name[i];
    assert s[|name|] == sep[0];
    SeparatorAfter(s, name, 0);
  }

  /** The three forms of one instant from 1970 to 2069 give the same Unix time. */
  lemma FormsAgree(name: string, long: string, st: Stamp, tail: string)
    requires Plain(name) && Plain(long) && Accepted(st) && 1970 <= st.year <= 2069
    ensures Expected(name + ", " + Text822(st) + tail) == Time(st)
    ensures Expected(long + ", " + Text850(st) + tail) == Time(st)
    ensures Expected(name + " " + TextIsoc(st) + tail) == Time(st)
  {
    hide Fields, Text822, Text850, TextIsoc, Gauss, Time, Accepted;
    AcceptedWritable(st);
    ReadsForms(name, st, tail);
    ReadsForms(long, st, tail);
    GaussExact(st);
  }

  lemma AcceptedWritable(st: Stamp)
    requires Accepted(st) && st.year < 10000
    ensures Writable(st)
  {
  }
}
