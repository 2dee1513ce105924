/** The proleptic Gregorian calendar as Python's `datetime` and `calendar` modules
    use it: dates, `replace`, the month shift of the relative parser, and adding a
    `timedelta`. */
module Calendar {
  import opened Wrappers

  const MinYear: int := 1
  const MaxYear: int := 9999
  const SecondsPerDay: int := 86400
  /** `timedelta` refuses more than this many days in either direction. */
  const MaxDeltaDays: int := 999999999
  /** `replace` takes its fields as C `int`s: a year outside this range is refused
      with OverflowError before the calendar range is checked. */
  const CIntMin: int := -0x8000_0000
  const CIntMax: int := 0x7FFF_FFFF

  /** `calendar.isleap`. */
  predicate IsLeap(y: int) {
    y % 4 == 0 && (y % 100 != 0 || y % 400 == 0)
  }

  /** `calendar.monthrange(y, m)[1]`. */
  function DaysInMonth(y: int, m: int): (n: int)
    requires 1 <= m <= 12
    ensures 28 <= n <= 31
    ensures m == 2 <==> n < 30
  {
    if m == 2 then (if IsLeap(y) then 29 else 28)
    else if m == 4 || m == 6 || m == 9 || m == 11 then 30
    else 31
  }

  /** A calendar date. The year is not bounded here: `InRange` states the bound
      `datetime` imposes. */
  datatype Date = Date(year: int, month: int, day: int)

  predicate ValidDate(d: Date) {
    1 <= d.month <= 12 && 1 <= d.day <= DaysInMonth(d.year, d.month)
  }

  predicate InRange(d: Date) {
    MinYear <= d.year <= MaxYear
  }

  /** A `datetime` without time zone: a date and the seconds since midnight
      (microseconds included). */
  datatype DateTime = DateTime(date: Date, clock: real)

  predicate Valid(t: DateTime) {
    ValidDate(t.date) && InRange(t.date) && 0.0 <= t.clock < SecondsPerDay as real
  }

  // ---------------------------------------------------------------------------
  // replace(year=...)

  /** The exception `replace` raises for a year it refuses: OverflowError when the
      year does not fit a C `int`, ValueError otherwise. */
  function YearFault(y: int): (f: Fault)
    ensures f == ValueError <==> CIntMin <= y <= CIntMax
    ensures f == ValueError || f == OverflowError
  {
    if CIntMin <= y <= CIntMax then ValueError else OverflowError
  }

  /** `t.replace(year=y)`: refused when the year leaves 1..9999 or the date is
      29 February and `y` is not a leap year; the fault is ValueError unless the
      year does not even fit a C `int`. */
  function ReplaceYear(t: DateTime, y: int): (r: Result<DateTime>)
    requires Valid(t)
    ensures r.Ok? <==> MinYear <= y <= MaxYear && t.date.day <= DaysInMonth(y, t.date.month)
    ensures r.Err? ==> r.fault == YearFault(y)
    ensures r.Err? && MinYear - 1 <= y <= MaxYear + 1 ==> r.fault == ValueError
    ensures r.Ok? ==> Valid(r.value) && r.value.date.year == y
    ensures r.Ok? ==> r.value.date.month == t.date.month && r.value.date.day == t.date.day
    ensures r.Ok? ==> r.value.clock == t.clock
  {
    if MinYear <= y <= MaxYear && t.date.day <= DaysInMonth(y, t.date.month) then
      Ok(DateTime(Date(y, t.date.month, t.date.day), t.clock))
    else Err(YearFault(y))
  }

  /** Only 29 February can be refused by a year change inside the calendar's range. */
  lemma ReplaceYearFailsOnlyOnLeapDay(t: DateTime, y: int)
    requires Valid(t) && MinYear <= y <= MaxYear
    ensures ReplaceYear(t, y).Err? <==> t.date.month == 2 && t.date.day == 29 && !IsLeap(y)
  {
  }

  // ---------------------------------------------------------------------------
  // The month shift

  /** Python's `int(a / 12)`: the quotient truncated toward zero, so the
      remainder it leaves has the sign of `a`. */
  function TruncDiv12(a: int): (q: int)
    ensures a >= 0 ==> 0 <= a - 12 * q < 12
    ensures a < 0 ==> -12 < a - 12 * q <= 0
  {
    if a >= 0 then a / 12 else -((-a) / 12)
  }

  function Min(a: int, b: int): int {
    if a <= b then a else b
  }

  /** The shifted date the month arithmetic computes from a year carry: the day is
      lowered to the length of the target month, then `replace` checks the year. */
  function MonthTarget(t: DateTime, newyear: int, total: int): (r: Result<DateTime>)
    requires Valid(t)
    ensures r.Err? <==> !(MinYear <= newyear <= MaxYear)
    ensures r.Err? ==> r.fault == YearFault(newyear)
    ensures r.Ok? ==> Valid(r.value) && r.value.clock == t.clock
    ensures r.Ok? ==> r.value.date.year == newyear && r.value.date.month == total % 12 + 1
    ensures r.Ok? ==> r.value.date.day <= t.date.day
    ensures r.Ok? ==>
      r.value.date.day == t.date.day || r.value.date.day == DaysInMonth(newyear, total % 12 + 1)
  {
    var newmonth := total % 12 + 1;
    var newday := Min(t.date.day, DaysInMonth(newyear, newmonth));
    if MinYear <= newyear <= MaxYear then Ok(DateTime(Date(newyear, newmonth, newday), t.clock))
    else Err(YearFault(newyear))
  }

  /** Lines 313-318 as written: the year carry is `int(x / 12)`, which truncates,
      while the month is `x % 12`, which floors. */
  function ShiftMonthsAsWritten(t: DateTime, months: int): (r: Result<DateTime>)
    requires Valid(t)
    ensures var total := (t.date.month - 1) + months;
      r.Err? <==> !(MinYear <= t.date.year + TruncDiv12(total) <= MaxYear)
    ensures var total := (t.date.month - 1) + months;
      r.Err? ==> r.fault == YearFault(t.date.year + TruncDiv12(total))
    ensures var total := (t.date.month - 1) + months;
      r.Ok? ==> && Valid(r.value) && r.value.clock == t.clock
                && r.value.date.year == t.date.year + TruncDiv12(total)
                && r.value.date.month == total % 12 + 1
                && r.value.date.day == Min(t.date.day, DaysInMonth(r.value.date.year, r.value.date.month))
  {
    var total := (t.date.month - 1) + months;
    MonthTarget(t, t.date.year + TruncDiv12(total), total)
  }

  /** The month shift with the year carry floored like the month: moves the date by
      `months` calendar months, lowering the day to fit the target month. */
  function ShiftMonths(t: DateTime, months: int): (r: Result<DateTime>)
    requires Valid(t)
    ensures r.Ok? ==> Valid(r.value) && r.value.clock == t.clock
    ensures r.Ok? ==>
      r.value.date.year * 12 + (r.value.date.month - 1) == t.date.year * 12 + (t.date.month - 1) + months
    ensures r.Ok? ==> r.value.date.day == Min(t.date.day, DaysInMonth(r.value.date.year, r.value.date.month))
    ensures r.Err? <==> !(MinYear <= MonthIndexYear(t, months) <= MaxYear)
    ensures r.Err? ==> r.fault == YearFault(MonthIndexYear(t, months))
  {
    var total := (t.date.month - 1) + months;
    MonthTarget(t, t.date.year + total / 12, total)
  }

  /** The year the month count `months` away from `t` falls in. */
  function MonthIndexYear(t: DateTime, months: int): int {
    (t.date.year * 12 + (t.date.month - 1) + months) / 12
  }

  /** The two carries agree exactly when the month count before the carry is not
      negative or is a whole number of years: for every shift into the future, for
      shifts into the past that stay in the current year or later, and for shifts
      back to the same month of an earlier year. */
  lemma ShiftMonthsAgreement(t: DateTime, months: int)
    requires Valid(t)
    ensures var total := (t.date.month - 1) + months;
      TruncDiv12(total) == total / 12 <==> total >= 0 || total % 12 == 0
    ensures var total := (t.date.month - 1) + months;
      total >= 0 || total % 12 == 0 ==> ShiftMonthsAsWritten(t, months) == ShiftMonths(t, months)
  {
  }

  /** Otherwise the truncated carry lands one year later than the floored one, in
      the same month and, unless the leap years differ in February, on the same
      day. */
  lemma ShiftMonthsYearAhead(t: DateTime, months: int)
    requires Valid(t)
    requires (t.date.month - 1) + months < 0 && ((t.date.month - 1) + months) % 12 != 0
    requires ShiftMonthsAsWritten(t, months).Ok? && ShiftMonths(t, months).Ok?
    ensures var w, f := ShiftMonthsAsWritten(t, months).value, ShiftMonths(t, months).value;
      w.date.year == f.date.year + 1 && w.date.month == f.date.month
      && (w.date.day == f.date.day || w.date.month == 2) && w.clock == f.clock
  {
  }

  /** "1 month ago" on 15 January 2024: the code as written lands on 15 December
      2024, in the future; the floored carry gives 15 December 2023. */
  lemma MonthCarryCounterexample(t: DateTime)
    requires t == DateTime(Date(2024, 1, 15), 0.0)
    ensures ShiftMonthsAsWritten(t, -1) == Ok(DateTime(Date(2024, 12, 15), 0.0))
    ensures ShiftMonths(t, -1) == Ok(DateTime(Date(2023, 12, 15), 0.0))
  {
  }

  /** Shifting a valid date and shifting back restores it unless the day was lowered. */
  lemma ShiftMonthsBack(t: DateTime, months: int)
    requires Valid(t)
    requires ShiftMonths(t, months).Ok?
    requires ShiftMonths(t, months).value.date.day == t.date.day
    ensures ShiftMonths(ShiftMonths(t, months).value, -months) == Ok(t)
  {
    var u := ShiftMonths(t, months).value;
    var back := ShiftMonths(u, -months);
    assert back.Ok?;
    assert back.value.date.year * 12 + (back.value.date.month - 1) == t.date.year * 12 + (t.date.month - 1);
    assert back.value.date.year == t.date.year;
  }

  // ---------------------------------------------------------------------------
  // Days

  /** The day after `d`. */
  function NextDay(d: Date): (r: Date)
    requires ValidDate(d)
    ensures ValidDate(r)
  {
    if d.day < DaysInMonth(d.year, d.month) then Date(d.year, d.month, d.day + 1)
    else if d.month < 12 then Date(d.year, d.month + 1, 1)
    else Date(d.year + 1, 1, 1)
  }

  /** The day before `d`. */
  function PrevDay(d: Date): (r: Date)
    requires ValidDate(d)
    ensures ValidDate(r)
  {
    if d.day > 1 then Date(d.year, d.month, d.day - 1)
    else if d.month > 1 then Date(d.year, d.month - 1, DaysInMonth(d.year, d.month - 1))
    else Date(d.year - 1, 12, 31)
  }

  lemma NextPrevInverse(d: Date)
    requires ValidDate(d)
    ensures PrevDay(NextDay(d)) == d
    ensures NextDay(PrevDay(d)) == d
  {
  }

  /** Dates in calendar order. */
  predicate Before(a: Date, b: Date) {
    a.year < b.year || (a.year == b.year && (a.month < b.month || (a.month == b.month && a.day < b.day)))
  }

  lemma NextDayIsLater(d: Date)
    requires ValidDate(d)
    ensures Before(d, NextDay(d))
    ensures !(exists e | ValidDate(e) :: Before(d, e) && Before(e, NextDay(d)))
  {
  }

  /** The date `q` days after `d` (before it when `q` is negative). */
  function AddDays(d: Date, q: int): (r: Date)
    requires ValidDate(d)
    ensures ValidDate(r)
    decreases if q < 0 then -q else q
  {
    if q == 0 then d
    else if q > 0 then AddDays(NextDay(d), q - 1)
    else AddDays(PrevDay(d), q + 1)
  }

  /** One more day is one step further. */
  lemma {:induction false} AddDaysSucc(d: Date, q: int)
    requires ValidDate(d)
    ensures AddDays(d, q + 1) == NextDay(AddDays(d, q))
    ensures AddDays(d, q - 1) == PrevDay(AddDays(d, q))
    decreases if q < 0 then -q else q
  {
    NextPrevInverse(d);
    if q > 0 {
      AddDaysSucc(NextDay(d), q - 1);
    } else if q < 0 {
      AddDaysSucc(PrevDay(d), q + 1);
    }
  }

  /** Adding `a` days and then `b` days adds `a + b` days. */
  lemma {:induction false} AddDaysSum(d: Date, a: int, b: int)
    requires ValidDate(d)
    ensures AddDays(AddDays(d, a), b) == AddDays(d, a + b)
    decreases if b < 0 then -b else b
  {
    if b > 0 {
      AddDaysSum(d, a, b - 1);
      AddDaysSucc(AddDays(d, a), b - 1);
      AddDaysSucc(d, a + b - 1);
    } else if b < 0 {
      AddDaysSum(d, a, b + 1);
      AddDaysSucc(AddDays(d, a), b + 1);
      AddDaysSucc(d, a + b + 1);
    }
  }

  lemma AddDaysInverse(d: Date, q: int)
    requires ValidDate(d)
    ensures AddDays(AddDays(d, q), -q) == d
  {
    AddDaysSum(d, q, -q);
  }

  // ---------------------------------------------------------------------------
  // datetime + timedelta

  /** The `(days, seconds)` normal form of a `timedelta` of `s` whole seconds, with
      `0 <= seconds < 86400`; OverflowError beyond 999999999 days. */
  function Timedelta(s: int): (r: Result<(int, int)>)
    ensures r.Ok? ==> r.value.0 * SecondsPerDay + r.value.1 == s && 0 <= r.value.1 < SecondsPerDay
    ensures r.Ok? <==> -MaxDeltaDays <= s / SecondsPerDay <= MaxDeltaDays
    ensures r.Err? ==> r.fault == OverflowError
  {
    var days := s / SecondsPerDay;
    if -MaxDeltaDays <= days <= MaxDeltaDays then Ok((days, s % SecondsPerDay)) else Err(OverflowError)
  }

  /** `t + timedelta(seconds=s)`: the clock carries into the date; OverflowError
      when the `timedelta` or the resulting date is out of range. */
  function AddSeconds(t: DateTime, s: int): (r: Result<DateTime>)
    requires Valid(t)
    ensures r.Ok? ==> Valid(r.value)
    ensures r.Err? ==> r.fault == OverflowError
  {
    var td :- Timedelta(s);
    var c := t.clock + td.1 as real;
    var carry := if c >= SecondsPerDay as real then 1 else 0;
    var date := AddDays(t.date, td.0 + carry);
    if InRange(date) then Ok(DateTime(date, c - (carry * SecondsPerDay) as real)) else Err(OverflowError)
  }

  /** The seconds added land exactly: counted in days and seconds since midnight, the
      result is `s` seconds after `t`. */
  lemma AddSecondsExact(t: DateTime, s: int)
    requires Valid(t) && AddSeconds(t, s).Ok?
    ensures var r := AddSeconds(t, s).value;
      exists q :: r.date == AddDays(t.date, q) && (q * SecondsPerDay) as real + r.clock == s as real + t.clock
  {
    var td := Timedelta(s).value;
    var c := t.clock + td.1 as real;
    var carry := if c >= SecondsPerDay as real then 1 else 0;
    var q := td.0 + carry;
    var r := AddSeconds(t, s).value;
    assert r.date == AddDays(t.date, q);
    assert (q * SecondsPerDay) as real + r.clock == s as real + t.clock;
  }
}
