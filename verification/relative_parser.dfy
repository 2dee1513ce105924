/** `Chronyk.__fromrelative__`: texts such as "2 days ago" or "in 3 months and 1
    hour". Years and months move the calendar date, the other units a fixed number
    of seconds; the result is converted to a timestamp by the host. */
module RelativeParser {
  import opened Wrappers
  import opened Text
  import opened UnitPattern
  import opened Calendar
  import opened Environment
  import Deltas

  /** The text with a space on either side, so that " ago " and " in " also match
      at its ends. */
  function Pad(s: string): (p: string)
    ensures |p| == |s| + 2 && p[0] == ' ' && p[|p| - 1] == ' ' && p[1..|p| - 1] == s
  {
    " " + s + " "
  }

  /** A successful match always contains " <unit>", so the `find` in front of
      each regex never changes the outcome. */
  lemma MatchImpliesMention(padded: string, name: string)
    ensures LeadingCount(padded, name).Some? ==> Contains(padded, " " + name)
  {
    if LeadingCount(padded, name).Some? {
      var p, k :| FirstLazyMatch(padded, name, p, k) && LeadingCount(padded, name).value == DecimalValue(padded[p..p + k]);
      ContainsWitness(padded, " " + name, p + k);
    }
  }

  /** `if timestr.find(" " + unit) != -1` followed by the unit pattern: the count
      read, or None when the unit is not mentioned with a number. The guard adds
      nothing to the pattern. */
  function Mention(padded: string, u: Deltas.Unit): (r: Option<nat>)
    ensures r == LeadingCount(padded, Deltas.Name(u))
  {
    MatchImpliesMention(padded, Deltas.Name(u));
    if Contains(padded, " " + Deltas.Name(u)) then LeadingCount(padded, Deltas.Name(u)) else None
  }

  /** The count of a unit, zero when it is not mentioned with a number. */
  function Count(padded: string, u: Deltas.Unit): nat {
    match Mention(padded, u)
    case None => 0
    case Some(n) => n
  }

  /** A future time: " in " occurs. */
  predicate Future(padded: string) {
    Contains(padded, " in ")
  }

  /** `n * coef`, with `coef` 1 for the future and -1 for the past. */
  function Signed(future: bool, n: int): (r: int)
    ensures future ==> r == n
    ensures !future ==> r + n == 0
  {
    if future then n else -n
  }

  /** Lines 297-305: `replace(year=...)` moves the year by the count; an impossible
      date raises ValueError (OverflowError for a year beyond a C `int`), which is
      not caught. */
  function YearStep(t: DateTime, padded: string, future: bool): (r: Result<DateTime>)
    requires Valid(t)
    ensures r.Ok? ==> Valid(r.value) && r.value.date.year == t.date.year + Signed(future, Count(padded, Deltas.Year))
    ensures r.Ok? ==> r.value.date.month == t.date.month && r.value.date.day == t.date.day && r.value.clock == t.clock
    ensures r.Err? ==> r.fault == YearFault(t.date.year + Signed(future, Count(padded, Deltas.Year)))
    ensures Count(padded, Deltas.Year) == 0 ==> r == Ok(t)
  {
    match Mention(padded, Deltas.Year)
    case None => Ok(t)
    case Some(n) => ReplaceYear(t, t.date.year + Signed(future, n))
  }

  /** Lines 308-320: the month shift, with the year carry floored (the corrected
      carry; `MonthStepAsWritten` states where the code as written differs). */
  function MonthStep(t: DateTime, padded: string, future: bool): (r: Result<DateTime>)
    requires Valid(t)
    ensures r.Ok? ==> Valid(r.value) && r.value.clock == t.clock
    ensures r.Ok? ==>
      r.value.date.year * 12 + (r.value.date.month - 1)
      == t.date.year * 12 + (t.date.month - 1) + Signed(future, Count(padded, Deltas.Month))
    ensures r.Ok? ==> r.value.date.day <= t.date.day
    ensures r.Err? ==> r.fault == YearFault(MonthIndexYear(t, Signed(future, Count(padded, Deltas.Month))))
  {
    match Mention(padded, Deltas.Month)
    case None => Ok(t)
    case Some(n) => ShiftMonths(t, Signed(future, n))
  }

  /** The month step agrees with the code as written for every text about the
      future, and for a text about the past whose month count before the carry is
      not negative or is a whole number of years. */
  lemma MonthStepAsWritten(t: DateTime, padded: string, future: bool)
    requires Valid(t)
    ensures var total := (t.date.month - 1) + Signed(future, Count(padded, Deltas.Month));
      future || total >= 0 || total % 12 == 0 ==>
        MonthStep(t, padded, future) == ShiftMonthsAsWritten(t, Signed(future, Count(padded, Deltas.Month)))
  {
    var n := Signed(future, Count(padded, Deltas.Month));
    MonthStepIsShift(t, padded, future, n);
    ShiftMonthsAgreement(t, n);
  }

  lemma MonthStepIsShift(t: DateTime, padded: string, future: bool, n: int)
    requires Valid(t) && n == Signed(future, Count(padded, Deltas.Month))
    ensures MonthStep(t, padded, future) == ShiftMonths(t, n)
  {
    if Mention(padded, Deltas.Month).None? {
      ShiftMonthsAgreement(t, 0);
      assert ShiftMonthsAsWritten(t, 0) == Ok(t);
    }
  }

  /** The date after the year and month steps. */
  function CalendarPart(t: DateTime, padded: string, future: bool): (r: Result<DateTime>)
    requires Valid(t)
    ensures r.Ok? ==> Valid(r.value) && r.value.clock == t.clock
    ensures r.Err? ==> r.fault == ValueError || r.fault == OverflowError
  {
    var y :- YearStep(t, padded, future);
    MonthStep(y, padded, future)
  }

  /** Lines 322-340: weeks, days, hours, minutes and seconds, in seconds. */
  function FixedSeconds(padded: string): nat {
    604800 * Count(padded, Deltas.Week) + 86400 * Count(padded, Deltas.Day)
    + 3600 * Count(padded, Deltas.Hour) + 60 * Count(padded, Deltas.Minute)
    + Count(padded, Deltas.Second)
  }

  lemma ToRealScaled(n: nat, k: nat)
    ensures (k * n) as real == n as real * k as real
  {
  }

  lemma {:induction false} UnitSeconds(padded: string, u: Deltas.Unit)
    ensures (Deltas.Length(u) * Count(padded, u)) as real == Deltas.Contribution(padded, u)
  {
    var n := Count(padded, u);
    ToRealScaled(n, Deltas.Length(u));
    Deltas.WorthIsProduct(n, u);
  }

  /** The fixed part is what the duration parser reads from the same text for
      those five units. */
  lemma FixedSecondsIsDurationReading(padded: string)
    ensures FixedSeconds(padded) as real
      == Deltas.Contribution(padded, Deltas.Week) + Deltas.Contribution(padded, Deltas.Day)
       + Deltas.Contribution(padded, Deltas.Hour) + Deltas.Contribution(padded, Deltas.Minute)
       + Deltas.Contribution(padded, Deltas.Second)
  {
    UnitSeconds(padded, Deltas.Week);
    UnitSeconds(padded, Deltas.Day);
    UnitSeconds(padded, Deltas.Hour);
    UnitSeconds(padded, Deltas.Minute);
    UnitSeconds(padded, Deltas.Second);
  }

  /** Lines 342-346: the fixed part is negated for the past and added with
      `datetime + timedelta`. */
  function ShiftBy(t: DateTime, padded: string, future: bool): (r: Result<DateTime>)
    requires Valid(t)
    ensures r.Ok? ==> Valid(r.value)
    ensures r.Err? ==> r.fault == ValueError || r.fault == OverflowError
  {
    var c :- CalendarPart(t, padded, future);
    AddSeconds(c, Signed(future, FixedSeconds(padded)))
  }

  /** The shifted civil time for the text `s`, or None when it is not relative. */
  function Shift(now: DateTime, s: string): (r: Option<Result<DateTime>>)
    requires Valid(now)
    ensures r.None? <==> !Contains(Pad(s), " ago ") && !Contains(Pad(s), " in ")
    ensures r.Some? && r.value.Ok? ==> Valid(r.value.value)
    ensures r.Some? && r.value.Err? ==> r.value.fault == ValueError || r.value.fault == OverflowError
  {
    var padded := Pad(s);
    if !Contains(padded, " ago ") && !Contains(padded, " in ") then None
    else Some(ShiftBy(now, padded, Future(padded)))
  }

  /** A relative time lands the fixed seconds after the calendar step for a
      future text and the same seconds before it otherwise. */
  lemma ShiftMovesBy(now: DateTime, padded: string, future: bool, r: DateTime)
    requires Valid(now) && ShiftBy(now, padded, future) == Ok(r)
    ensures exists c, q ::
      && CalendarPart(now, padded, future) == Ok(c)
      && ValidDate(c.date)
      && r.date == AddDays(c.date, q)
      && (q * SecondsPerDay) as real + r.clock
         == c.clock + (if future then FixedSeconds(padded) as real else -(FixedSeconds(padded) as real))
  {
    var c := CalendarPart(now, padded, future).value;
    AddSecondsExact(c, Signed(future, FixedSeconds(padded)));
  }

  /** `__fromrelative__`: the host converts the shifted civil time to a timestamp. */
  function Relative(h: Host, s: string): (r: Option<Result<real>>)
    requires WellFormed(h)
    ensures r.None? <==> !Contains(Pad(s), " ago ") && !Contains(Pad(s), " in ")
    ensures r.Some? && r.value.Ok? ==>
      exists t :: Shift(h.utcNow, s) == Some(Ok(t)) && r.value.value == h.mktime(t)
    ensures r.Some? && r.value.Err? ==> Shift(h.utcNow, s) == Some(Err(r.value.fault))
    ensures r.Some? && r.value.Err? ==> r.value.fault == ValueError || r.value.fault == OverflowError
  {
    match Shift(h.utcNow, s)
    case None => None
    case Some(Err(f)) => Some(Err(f))
    case Some(Ok(t)) => Some(Ok(h.mktime(t)))
  }
}
