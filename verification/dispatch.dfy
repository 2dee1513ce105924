/** `Chronyk.__fromstring__`: a text is normalised, then read as a common name, a
    relative time or an absolute time, in that order; the first reading that
    applies decides. */
module Dispatch {
  import opened Wrappers
  import opened Text
  import opened Calendar
  import opened Environment
  import opened RelativeParser
  import opened AbsoluteMatcher

  /** Lower case, surrounding white space removed, each ". " read as " ". */
  function Normalise(s: string): string {
    ReplaceDotSpace(Strip(Lower(s)))
  }

  predicate IsNowName(t: string) {
    t == "today" || t == "now" || t == "this week" || t == "this month" || t == "this day"
  }

  predicate IsYesterdayName(t: string) {
    t == "yesterday" || t == "yester day"
  }

  predicate IsYesteryearName(t: string) {
    t == "yesteryear" || t == "yester year"
  }

  predicate IsCommonName(t: string) {
    IsNowName(t) || IsYesterdayName(t) || IsYesteryearName(t)
  }

  /** A year before a leap year is never a leap year. */
  lemma YearBeforeLeapYear(y: int)
    ensures IsLeap(y) ==> !IsLeap(y - 1)
  {
  }

  /** Lines 477-484: the common names. "Yesteryear" is the current UTC time one
      year back, and fails exactly on a leap day or in the first year. */
  function CommonName(h: Host, t: string): (r: Option<Result<real>>)
    requires WellFormed(h)
    ensures r.None? <==> !IsCommonName(t)
    ensures IsNowName(t) ==> r == Some(Ok(CurrentUtc(h)))
    ensures IsYesterdayName(t) ==> r == Some(Ok(CurrentUtc(h) - 86400.0))
    ensures IsYesteryearName(t) ==>
      (r.value.Err? <==> h.utcNow.date.year == MinYear || (h.utcNow.date.month == 2 && h.utcNow.date.day == 29))
    ensures IsYesteryearName(t) && r.value.Err? ==> r.value.fault == ValueError
    ensures IsYesteryearName(t) && r.value.Ok? ==>
      r.value.value == h.mktime(DateTime(Date(h.utcNow.date.year - 1, h.utcNow.date.month, h.utcNow.date.day), h.utcNow.clock))
    ensures r.Some? && r.value.Err? ==> IsYesteryearName(t) && r.value.fault == ValueError
  {
    if IsNowName(t) then Some(Ok(CurrentUtc(h)))
    else if IsYesterdayName(t) then Some(Ok(CurrentUtc(h) - (24 * 3600) as real))
    else if IsYesteryearName(t) then
      var d := h.utcNow.date;
      YearBeforeLeapYear(d.year);
      match ReplaceYear(h.utcNow, d.year - 1)
      case Ok(back) => Some(Ok(h.mktime(back)))
      case Err(f) => Some(Err(f))
    else None
  }

  /** `__fromstring__`. Relative readings can fail on an impossible date or an
      out-of-range shift; a text nothing reads is a ValueError. */
  function FromString(h: Host, s: string, tz: real): (r: Result<real>)
    requires WellFormed(h)
    ensures r.Err? ==> r.fault == ValueError || r.fault == OverflowError
  {
    var t := Normalise(s);
    match CommonName(h, t)
    case Some(v) => v
    case None =>
      match Relative(h, t)
      case Some(v) => v
      case None =>
        match Absolute(h, t, tz)
        case Some(v) => Ok(v)
        case None => Err(ValueError)
  }

  /** A common name is never read as a relative or absolute time. */
  lemma CommonNameFirst(h: Host, s: string, tz: real)
    requires WellFormed(h) && IsCommonName(Normalise(s))
    ensures FromString(h, s, tz) == CommonName(h, Normalise(s)).value
  {
  }

  /** A name for the present reads as the current UTC time. */
  lemma NowName(h: Host, s: string, tz: real)
    requires WellFormed(h) && IsNowName(Normalise(s))
    ensures FromString(h, s, tz) == Ok(CurrentUtc(h))
  {
    NowValue(h, Normalise(s));
    CommonNameFirst(h, s, tz);
  }

  lemma NowValue(h: Host, t: string)
    requires WellFormed(h) && IsNowName(t)
    ensures CommonName(h, t) == Some(Ok(CurrentUtc(h)))
  {
  }

  /** A name for yesterday reads as one day before the current UTC time. */
  lemma YesterdayName(h: Host, s: string, tz: real)
    requires WellFormed(h) && IsYesterdayName(Normalise(s))
    ensures FromString(h, s, tz) == Ok(CurrentUtc(h) - 86400.0)
  {
    YesterdayValue(h, Normalise(s));
    CommonNameFirst(h, s, tz);
  }

  lemma YesterdayValue(h: Host, t: string)
    requires WellFormed(h) && IsYesterdayName(t)
    ensures CommonName(h, t) == Some(Ok(CurrentUtc(h) - 86400.0))
  {
  }

  /** A relative text decides even when an absolute format would also read it. */
  lemma RelativeBeforeAbsolute(h: Host, s: string, tz: real)
    requires WellFormed(h) && !IsCommonName(Normalise(s))
    requires Contains(Pad(Normalise(s)), " ago ") || Contains(Pad(Normalise(s)), " in ")
    ensures FromString(h, s, tz) == Relative(h, Normalise(s)).value
  {
  }

  /** Without " ago " or " in ", only the absolute formats are tried; when none
      reads the text the result is a ValueError. */
  lemma AbsoluteLast(h: Host, s: string, tz: real)
    requires WellFormed(h) && !IsCommonName(Normalise(s))
    requires !Contains(Pad(Normalise(s)), " ago ") && !Contains(Pad(Normalise(s)), " in ")
    ensures Absolute(h, Normalise(s), tz).Some? ==> FromString(h, s, tz) == Ok(Absolute(h, Normalise(s), tz).value)
    ensures Absolute(h, Normalise(s), tz).None? ==> FromString(h, s, tz) == Err(ValueError)
  {
  }

  /** Text of lower-case letters and inner spaces is its own normal form. */
  lemma NormalForm(t: string)
    requires forall i | 0 <= i < |t| :: 'a' <= t[i] <= 'z' || (t[i] == ' ' && 0 < i < |t| - 1)
    ensures Normalise(t) == t
  {
    assert Lower(t) == t;
    assert TrimStart(t) == t;
    assert TrimEnd(t) == t;
    forall i | 0 <= i
      ensures !DotSpaceAt(t, i)
    {
    }
    ReplaceDotSpaceIdentityByChars(t);
  }

  /** "yesterday" is read as a common name, one day before the current UTC time. */
  lemma YesterdayIsCommonName()
    ensures Normalise("yesterday") == "yesterday" && IsYesterdayName(Normalise("yesterday"))
  {
    NormalForm("yesterday");
  }

  /** "today" is read as a common name, the current UTC time. */
  lemma TodayIsNowName()
    ensures Normalise("today") == "today" && IsNowName(Normalise("today"))
  {
    NormalForm("today");
  }
}
