/** `Chronyk`: a point in time kept as its UTC timestamp plus an offset in
    seconds west of UTC, with comparisons, arithmetic and the two renderings. */
module Instants {
  import opened Wrappers
  import opened Calendar
  import opened Environment
  import opened Dispatch
  import Deltas

  /** `__timestamp__` and `timezone`. */
  datatype Instant = Instant(stored: real, timezone: real)

  /** What the constructor is given. `Civil` stands for a `datetime`, `date` or
      `struct_time`, by its fields; `ClockOnly` for a `datetime.time`, which the
      constructor accepts by type but cannot convert; `Unknown` for any other type. */
  datatype Input = Absent | Text(text: string) | Number(number: real) | Civil(fields: DateTime) | ClockOnly | Unknown

  /** The stored value the constructor computes before the range checks. A
      number or a civil time is read in the offset `tz`; a text is read by
      `__fromstring__`, which applies `tz` only to absolute formats without a
      zone. A `datetime.time` passes the type test of line 199 but has no
      `timetuple`, so line 201 raises AttributeError. */
  function Reading(h: Host, input: Input, tz: real): (r: Result<real>)
    requires WellFormed(h)
    ensures r.Err? <==> input.Unknown? || input.ClockOnly? || (input.Text? && FromString(h, input.text, tz).Err?)
    ensures input.Unknown? ==> r == Err(TypeError)
    ensures input.ClockOnly? ==> r == Err(AttributeError)
    ensures input.Number? ==> r == Ok(input.number + tz)
    ensures input.Civil? ==> r == Ok(h.mktime(input.fields) + tz)
    ensures input.Absent? ==> r == Ok(h.now + tz)
  {
    match input
    case Absent => Ok(h.now + tz)
    case Text(s) => FromString(h, s, tz)
    case Number(x) => Ok(x + tz)
    case Civil(f) => Ok(h.mktime(f) + tz)
    case ClockOnly => Err(AttributeError)
    case Unknown => Err(TypeError)
  }

  /** `Chronyk(input, timezone, allowpast, allowfuture)`: the reading, refused
      with DateRangeError when it lies on a side of the current UTC time that is
      not allowed. */
  function Construct(h: Host, input: Input, tz: real, allowpast: bool, allowfuture: bool): (r: Result<Instant>)
    requires WellFormed(h)
    ensures r.Ok? <==>
      && Reading(h, input, tz).Ok?
      && (allowpast || Reading(h, input, tz).value >= CurrentUtc(h))
      && (allowfuture || Reading(h, input, tz).value <= CurrentUtc(h))
    ensures r.Ok? ==> r.value == Instant(Reading(h, input, tz).value, tz)
    ensures r.Err? && Reading(h, input, tz).Ok? ==> r.fault == DateRangeError
    ensures Reading(h, input, tz).Err? ==> r == Err(Reading(h, input, tz).fault)
  {
    var stored :- Reading(h, input, tz);
    if !allowpast && stored < CurrentUtc(h) then Err(DateRangeError)
    else if !allowfuture && stored > CurrentUtc(h) then Err(DateRangeError)
    else Ok(Instant(stored, tz))
  }

  /** The offset a method uses: the one given, or the instance's own. */
  function OffsetOr(c: Instant, tz: Option<real>): real {
    match tz
    case None => c.timezone
    case Some(z) => z
  }

  /** `timestamp(timezone)`, lines 528-539. */
  function Timestamp(c: Instant, tz: Option<real>): real {
    c.stored - OffsetOr(c, tz)
  }

  /** A number read in offset `z` and printed in offset `z2` moves by `z - z2`;
      printed in its own offset it is the number itself. */
  lemma OffsetRebase(h: Host, x: real, z: real, z2: real)
    requires WellFormed(h)
    ensures Construct(h, Number(x), z, true, true).Ok?
    ensures Timestamp(Construct(h, Number(x), z, true, true).value, Some(z2)) == x + z - z2
    ensures Timestamp(Construct(h, Number(x), z, true, true).value, None) == x
  {
  }

  /** `__int__`: the UTC timestamp truncated toward zero. */
  function ToInt(c: Instant): (n: int)
    ensures 0.0 <= Timestamp(c, Some(0.0)) ==> n as real <= Timestamp(c, Some(0.0)) < n as real + 1.0
    ensures Timestamp(c, Some(0.0)) < 0.0 ==> n as real - 1.0 < Timestamp(c, Some(0.0)) <= n as real
  {
    Deltas.Truncate(Timestamp(c, Some(0.0)))
  }

  // ---------------------------------------------------------------------------
  // Comparisons, lines 228-259: against another instant's UTC timestamp or a
  // plain number

  datatype Comparand = OfInstant(instant: Instant) | OfNumber(number: real) {
    function Value(): real {
      match this
      case OfInstant(o) => Timestamp(o, Some(0.0))
      case OfNumber(x) => x
    }
  }

  predicate Equal(c: Instant, o: Comparand) {
    c.stored == o.Value()
  }

  predicate NotEqual(c: Instant, o: Comparand) {
    !Equal(c, o)
  }

  predicate Greater(c: Instant, o: Comparand) {
    c.stored > o.Value()
  }

  predicate Less(c: Instant, o: Comparand) {
    c.stored < o.Value()
  }

  /** `__le__` is `not __gt__`. */
  predicate AtMost(c: Instant, o: Comparand) {
    !Greater(c, o)
  }

  /** `__ge__` is `not __lt__`. */
  predicate AtLeast(c: Instant, o: Comparand) {
    !Less(c, o)
  }

  /** Against a plain number an instance compares its stored value, which is the
      number it was made from shifted by its offset: `Chronyk(x, timezone=z)`
      equals `x + z` and equals `x` itself only when `z` is zero, although its
      `timestamp()` is `x`. */
  lemma NumberComparedAsStored(h: Host, x: real, z: real, y: real)
    requires WellFormed(h)
    ensures Construct(h, Number(x), z, true, true).Ok?
    ensures var c := Construct(h, Number(x), z, true, true).value;
      && Timestamp(c, None) == x
      && (Equal(c, OfNumber(y)) <==> y == x + z)
      && (Less(c, OfNumber(y)) <==> x + z < y)
      && (Greater(c, OfNumber(y)) <==> x + z > y)
      && (Equal(c, OfNumber(x)) <==> z == 0.0)
  {
  }

  /** Two instances made from numbers compare by number plus offset; the same
      number in two offsets gives unequal instances, and the one in the larger
      offset is the greater. */
  lemma InstantsFromNumbers(h: Host, x1: real, z1: real, x2: real, z2: real)
    requires WellFormed(h)
    ensures Construct(h, Number(x1), z1, true, true).Ok? && Construct(h, Number(x2), z2, true, true).Ok?
    ensures var c1, c2 := Construct(h, Number(x1), z1, true, true).value, Construct(h, Number(x2), z2, true, true).value;
      && (Equal(c1, OfInstant(c2)) <==> x1 + z1 == x2 + z2)
      && (Less(c1, OfInstant(c2)) <==> x1 + z1 < x2 + z2)
      && (AtLeast(c1, OfInstant(c2)) <==> x1 + z1 >= x2 + z2)
      && (x1 == x2 ==> (NotEqual(c1, OfInstant(c2)) <==> z1 != z2))
  {
  }

  // ---------------------------------------------------------------------------
  // Arithmetic, lines 262-283 and 701-702

  /** `c + x` for a duration or a number: a new instance, in `c`'s offset, whose
      timestamp is `x` seconds later. */
  function Later(c: Instant, o: Deltas.Operand): (r: Instant)
    ensures r.timezone == c.timezone
    ensures Timestamp(r, None) == Timestamp(c, None) + o.Value()
  {
    Instant(Timestamp(c, None) + o.Value() + c.timezone, c.timezone)
  }

  /** `c - x` for a duration or a number. */
  function Earlier(c: Instant, o: Deltas.Operand): (r: Instant)
    ensures r.timezone == c.timezone
    ensures Timestamp(r, None) == Timestamp(c, None) - o.Value()
  {
    Instant(Timestamp(c, None) - o.Value() + c.timezone, c.timezone)
  }

  /** `c - d` for two instances: the duration between their moments. */
  function Since(c: Instant, d: Instant): (r: Deltas.Delta)
    ensures r.seconds == Timestamp(c, Some(0.0)) - Timestamp(d, Some(0.0))
  {
    Deltas.Delta(c.stored - d.stored)
  }

  /** `ChronykDelta + Chronyk` returns `other + self`: the instance's offset,
      `e.seconds` later. */
  function DeltaPlus(e: Deltas.Delta, c: Instant): (r: Instant)
    ensures r.timezone == c.timezone
    ensures Timestamp(r, None) == Timestamp(c, None) + e.seconds
    ensures Since(r, c) == e
  {
    Later(c, Deltas.OfDelta(e))
  }

  /** Subtracting what was added gives the instance back, and the duration
      between the two is what was added. */
  lemma LaterEarlierInverse(c: Instant, o: Deltas.Operand)
    ensures Earlier(Later(c, o), o) == c
    ensures Since(Later(c, o), c).seconds == o.Value()
  {
  }

  /** Adding the duration between two instances to the earlier one reaches the
      moment of the later one. */
  lemma SinceThenLater(c: Instant, d: Instant)
    ensures Equal(Later(d, Deltas.OfDelta(Since(c, d))), OfInstant(c))
  {
  }

  // ---------------------------------------------------------------------------
  // Rendering

  /** `timestring(pattern, timezone)`: the host formats the timestamp in the
      chosen offset, moved back by the local offset, as a UTC time. */
  function Timestring(h: Host, c: Instant, pattern: string, tz: Option<real>): string {
    h.strftime(pattern, Timestamp(c, tz) - h.localTz)
  }

  /** A number read in the local offset prints as the host prints that number
      less the local offset. */
  lemma TimestringOfNumber(h: Host, x: real, pattern: string)
    requires WellFormed(h)
    ensures Construct(h, Number(x), h.localTz, true, true).Ok?
    ensures Timestring(h, Construct(h, Number(x), h.localTz, true, true).value, pattern, None)
      == h.strftime(pattern, x - h.localTz)
  {
  }

  /** `now - timestamp(timezone)`: positive for a past instant. */
  function Distance(h: Host, c: Instant, now: Option<real>, tz: Option<real>): real {
    (match now case None => h.now case Some(n) => n) - Timestamp(c, tz)
  }

  /** Distances that are described in words rather than "just now" or a date. */
  predicate InBand(h: Host, c: Instant, now: Option<real>, tz: Option<real>, minimum: real, maximum: real) {
    var a := Deltas.Abs(Distance(h, c, now, tz));
    minimum <= a && !(a > maximum && maximum > 0.0)
  }

  /** The rendered distance as a phrase: "1 day" becomes "tomorrow" or
      "yesterday", anything else is put ahead ("in ...") or behind ("... ago"). */
  function Describe(text: string, future: bool): (r: string)
    ensures text != "1 day" && future ==> r == "in " + text
    ensures text != "1 day" && !future ==> r == text + " ago"
  {
    if text == "1 day" then (if future then "tomorrow" else "yesterday")
    else if future then "in " + text
    else text + " ago"
  }

  /** `relativestring`, lines 574-628. The fallback for distances beyond
      `maximum` prints in the instance's own offset, whatever `timezone` was
      given. */
  function RelativeString(h: Host, c: Instant, now: Option<real>, minimum: real, maximum: real,
                          pattern: string, tz: Option<real>, maxunits: int): (r: Result<string>)
    ensures Deltas.Abs(Distance(h, c, now, tz)) < minimum ==> r == Ok("just now")
    ensures Deltas.Abs(Distance(h, c, now, tz)) >= minimum && Deltas.Abs(Distance(h, c, now, tz)) > maximum > 0.0
      ==> r == Ok(Timestring(h, c, pattern, None))
    ensures r.Err? <==> InBand(h, c, now, tz, minimum, maximum) && maxunits < 1
    ensures r.Err? ==> r.fault == ValueError
  {
    var diff := Distance(h, c, now, tz);
    var a := Deltas.Abs(diff);
    if a < minimum then Ok("just now")
    else if a > maximum && maximum > 0.0 then Ok(Timestring(h, c, pattern, None))
    else
      var text :- Deltas.Render(Deltas.Delta(a), maxunits);
      Ok(Describe(text, diff < 0.0))
  }

  /** Within the band, the result is the rendered magnitude of the distance,
      described as ahead or behind by its sign. */
  lemma RelativeRendered(h: Host, c: Instant, now: Option<real>, minimum: real, maximum: real,
                         pattern: string, tz: Option<real>, maxunits: int, text: string)
    requires InBand(h, c, now, tz, minimum, maximum)
    requires Deltas.Render(Deltas.Delta(Deltas.Abs(Distance(h, c, now, tz))), maxunits) == Ok(text)
    ensures RelativeString(h, c, now, minimum, maximum, pattern, tz, maxunits)
      == Ok(Describe(text, Distance(h, c, now, tz) < 0.0))
  {
  }

  /** A distance of `n` whole display units is described as that phrase, ahead
      for a future instant and behind for a past one, unless it is one day. */
  lemma RelativeWhole(h: Host, c: Instant, now: Option<real>, minimum: real, maximum: real,
                      pattern: string, tz: Option<real>, maxunits: int, i: nat, n: nat)
    requires i < |Deltas.DisplayUnits| && n >= 1 && maxunits >= 1
    requires Deltas.Abs(Distance(h, c, now, tz)) == Deltas.Worth(n, Deltas.DisplayUnits[i])
    requires i == 0 || Deltas.InUnits(Deltas.Abs(Distance(h, c, now, tz)), Deltas.DisplayUnits[i - 1]) <= 0.8
    requires InBand(h, c, now, tz, minimum, maximum)
    requires Deltas.Plural(Deltas.Name(Deltas.DisplayUnits[i]), n) != "1 day"
    ensures var phrase := Deltas.Plural(Deltas.Name(Deltas.DisplayUnits[i]), n);
      RelativeString(h, c, now, minimum, maximum, pattern, tz, maxunits)
      == Ok(if Distance(h, c, now, tz) < 0.0 then "in " + phrase else phrase + " ago")
  {
    var a := Deltas.Abs(Distance(h, c, now, tz));
    Deltas.RenderWhole(Deltas.Delta(a), i, n, maxunits);
    RelativeRendered(h, c, now, minimum, maximum, pattern, tz, maxunits,
                     Deltas.Plural(Deltas.Name(Deltas.DisplayUnits[i]), n));
  }

  lemma OneDayText()
    ensures Deltas.Plural(Deltas.Name(Deltas.DisplayUnits[2]), 1) == "1 day"
  {
    assert Deltas.DisplayUnits[2] == Deltas.Day;
  }

  lemma OneDayWhole(a: real)
    requires a == 86400.0
    ensures a == Deltas.Worth(1, Deltas.DisplayUnits[2])
    ensures Deltas.InUnits(a, Deltas.DisplayUnits[1]) <= 0.8
  {
    assert Deltas.DisplayUnits[2] == Deltas.Day;
    assert Deltas.DisplayUnits[1] == Deltas.Month;
  }

  /** One day ahead is "tomorrow" and one day behind "yesterday". */
  lemma RelativeOneDay(h: Host, c: Instant, now: Option<real>, minimum: real, maximum: real,
                       pattern: string, tz: Option<real>, maxunits: int)
    requires maxunits >= 1
    requires Deltas.Abs(Distance(h, c, now, tz)) == 86400.0
    requires InBand(h, c, now, tz, minimum, maximum)
    ensures RelativeString(h, c, now, minimum, maximum, pattern, tz, maxunits)
      == Ok(if Distance(h, c, now, tz) < 0.0 then "tomorrow" else "yesterday")
  {
    var a := Deltas.Abs(Distance(h, c, now, tz));
    OneDayWhole(a);
    Deltas.RenderWhole(Deltas.Delta(a), 2, 1, maxunits);
    OneDayText();
    RelativeRendered(h, c, now, minimum, maximum, pattern, tz, maxunits, "1 day");
  }

  /** `relativestring` as written: line 621 renders the distance with the loop of
      lines 803-807 as it stands, which fails with RuntimeError whenever the year
      count is zero. Outside the band, or when the maxunits check already fails,
      the result is the corrected one; inside it the two agree exactly when the
      distance reaches a (strictly rounded) year. */
  function RelativeStringAsWritten(h: Host, c: Instant, now: Option<real>, minimum: real, maximum: real,
                                   pattern: string, tz: Option<real>, maxunits: int): (r: Result<string>)
    ensures !InBand(h, c, now, tz, minimum, maximum) || maxunits < 1 ==>
      r == RelativeString(h, c, now, minimum, maximum, pattern, tz, maxunits)
    ensures InBand(h, c, now, tz, minimum, maximum) && maxunits >= 1 ==>
      (r == RelativeString(h, c, now, minimum, maximum, pattern, tz, maxunits)
       <==> Deltas.Breakdown(Deltas.Abs(Distance(h, c, now, tz)))[0] > 0)
    ensures (InBand(h, c, now, tz, minimum, maximum) && maxunits >= 1 &&
             Deltas.Breakdown(Deltas.Abs(Distance(h, c, now, tz)))[0] == 0) ==> r == Err(RuntimeError)
  {
    var diff := Distance(h, c, now, tz);
    var a := Deltas.Abs(diff);
    if a < minimum then Ok("just now")
    else if a > maximum && maximum > 0.0 then Ok(Timestring(h, c, pattern, None))
    else if maxunits < 1 then Err(ValueError)
    else
      Deltas.RenderAsWrittenAgreement(Deltas.Delta(a), maxunits);
      var text :- Deltas.RenderAsWritten(Deltas.Delta(a), maxunits);
      Ok(Describe(text, diff < 0.0))
  }

  /** As written, a distance of one day has no year to keep, so line 621 raises
      RuntimeError where the corrected rendering says "tomorrow" or "yesterday". */
  lemma OneDayAsWritten(h: Host, c: Instant, now: Option<real>, minimum: real, maximum: real,
                        pattern: string, tz: Option<real>, maxunits: int)
    requires maxunits >= 1
    requires Deltas.Abs(Distance(h, c, now, tz)) == 86400.0
    requires InBand(h, c, now, tz, minimum, maximum)
    ensures RelativeStringAsWritten(h, c, now, minimum, maximum, pattern, tz, maxunits) == Err(RuntimeError)
    ensures RelativeString(h, c, now, minimum, maximum, pattern, tz, maxunits)
      == Ok(if Distance(h, c, now, tz) < 0.0 then "tomorrow" else "yesterday")
  {
    var a := Deltas.Abs(Distance(h, c, now, tz));
    OneDayWhole(a);
    Deltas.BreakdownWhole(a, 1, 2);
    RelativeOneDay(h, c, now, minimum, maximum, pattern, tz, maxunits);
  }

  /** An instance made now, in the local offset, is "just now" by the defaults. */
  lemma NowIsJustNow(h: Host)
    requires WellFormed(h)
    ensures Construct(h, Absent, h.localTz, true, true).Ok?
    ensures RelativeString(h, Construct(h, Absent, h.localTz, true, true).value, None, 10.0, 2592000.0, "%Y-%m-%d", None, 1)
      == Ok("just now")
  {
    assert Distance(h, Construct(h, Absent, h.localTz, true, true).value, None, None) == 0.0;
  }

  /** A text naming yesterday, read in the local offset, is one day behind the
      current time and is described as "yesterday" whenever one day lies in the
      band of worded distances. */
  lemma YesterdayNameRoundTrip(h: Host, s: string, minimum: real, maximum: real, pattern: string, maxunits: int)
    requires WellFormed(h) && IsYesterdayName(Normalise(s))
    requires minimum <= 86400.0 && (maximum <= 0.0 || maximum >= 86400.0) && maxunits >= 1
    ensures Construct(h, Text(s), h.localTz, true, true) == Ok(Instant(CurrentUtc(h) - 86400.0, h.localTz))
    ensures RelativeString(h, Construct(h, Text(s), h.localTz, true, true).value,
                           None, minimum, maximum, pattern, None, maxunits) == Ok("yesterday")
  {
    YesterdayReading(h, s);
    OneDayBehindNow(h, Instant(CurrentUtc(h) - 86400.0, h.localTz), minimum, maximum, pattern, maxunits);
  }

  /** An instance one day before the current time, in the local offset. */
  lemma OneDayBehindNow(h: Host, c: Instant, minimum: real, maximum: real, pattern: string, maxunits: int)
    requires c == Instant(CurrentUtc(h) - 86400.0, h.localTz)
    requires minimum <= 86400.0 && (maximum <= 0.0 || maximum >= 86400.0) && maxunits >= 1
    ensures RelativeString(h, c, None, minimum, maximum, pattern, None, maxunits) == Ok("yesterday")
  {
    assert Distance(h, c, None, None) == 86400.0;
    RelativeOneDay(h, c, None, minimum, maximum, pattern, None, maxunits);
  }

  lemma YesterdayReading(h: Host, s: string)
    requires WellFormed(h) && IsYesterdayName(Normalise(s))
    ensures Construct(h, Text(s), h.localTz, true, true) == Ok(Instant(CurrentUtc(h) - 86400.0, h.localTz))
  {
    YesterdayName(h, s, h.localTz);
  }

  /** A name for the present, read in the local offset, is the current time. */
  lemma NowNameReading(h: Host, s: string)
    requires WellFormed(h) && IsNowName(Normalise(s))
    ensures Construct(h, Text(s), h.localTz, true, true) == Ok(Instant(CurrentUtc(h), h.localTz))
  {
    NowName(h, s, h.localTz);
  }

  /** "yesterday", in the local offset, is described as "yesterday" by the
      defaults. */
  lemma YesterdayRoundTrip(h: Host, s: string)
    requires WellFormed(h) && s == "yesterday"
    ensures Construct(h, Text(s), h.localTz, true, true).Ok?
    ensures RelativeString(h, Construct(h, Text(s), h.localTz, true, true).value,
                           None, 10.0, 2592000.0, "%Y-%m-%d", None, 1) == Ok("yesterday")
  {
    YesterdayIsCommonName();
    YesterdayNameRoundTrip(h, s, 10.0, 2592000.0, "%Y-%m-%d", 1);
  }

  lemma FiveSecondsText()
    ensures Deltas.Plural(Deltas.Name(Deltas.DisplayUnits[5]), 5) == "5 seconds"
  {
    assert Text.NatToString(5) == "5";
    assert Deltas.DisplayUnits[5] == Deltas.Second;
  }

  lemma FiveSecondsWhole(a: real)
    requires a == 5.0
    ensures a == Deltas.Worth(5, Deltas.DisplayUnits[5])
    ensures Deltas.InUnits(a, Deltas.DisplayUnits[4]) <= 0.8
  {
    assert Deltas.DisplayUnits[5] == Deltas.Second;
    assert Deltas.DisplayUnits[4] == Deltas.Minute;
  }

  /** An instance five seconds before `x`, described from `x` with no minimum, is
      "5 seconds ago". */
  lemma FiveSecondsAgo(h: Host, x: real, tz: real)
    requires WellFormed(h)
    ensures Construct(h, Number(x - 5.0), tz, true, true).Ok?
    ensures RelativeString(h, Construct(h, Number(x - 5.0), tz, true, true).value,
                           Some(x), 0.0, 2592000.0, "%Y-%m-%d", None, 1) == Ok("5 seconds ago")
  {
    var c := Construct(h, Number(x - 5.0), tz, true, true).value;
    var a := Deltas.Abs(Distance(h, c, Some(x), None));
    assert Distance(h, c, Some(x), None) == 5.0;
    FiveSecondsWhole(a);
    Deltas.RenderWhole(Deltas.Delta(a), 5, 5, 1);
    FiveSecondsText();
    RelativeRendered(h, c, Some(x), 0.0, 2592000.0, "%Y-%m-%d", None, 1, "5 seconds");
    FiveSecondsPhrase();
  }

  lemma FiveSecondsPhrase()
    ensures Describe("5 seconds", false) == "5 seconds ago"
  {
    assert "5 seconds"[0] != "1 day"[0];
  }
}
