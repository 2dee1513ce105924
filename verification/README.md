# Chronyk in Dafny

A model of the core of Chronyk, a Python library that reads human
descriptions of times and durations and writes them back out. The model covers
the one module `chronyk/chronyk.py`:

- `Chronyk`, a point in time (`Instants`). It is stored as a UTC timestamp
  together with an offset in seconds west of UTC. The model covers its
  constructor, comparisons, arithmetic, `timestamp`, `timestring` and
  `relativestring`.
- `Chronyk.__fromstring__` (`Dispatch`). A text is normalised, then read as one
  of these, in order:
  - a common name ("today", "yesterday", "yesteryear");
  - a relative time ("in 3 days", "2 months ago": `RelativeParser`);
  - an absolute time. This tries an ordered list of 694 `strptime` formats,
    then 12 time-only formats behind the date the module was loaded
    (`AbsoluteMatcher`).
- `ChronykDelta`, a duration (`Deltas`). The model covers:
  - parsing unit phrases;
  - the rounded breakdown into years, months, days, hours, minutes and seconds
    that `timestring` prints;
  - the arithmetic and comparison operators.
- `guesstype`, which decides whether a text is a time or a duration (`Guess`).
- Supporting modules:
  - `UnitPattern`: the lazy regular expression `.*?([0-9]+?) <unit>` both
    parsers use;
  - `Calendar`: the Gregorian calendar of Python's `datetime`, covering
    `replace`, the month shift and `datetime + timedelta`;
  - `Text`: the string helpers;
  - `Environment`: the host, described below;
  - `Wrappers`: the `Option` and `Result` types and the Python exceptions as
    faults.

Everything the library reads from the machine is a field of
`Environment.Host`, fixed for one call. That covers the clock, the local
offset, `utcnow`, and the date string computed when the module is loaded. The C
library's `strptime`, `mktime` and `strftime` are fields of `Host` too: they
appear as uninterpreted functions. Timestamps are `real`. Counts read from text
are `nat`.

Three places where the code and its own documentation part ways:

- **The time-only fallback uses the load date.** The fallback at lines 459-472
  prefixes the text with `_strftime("%Y-%m-%d")`. The default argument of
  `_strftime` is evaluated once, at import (line 43). So the date used is the
  date the module was loaded, not today. This is `Host.loadDate`.
- **The `relativestring` fallback ignores its `timezone` argument.** For
  distances beyond `maximum`, `relativestring` prints with `self.timestring(pattern)`
  (line 619). That uses the instance's own offset, whatever `timezone` was
  passed. `Instants.RelativeString` does the same.
- **`ChronykDelta` never raises ValueError for text.** Its docstring (lines
  637-638) promises ValueError for a string that cannot be parsed. The parser
  never fails, though: a text no unit pattern reads is a zero duration.
  `Deltas.TextWithoutDigitsIsZero` states this.

## Model

| member | source | states |
|---|---|---|
| Deltas.StrictRound | chronyk/chronyk.py:131-138 | `_round` rounds up exactly when the fractional part exceeds 0.8, so the result lies in [x - 0.8, x + 0.2) |
| Deltas.StrictRoundOfQuotient | chronyk/chronyk.py:131-138 | for an integer numerator and positive divisor, `_round(n / d)` is the quotient plus one exactly when five times the remainder exceeds four times the divisor |
| Deltas.Contribution | chronyk/chronyk.py:748-757 | a unit adds nothing when its pattern does not match, and otherwise exactly its count times the unit's length |
| Deltas.Parse | chronyk/chronyk.py:735-759 | the duration parser never fails, never yields a negative duration, and yields at least the worth of every unit whose pattern matches |
| Deltas.Make | chronyk/chronyk.py:642-648 | `ChronykDelta(x)` raises TypeError exactly for inputs that are neither text nor number; a number is kept as given, a text parses to a non-negative duration |
| Deltas.TextWithoutDigitsIsZero | chronyk/chronyk.py:735-759 | a text without a digit is not refused: it reads as a zero duration |
| Deltas.PhraseCountsOwnUnit | chronyk/chronyk.py:748-757 | in a phrase "`n` unit(s)" the pattern for that unit reads back exactly `n` |
| Deltas.PhraseIgnoresOtherUnits | chronyk/chronyk.py:748-757 | in such a phrase the pattern of every other unit finds no match, since no unit name is a prefix of another |
| Deltas.ParsePhrase | chronyk/chronyk.py:735-759 | parsing "`n` unit(s)" yields exactly `n` times the unit's length in seconds |
| Deltas.PairCounts | chronyk/chronyk.py:748-757 | in "`a` unit1 <sep> `b` unit2" with distinct units and no digit in the separator, each unit's pattern reads its own count and every other unit's pattern finds nothing |
| Deltas.ParsePair | chronyk/chronyk.py:735-759 | two such phrases parse to the sum of their worths |
| Deltas.PluralParsesBack | chronyk/chronyk.py:141-145 | whatever `_pluralstr` prints for a unit parses back to that many units |
| Deltas.CountsFrom | chronyk/chronyk.py:784-801 | the per-unit counts are non-negative except the last, and weighted by unit length they stand for the magnitude to within -0.8..+0.2 seconds |
| Deltas.Breakdown | chronyk/chronyk.py:781-801 | the six counts of years through seconds; the first five are non-negative and together they stand for the magnitude within the rounding tolerance |
| Deltas.KeepPositiveComplete | chronyk/chronyk.py:809-812 | every positive count in the kept range is printed, in order of unit size |
| Deltas.Shown | chronyk/chronyk.py:803-812 | at most `maxunits` segments, each a positive count of its unit, in order of unit size, and every positive count within the first `maxunits` units after the leading zeros appears |
| Deltas.Render | chronyk/chronyk.py:761-819 | the corrected `timestring` (see Findings) raises ValueError exactly when `maxunits < 1`, and otherwise joins the shown segments as "a, b and c" |
| Deltas.RenderIgnoresSign | chronyk/chronyk.py:781 | durations of opposite sign render the same |
| Deltas.RenderBelowOneSecond | chronyk/chronyk.py:814-815 | magnitudes of at most 0.8 seconds render as the empty text |
| Deltas.RenderWhole | chronyk/chronyk.py:781-819 | `n` whole units, below the rounding threshold of the next larger unit, render as the single phrase for `n` of that unit |
| Deltas.PluralRoundTrip | chronyk/chronyk.py:735-819 | parsing a rendered phrase and rendering the result again gives back the same text |
| Deltas.BreakdownPair | chronyk/chronyk.py:781-801 | whole counts of two display units, neither rounding up to the unit above it, break down into exactly those two counts and zeros elsewhere |
| Deltas.ShownPair | chronyk/chronyk.py:803-812 | with two positive counts both are shown when `maxunits` reaches from the first to the second, and only the first otherwise |
| Deltas.RenderPair | chronyk/chronyk.py:761-819 | such a duration renders as "<first> and <second>", or as the first phrase alone when `maxunits` does not reach the second |
| Deltas.PairRoundTrip | chronyk/chronyk.py:735-819 | parsing "<first> and <second>" as `timestring` prints it and rendering the result again gives back the same text |
| Deltas.DayAndTwelveHours | test_chronyk.py:258-262 | "1 day and 12 hours" is 129600 seconds, renders back to itself by default and as "1 day" with `maxunits=1` |
| Deltas.RenderOneUnitParsesBack | chronyk/chronyk.py:735-819 | a non-empty one-unit rendering is a single segment, and it parses back to that segment's count of units |
| Deltas.RenderAsWritten | chronyk/chronyk.py:803-807 | the loop as written succeeds only when the year count is positive |
| Deltas.RenderAsWrittenAgreement | chronyk/chronyk.py:803-807 | the loop as written agrees with the intended rendering exactly when the year count is positive, and raises RuntimeError otherwise |
| Deltas.YearCountZeroWithin292Days | chronyk/chronyk.py:781-784 | the year count that decides whether the loop as written fails is zero exactly for magnitudes of at most 292 days |
| Deltas.OrderedDictCounterexample | chronyk/chronyk.py:803-807 | five hours render as "5 hours", while the code as written raises RuntimeError |
| Deltas.Plus | chronyk/chronyk.py:698-704 | the sum less the added amount is the original duration |
| Deltas.Minus | chronyk/chronyk.py:708-712 | the difference plus the subtracted amount is the original duration |
| Deltas.Times | chronyk/chronyk.py:716-720 | the product divided by a non-zero factor is the original duration, and a zero factor gives a zero duration |
| Deltas.Divide | chronyk/chronyk.py:722-726 | division by zero raises ZeroDivisionError, and otherwise the quotient times the divisor is the original |
| Deltas.Truncate | chronyk/chronyk.py:657-658 | `int(x)` truncates toward zero: the result is within one of `x` on the side of zero |
| Deltas.FloorDivide | chronyk/chronyk.py:728-732 | `//` fails only on a zero divisor, with ZeroDivisionError, and otherwise returns the quotient truncated toward zero, with its sign |
| Deltas.PhraseComparesBySeconds | chronyk/chronyk.py:664-696 | a duration read from "`n` unit(s)" compares with a plain number as `n` times the unit's length in seconds, for `==`, `<`, `<=` and `>=` |
| Deltas.Equal | chronyk/chronyk.py:664-695 | `==`, `>` and `<` compare the seconds with another duration's seconds or with a bare number; `!=`, `<=` and `>=` are the negations of `==`, `>` and `<` (`NotEqual`, `AtMost`, `AtLeast`) |
| Deltas.WeeksEqualDays | chronyk/chronyk.py:664-696 | "`n` weeks" equals "`7n` days", and neither is less or greater than the other |
| UnitPattern.LeadingCount | chronyk/chronyk.py:748-757 | the pattern fails exactly when no lazy match exists; otherwise the count is the digits of the leftmost, shortest match |
| UnitPattern.FirstMatchIsLeftmostRun | chronyk/chronyk.py:299 | the reported digits are a whole digit run, not preceded by a digit |
| UnitPattern.LeadingCountAtStart | chronyk/chronyk.py:299 | text opening with a count followed by the unit is read from its start |
| Text.Strip | chronyk/chronyk.py:475 | `strip()` yields a slice of the input with no white space at either end, and empty exactly for all-space input |
| Text.ReplaceDotSpaceKeepsOtherChars | chronyk/chronyk.py:475 | replacing ". " by " " keeps every character other than the full stop |
| Text.ReplaceDotSpaceIdentity | chronyk/chronyk.py:475 | text without ". " is left unchanged |
| Calendar.DaysInMonth | chronyk/chronyk.py:316 | `monthrange` gives 28 to 31 days, under 30 exactly for February |
| Calendar.YearFault | chronyk/chronyk.py:301-303 | a refused year raises ValueError exactly when it fits a C `int`, and OverflowError otherwise |
| Calendar.ReplaceYear | chronyk/chronyk.py:301-303 | `replace(year=y)` succeeds exactly when `y` is in 1..9999 and the day exists in that year, changing only the year; otherwise ValueError, or OverflowError for a year beyond the C `int` range |
| Calendar.ReplaceYearFailsOnlyOnLeapDay | chronyk/chronyk.py:301-303 | within the year range only 29 February, moved to a common year, is refused |
| Calendar.TruncDiv12 | chronyk/chronyk.py:313 | `int(a / 12)` truncates toward zero: what it leaves of `a` has the sign of `a` and is under 12 in magnitude |
| Calendar.ShiftMonthsAsWritten | chronyk/chronyk.py:313-318 | the month shift as written fails exactly when the truncated carry leaves the year range, with the C `int` fault rule; otherwise the year moves by the truncated carry, the month is the floored remainder plus one, the day is clamped to the month's length and the clock is kept |
| Calendar.ShiftMonths | chronyk/chronyk.py:313-318 | the corrected shift moves the month index by exactly the count and clamps the day to the month's length, failing only outside the year range |
| Calendar.ShiftMonthsAgreement | chronyk/chronyk.py:313 | the truncated carry equals the floored one exactly when the month count before the carry is non-negative or a whole number of years, and then the code as written agrees with the corrected shift |
| Calendar.ShiftMonthsYearAhead | chronyk/chronyk.py:313 | otherwise the code as written lands one year later than the corrected shift, in the same month, on the same day unless February's length differs |
| Calendar.MonthCarryCounterexample | chronyk/chronyk.py:313 | one month back from 15 January 2024 is 15 December 2024 as written, and 15 December 2023 as intended |
| Calendar.ShiftMonthsBack | chronyk/chronyk.py:313-318 | shifting back by the same count restores the date when the day was not clamped |
| Calendar.AddDaysSum | chronyk/chronyk.py:346 | adding `a` days and then `b` days adds `a + b` days |
| Calendar.AddDaysInverse | chronyk/chronyk.py:346 | adding and then subtracting the same number of days restores the date |
| Calendar.NextDayIsLater | chronyk/chronyk.py:346 | the next day is later, with no valid date in between |
| Calendar.Timedelta | chronyk/chronyk.py:346 | a `timedelta` of `s` seconds normalises to days and seconds in [0, 86400), OverflowError beyond 999999999 days |
| Calendar.AddSecondsExact | chronyk/chronyk.py:346 | `datetime + timedelta` lands exactly `s` seconds later, counted in days and seconds since midnight |
| RelativeParser.Mention | chronyk/chronyk.py:297-300 | the `find` guard in front of each pattern never changes the count read |
| RelativeParser.YearStep | chronyk/chronyk.py:297-305 | the year moves by the signed count and nothing else changes; an impossible date raises ValueError, a year beyond the C `int` range OverflowError |
| RelativeParser.MonthStep | chronyk/chronyk.py:308-320 | the month index moves by the signed count with the floored carry, the day is never raised and the clock is kept; a refused year raises the C `int` fault |
| RelativeParser.MonthStepAsWritten | chronyk/chronyk.py:308-320 | for a future text, a non-negative month count or a whole number of years, the step is exactly the code's truncating shift |
| RelativeParser.FixedSecondsIsDurationReading | chronyk/chronyk.py:322-340 | the weeks, days, hours, minutes and seconds read are what the duration parser reads from the same text |
| RelativeParser.ShiftMovesBy | chronyk/chronyk.py:342-346 | the result lies exactly the fixed seconds after the calendar step for a future text, and before it otherwise |
| RelativeParser.Shift | chronyk/chronyk.py:286-292 | a text is relative exactly when, padded with spaces, it contains " ago " or " in "; a failed shift is ValueError or OverflowError |
| RelativeParser.Relative | chronyk/chronyk.py:286-348 | the reading is the host's `mktime` of the shifted UTC civil time, and a shift failure is passed on unchanged, as ValueError or OverflowError |
| AbsoluteMatcher.CandidateAt | chronyk/chronyk.py:440-444 | position `|dts| + (|ts|+1)*i + k` of the candidate list holds date format `i` joined to time format `k`, and the bare date format closes its block |
| AbsoluteMatcher.FirstMatch | chronyk/chronyk.py:447-457 | the first format from the given position that `strptime` accepts, with nothing accepted before it; None exactly when no format accepts |
| AbsoluteMatcher.RepeatNeverFirst | chronyk/chronyk.py:447-457 | a format repeating an earlier one is never the first match |
| AbsoluteMatcher.CombinedZone | chronyk/chronyk.py:454 | a combined format names a zone exactly when its date or its time format does |
| AbsoluteMatcher.Stamp | chronyk/chronyk.py:453-456 | a format with a "z" or "Z" character anywhere takes `mktime` as is; a format with neither adds the instance's offset |
| AbsoluteMatcher.FirstStamp | chronyk/chronyk.py:446-472 | the first format that reads the text decides, with that format's zone rule; None exactly when none reads it |
| AbsoluteMatcher.TableEntries | chronyk/chronyk.py:352-438 | 5 full formats, 53 date formats and 12 time formats, the first two time formats the same |
| AbsoluteMatcher.AbsoluteFromCandidate | chronyk/chronyk.py:446-457 | when a candidate reads the text and none before it does, it decides |
| AbsoluteMatcher.AbsoluteFromTime | chronyk/chronyk.py:459-472 | with no candidate reading it, the first time format reading the text behind the load date decides |
| AbsoluteMatcher.Absolute | chronyk/chronyk.py:350-472 | `__fromabsolute__`: the 694 candidates in order, each with its zone rule, then the 12 time formats behind the load date; None when nothing reads the text |
| AbsoluteMatcher.AbsoluteNone | chronyk/chronyk.py:446-472 | the text is not absolute exactly when no candidate and no dated time format reads it |
| AbsoluteMatcher.IsoUtcFirst | chronyk/chronyk.py:353 | an ISO time in UTC ending in "Z" is read by the first candidate, without the offset |
| AbsoluteMatcher.FirstWithoutZone | chronyk/chronyk.py:453-457 | a first reader without a zone gives `mktime` plus the instance's offset |
| AbsoluteMatcher.DuplicateTimeFormatUnused | chronyk/chronyk.py:423-424 | the combinations with the repeated "%H:%M:%S %z" are never the first match |
| Dispatch.CommonName | chronyk/chronyk.py:477-484 | the five names of the present read as the current UTC time, the two for yesterday one day less, and "yesteryear" fails exactly on 29 February or in year 1, always with ValueError, and otherwise is the same date and clock one year earlier, through `mktime`; no other name fails |
| Dispatch.FromString | chronyk/chronyk.py:474-496 | the only faults are ValueError and OverflowError |
| Dispatch.CommonNameFirst | chronyk/chronyk.py:477-484 | a common name is never read as a relative or absolute time |
| Dispatch.RelativeBeforeAbsolute | chronyk/chronyk.py:486-489 | a relative text decides even when an absolute format would also read it |
| Dispatch.AbsoluteLast | chronyk/chronyk.py:491-496 | otherwise the absolute reading decides, and a text nothing reads raises ValueError |
| Dispatch.NormalForm | chronyk/chronyk.py:475 | lower-case words with inner spaces are their own normal form |
| Dispatch.YesterdayName | chronyk/chronyk.py:480-481 | a name for yesterday reads as one day before the current UTC time |
| Instants.Reading | chronyk/chronyk.py:188-207 | a number or a civil time is read in the offset and an absent input is the current time in the offset; only an unknown type (TypeError), a `datetime.time` (AttributeError, as it has no `timetuple`) or an unreadable text fails |
| Instants.Construct | chronyk/chronyk.py:184-211 | the instance exists exactly when the input reads and lies on an allowed side of the current UTC time; a reading on a refused side raises DateRangeError, and an input that does not read fails with the reading's own error (TypeError, ValueError, AttributeError) |
| Instants.OffsetRebase | chronyk/chronyk.py:199-200 | a number read in offset `z` has timestamp `x + z - z2` in offset `z2`, and `x` in its own offset |
| Instants.Timestamp | chronyk/chronyk.py:528-539 | `timestamp(timezone)` is the stored value less the given offset, or less the instance's own offset when none is given |
| Instants.Equal | chronyk/chronyk.py:228-259 | `==`, `>` and `<` compare the stored value with another instance's UTC timestamp or with a bare number; `!=`, `<=` and `>=` are the negations of `==`, `>` and `<` (`NotEqual`, `AtMost`, `AtLeast`) |
| Instants.ToInt | chronyk/chronyk.py:221-222 | `int()` is the UTC timestamp truncated toward zero |
| Instants.NumberComparedAsStored | chronyk/chronyk.py:228-259 | against a plain number an instance made from `x` in offset `z` compares as `x + z`: it equals `x` only when `z` is zero, though its `timestamp()` is `x` |
| Instants.InstantsFromNumbers | chronyk/chronyk.py:228-259 | instances made from numbers compare by number plus offset; the same number in two different offsets gives unequal instances |
| Instants.Later | chronyk/chronyk.py:262-270 | adding keeps the offset and moves the timestamp later by the amount |
| Instants.Earlier | chronyk/chronyk.py:272-283 | subtracting a number or duration keeps the offset and moves the timestamp earlier by the amount |
| Instants.Since | chronyk/chronyk.py:272-275 | the difference of two instances is the difference of their UTC timestamps |
| Instants.DeltaPlus | chronyk/chronyk.py:701-702 | a duration plus an instance keeps the instance's offset, moves its timestamp later by the duration, and lies exactly that duration after the instance |
| Instants.LaterEarlierInverse | chronyk/chronyk.py:262-283 | subtracting what was added gives the instance back, and the difference is the amount added |
| Instants.SinceThenLater | chronyk/chronyk.py:262-283 | adding the difference of two instances to the second one reaches the first |
| Instants.Timestring | chronyk/chronyk.py:554-572 | `timestring(pattern, timezone)` formats, through the host, the timestamp in the chosen offset less the local offset, as a UTC time |
| Instants.TimestringOfNumber | chronyk/chronyk.py:554-572 | a number read in the local offset prints as the host prints that number less the local offset |
| Instants.Describe | chronyk/chronyk.py:622-628 | phrases other than "1 day" are put ahead with "in" or behind with "ago" |
| Instants.RelativeString | chronyk/chronyk.py:574-628 | the corrected `relativestring` (see Findings): under `minimum` gives "just now", beyond a positive `maximum` gives the date, and only `maxunits < 1` within the band fails |
| Instants.RelativeRendered | chronyk/chronyk.py:614-628 | within the band the result is the rendered distance, described by its sign |
| Instants.RelativeWhole | chronyk/chronyk.py:614-628 | a distance of whole units reads "in <phrase>" ahead and "<phrase> ago" behind |
| Instants.RelativeOneDay | chronyk/chronyk.py:621-622 | one day ahead is "tomorrow", one day behind "yesterday" |
| Instants.RelativeStringAsWritten | chronyk/chronyk.py:574-628 | `relativestring` as written: outside the band it is the corrected result; inside it, it agrees exactly when the distance reaches a rounded year, and otherwise raises RuntimeError |
| Instants.OneDayAsWritten | chronyk/chronyk.py:621 | one day ahead or behind raises RuntimeError as written, where the corrected rendering says "tomorrow" or "yesterday" |
| Instants.NowIsJustNow | chronyk/chronyk.py:612-617 | an instance made now is "just now" by the defaults |
| Instants.YesterdayNameRoundTrip | chronyk/chronyk.py:480-481 | a name for yesterday becomes "yesterday" again whenever one day lies in the worded band |
| Instants.YesterdayRoundTrip | test_chronyk.py:39-40 | "yesterday" read with the defaults is described as "yesterday" |
| Instants.FiveSecondsAgo | test_chronyk.py:102-104 | an instance five seconds before `now`, with no minimum, is "5 seconds ago" |
| Guess.MentionsAny | chronyk/chronyk.py:123-126 | the search finds a unit exactly when one of the listed units is named somewhere in the text |
| Guess.LooksRelative | chronyk/chronyk.py:118-120 | a text looks relative when, padded with one space on each side, it contains " in " or " ago " |
| Guess.MentionsAnyUnit | chronyk/chronyk.py:123-126 | searching the seven names in order finds a unit exactly when some unit is named |
| Guess.GuessType | chronyk/chronyk.py:112-128 | a relative-looking text is an instance; otherwise naming a unit makes it a duration, and anything else is an instance |
| Guess.WordWithoutCountIsEmptyDuration | chronyk/chronyk.py:123-126 | a text naming a unit with no digits and no relative marker is a zero duration |
| Guess.TodayIsGuessedDuration | chronyk/chronyk.py:112-128 | "today" is guessed to be an empty duration, while the constructor reads it as now |

## Left out

- Host services are not modelled. This covers `time.time`, `LOCALTZ`,
  `utcnow`, the C library's `strptime`, `mktime` and `strftime`, and the
  Windows fallbacks in `_mktime`, `_strftime`, `_gmtime` and `_isdst`. Each is a
  field of `Host` with no properties beyond its type, because it is
  platform code the module only calls.
- Floating point is not modelled: timestamps and durations are exact reals.
  Rounding error in `float(...) * v` and in the breakdown's subtractions is
  therefore absent.
- Text.Lower: lowers only the ASCII letters and keeps the length. Python's
  `str.lower` also lowers other letters: some become ASCII (the Kelvin sign
  U+212A becomes "k"), and some become two characters (U+0130 becomes "i"
  and a combining dot). On such text the model differs from Python.
- `ctime`, `datetime`, `date`, `__repr__`, `__str__` and `__float__` are not
  modelled. They are direct conversions through the host or through
  `timestring`, so there is nothing to prove beyond that.
- The `NotImplemented` results for operand types the operators do not accept
  are not modelled. `Operand` and `Comparand` admit only the accepted types.
- `guesstype` applied to a number is not modelled. It depends on how Python
  formats a float as text.
- RelativeParser.MonthStep: uses the floored year carry, not the truncating
  carry of line 313. For a past shift across a year boundary that is not a
  whole number of years, the code as written lands one year later (see
  Findings). `MonthStepAsWritten` states where the two agree.
- RelativeParser.Relative: inherits the floored carry from `MonthStep`.
- RelativeParser.Shift: inherits the floored carry from `MonthStep`.
- Dispatch.FromString: inherits the floored carry from `MonthStep`.
- Instants.Construct: inherits the floored carry for relative texts.
- Instants.RelativeString: uses the corrected `Deltas.Render`. As written, on
  CPython 3.5 and later, line 621 raises RuntimeError for every in-band distance
  of at most 292 days, whose year count is 0 (see Findings);
  `RelativeStringAsWritten` models that, and the lemmas about `RelativeString`
  (`RelativeRendered`, `RelativeWhole`, `RelativeOneDay`, `YesterdayRoundTrip`,
  `YesterdayNameRoundTrip`, `FiveSecondsAgo`) hold of the corrected one only.
- Mutable state is not modelled: each Python object is an immutable datatype.

## Findings

| source | as written | input that shows it | evidently intended | confidence | as-written member | corrected member |
|---|---|---|---|---|---|---|
| chronyk/chronyk.py:313 | the year carry is `int(((month - 1) + months * coef) / 12)`, which truncates toward zero, while the month uses `%`, which floors | "1 month ago" on 2024-01-15 gives 2024-12-15 | a floored carry, giving 2023-12-15 | high (not executed) | Calendar.ShiftMonthsAsWritten | Calendar.ShiftMonths |
| chronyk/chronyk.py:803-807 | leading zero counts are removed with `values.pop(k)` while iterating over the same `OrderedDict`, which on CPython 3.5 and later raises RuntimeError at the next step of the loop (the Python 3.2-3.4 that setup.py:129-131 declares keep iterating) | `ChronykDelta(18000).timestring()` | "5 hours", which the library's own tests expect | high (not executed) | Deltas.RenderAsWritten | Deltas.Render |
| chronyk/chronyk.py:621 | `relativestring` renders its distance with `timestring`, so on CPython 3.5 and later it inherits the RuntimeError above for every in-band distance of at most 292 days (year count 0) | `Chronyk("yesterday").relativestring()`, a distance of 86400 s | "yesterday", which the library's own tests expect | high (not executed) | Instants.OneDayAsWritten | Instants.RelativeOneDay |
