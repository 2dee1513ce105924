/** `guesstype`: a text is taken for a point in time when it reads as a relative
    time, for a duration when it names any unit, and for a point in time
    otherwise. */
module Guess {
  import opened Wrappers
  import opened Text
  import opened UnitPattern
  import opened Environment
  import opened RelativeParser
  import opened Instants
  import Deltas

  datatype Guessed = AnInstant(instant: Result<Instant>) | ADelta(delta: Deltas.Delta)

  /** The unit names in the order the search tries them. */
  function SearchOrder(): seq<Deltas.Unit> {
    [Deltas.Second, Deltas.Minute, Deltas.Hour, Deltas.Day, Deltas.Week, Deltas.Month, Deltas.Year]
  }

  /** Some unit of `us` is named somewhere in `p`, even inside another word. */
  function MentionsAny(p: string, us: seq<Deltas.Unit>): (b: bool)
    ensures b <==> exists i | 0 <= i < |us| :: Contains(p, Deltas.Name(us[i]))
  {
    if us == [] then false
    else if Contains(p, Deltas.Name(us[0])) then true
    else
      var b := MentionsAny(p, us[1..]);
      assert forall i | 1 <= i < |us| :: us[i] == us[1..][i - 1];
      b
  }

  /** Every unit is searched for. */
  lemma SearchOrderComplete(u: Deltas.Unit)
    ensures exists i | 0 <= i < |SearchOrder()| :: SearchOrder()[i] == u
  {
    match u
    case Second => assert SearchOrder()[0] == u;
    case Minute => assert SearchOrder()[1] == u;
    case Hour => assert SearchOrder()[2] == u;
    case Day => assert SearchOrder()[3] == u;
    case Week => assert SearchOrder()[4] == u;
    case Month => assert SearchOrder()[5] == u;
    case Year => assert SearchOrder()[6] == u;
  }

  /** Some unit is named somewhere in `p`. */
  ghost predicate NamesUnit(p: string) {
    exists u: Deltas.Unit :: Contains(p, Deltas.Name(u))
  }

  lemma {:induction false} MentionsAnyUnit(p: string)
    ensures MentionsAny(p, SearchOrder()) <==> NamesUnit(p)
  {
    if NamesUnit(p) {
      var u :| Contains(p, Deltas.Name(u));
      SearchOrderComplete(u);
    }
  }

  /** Reads as relative: " in " or " ago " occurs once the text is padded. */
  predicate LooksRelative(s: string) {
    Contains(Pad(s), " in ") || Contains(Pad(s), " ago ")
  }

  /** `guesstype(timestr)` for a text. Instants are made with the constructor's
      defaults, so a text it cannot read gives the constructor's error. */
  function GuessType(h: Host, s: string): (r: Guessed)
    requires WellFormed(h)
    ensures r.AnInstant? ==> r.instant == Construct(h, Text(s), h.localTz, true, true)
    ensures r.ADelta? ==> r.delta == Deltas.Parse(s)
    ensures r.ADelta? <==> !LooksRelative(s) && NamesUnit(Pad(s))
  {
    MentionsAnyUnit(Pad(s));
    if LooksRelative(s) then AnInstant(Construct(h, Text(s), h.localTz, true, true))
    else if MentionsAny(Pad(s), SearchOrder()) then ADelta(Deltas.Parse(s))
    else AnInstant(Construct(h, Text(s), h.localTz, true, true))
  }

  /** A text without digits counts no unit, so it parses as no time at all. */
  lemma NoDigitsNoCount(s: string, unit: string)
    requires forall i | 0 <= i < |s| :: !IsDigit(s[i])
    ensures LeadingCount(s, unit).None?
  {
  }

  lemma NoDigitsParseZero(s: string)
    requires forall i | 0 <= i < |s| :: !IsDigit(s[i])
    ensures Deltas.Parse(s).seconds == 0.0
  {
    NoDigitsNoCount(s, Deltas.Name(Deltas.Second));
    NoDigitsNoCount(s, Deltas.Name(Deltas.Minute));
    NoDigitsNoCount(s, Deltas.Name(Deltas.Hour));
    NoDigitsNoCount(s, Deltas.Name(Deltas.Day));
    NoDigitsNoCount(s, Deltas.Name(Deltas.Week));
    NoDigitsNoCount(s, Deltas.Name(Deltas.Month));
    NoDigitsNoCount(s, Deltas.Name(Deltas.Year));
  }

  /** A text containing a unit name but no digits and no relative marker is
      guessed to be a duration of zero seconds. */
  lemma WordWithoutCountIsEmptyDuration(h: Host, s: string, u: Deltas.Unit)
    requires WellFormed(h)
    requires forall i | 0 <= i < |s| :: !IsDigit(s[i])
    requires !LooksRelative(s) && Contains(Pad(s), Deltas.Name(u))
    ensures GuessType(h, s) == ADelta(Deltas.Delta(0.0))
  {
    NoDigitsParseZero(s);
  }

  /** "today" names a day, so it is guessed to be an empty duration, although
      the constructor reads the same text as the current time. */
  lemma TodayIsGuessedDuration(h: Host, s: string)
    requires WellFormed(h) && s == "today"
    ensures GuessType(h, s) == ADelta(Deltas.Delta(0.0))
    ensures Construct(h, Text(s), h.localTz, true, true) == Ok(Instant(CurrentUtc(h), h.localTz))
  {
    var p := Pad(s);
    assert p == " today ";
    assert PrefixAt(Deltas.Name(Deltas.Day), p, 3);
    MissingChar(p, " in ", 1);
    MissingChar(p, " ago ", 2);
    WordWithoutCountIsEmptyDuration(h, s, Deltas.Day);
    TodayReading(h, s);
  }

  lemma TodayReading(h: Host, s: string)
    requires WellFormed(h) && s == "today"
    ensures Construct(h, Text(s), h.localTz, true, true) == Ok(Instant(CurrentUtc(h), h.localTz))
  {
    Dispatch.TodayIsNowName();
    NowNameReading(h, s);
  }
}
