/** ChronykDelta: a signed amount of seconds, read from unit phrases and
    rendered as "4 days, 2 hours and 40 minutes". */
module Deltas {
  import opened Wrappers
  import opened Text
  import opened UnitPattern

  datatype Unit = Second | Minute | Hour | Day | Week | Month | Year

  function Name(u: Unit): string {
    match u
    case Second => "second"
    case Minute => "minute"
    case Hour => "hour"
    case Day => "day"
    case Week => "week"
    case Month => "month"
    case Year => "year"
  }

  /** Seconds per unit; a month is 30 days and a year 365 days. */
  function Length(u: Unit): nat {
    match u
    case Second => 1
    case Minute => 60
    case Hour => 3600
    case Day => 86400
    case Week => 604800
    case Month => 2592000
    case Year => 31536000
  }

  /** `n` of unit `u`, in seconds. Each case multiplies by a constant. */
  function Worth(n: int, u: Unit): real {
    match u
    case Second => n as real
    case Minute => n as real * 60.0
    case Hour => n as real * 3600.0
    case Day => n as real * 86400.0
    case Week => n as real * 604800.0
    case Month => n as real * 2592000.0
    case Year => n as real * 31536000.0
  }

  /** `x` seconds measured in unit `u`. Each case divides by a constant. */
  function InUnits(x: real, u: Unit): real {
    match u
    case Second => x
    case Minute => x / 60.0
    case Hour => x / 3600.0
    case Day => x / 86400.0
    case Week => x / 604800.0
    case Month => x / 2592000.0
    case Year => x / 31536000.0
  }

  lemma WorthIsProduct(n: int, u: Unit)
    ensures Worth(n, u) == n as real * Length(u) as real
    ensures InUnits(Worth(n, u), u) == n as real
  {
  }

  datatype Delta = Delta(seconds: real)

  // ---------------------------------------------------------------------------
  // Parsing unit phrases

  /** What one unit adds: its leading count times its length, or nothing when the
      pattern does not match. */
  function Contribution(s: string, u: Unit): (r: real)
    ensures r >= 0.0
    ensures LeadingCount(s, Name(u)).None? ==> r == 0.0
    ensures LeadingCount(s, Name(u)).Some? ==> r == Worth(LeadingCount(s, Name(u)).value, u)
  {
    match LeadingCount(s, Name(u))
    case None => 0.0
    case Some(n) => Worth(n, u)
  }

  /** `ChronykDelta(str)`: the sum of the seven contributions. Parsing never fails,
      and every unit whose pattern matches adds its count's worth. */
  function Parse(s: string): (d: Delta)
    ensures d.seconds >= 0.0
    ensures forall u | LeadingCount(s, Name(u)).Some? ::
      d.seconds >= Worth(LeadingCount(s, Name(u)).value, u)
  {
    var total :=
      Contribution(s, Second) + Contribution(s, Minute) + Contribution(s, Hour)
      + Contribution(s, Day) + Contribution(s, Week) + Contribution(s, Month)
      + Contribution(s, Year);
    assert forall u | LeadingCount(s, Name(u)).Some? :: Worth(LeadingCount(s, Name(u)).value, u) <= total by {
      forall u | LeadingCount(s, Name(u)).Some?
        ensures Worth(LeadingCount(s, Name(u)).value, u) <= total
      {
        ContributionBelowSum(s, u);
      }
    }
    Delta(total)
  }

  /** Each unit's share is at most the sum of all seven, none being negative. */
  lemma ContributionBelowSum(s: string, u: Unit)
    ensures Contribution(s, u)
      <= Contribution(s, Second) + Contribution(s, Minute) + Contribution(s, Hour)
       + Contribution(s, Day) + Contribution(s, Week) + Contribution(s, Month)
       + Contribution(s, Year)
  {
    match u
    case Second =>
    case Minute =>
    case Hour =>
    case Day =>
    case Week =>
    case Month =>
    case Year =>
  }

  /** What `ChronykDelta` is given: a text, a number, or a value of any other type. */
  datatype Source = Words(text: string) | Amount(amount: real) | Other

  /** `ChronykDelta(timestr)`: a text is parsed, a number kept as it is, anything
      else refused. A parsed text is never negative. */
  function Make(x: Source): (r: Result<Delta>)
    ensures r.Err? <==> x.Other?
    ensures r.Err? ==> r.fault == TypeError
    ensures x.Words? ==> r.value.seconds >= 0.0
    ensures x.Amount? ==> r.value.seconds == x.amount
  {
    match x
    case Words(t) => Ok(Parse(t))
    case Amount(a) => Ok(Delta(a))
    case Other => Err(TypeError)
  }

  /** Text the parser cannot read is not refused: without a digit, no unit
      pattern matches and the duration is zero. */
  lemma TextWithoutDigitsIsZero(t: string)
    requires forall i | 0 <= i < |t| :: !IsDigit(t[i])
    ensures Make(Words(t)) == Ok(Delta(0.0))
  {
    forall u
      ensures Contribution(t, u) == 0.0
    {
      MatchesStartWithDigit(t, Name(u));
    }
  }

  /** No unit name is a prefix of another one, even with a plural "s". */
  lemma NamesDoNotOverlap(u: Unit, v: Unit, suffix: string)
    requires u != v && (suffix == "" || suffix == "s")
    ensures !PrefixAt(Name(v), Name(u) + suffix, 0)
  {
    var t := Name(u) + suffix;
    var i := if Name(u)[0] != Name(v)[0] then 0 else 1;
    assert t[i] == Name(u)[i] != Name(v)[i];
    if |Name(v)| <= |t| {
      assert t[..|Name(v)|][i] != Name(v)[i];
    }
  }

  /** The phrase "<n> <unit>" or "<n> <unit>s". */
  function Phrase(n: nat, u: Unit, suffix: string): string {
    NatToString(n) + " " + Name(u) + suffix
  }

  /** Unit names are lower-case letters: neither spaces, nor digits, nor line
      breaks. */
  lemma NameLetters(u: Unit, j: int)
    requires 0 <= j < |Name(u)|
    ensures 'a' <= Name(u)[j] <= 'z'
    ensures Name(u)[j] != ' ' && !IsDigit(Name(u)[j])
  {
  }

  lemma PhraseSpaces(n: nat, u: Unit, suffix: string, i: int)
    requires suffix == "" || suffix == "s"
    requires 0 <= i < |Phrase(n, u, suffix)|
    ensures Phrase(n, u, suffix)[i] == ' ' <==> i == |NatToString(n)|
    ensures i < |NatToString(n)| <==> IsDigit(Phrase(n, u, suffix)[i])
    ensures Phrase(n, u, suffix)[i] != '\n'
  {
    var ds := NatToString(n);
    var s := Phrase(n, u, suffix);
    if i < |ds| {
      assert s[i] == ds[i];
    } else if i > |ds| + |Name(u)| {
      assert s[i] == 's';
    } else if i > |ds| {
      assert s[i] == Name(u)[i - |ds| - 1];
      NameLetters(u, i - |ds| - 1);
    }
  }

  /** Inside a phrase the digit run starting at 0 ends at the space. */
  lemma PhraseDigitRun(n: nat, u: Unit, suffix: string)
    requires suffix == "" || suffix == "s"
    ensures DigitRunEnd(Phrase(n, u, suffix), 0) == |NatToString(n)|
  {
    var ds := NatToString(n);
    var s := Phrase(n, u, suffix);
    var e := DigitRunEnd(s, 0);
    PhraseSpaces(n, u, suffix, |ds|);
    if e < |ds| {
      PhraseSpaces(n, u, suffix, e);
    }
  }

  /** What follows the space of a phrase is the unit name and the suffix. */
  lemma PhraseTail(n: nat, u: Unit, suffix: string, pat: string)
    requires PrefixAt(" " + pat, Phrase(n, u, suffix), |NatToString(n)|)
    ensures PrefixAt(pat, Name(u) + suffix, 0)
  {
    var ds := NatToString(n);
    var t := Name(u) + suffix;
    assert Phrase(n, u, suffix) == ds + " " + t;
    TailAfterSpace(ds, t, pat);
  }

  lemma TailAfterSpace(ds: string, t: string, pat: string)
    requires PrefixAt(" " + pat, ds + " " + t, |ds|)
    ensures PrefixAt(pat, t, 0)
  {
    var s := ds + " " + t;
    assert s[|ds| + 1..|ds| + 1 + |pat|] == t[..|pat|];
    assert s[|ds|..|ds| + 1 + |pat|][1..] == s[|ds| + 1..|ds| + 1 + |pat|];
  }

  /** A phrase opens with the digits of its count, followed by its own unit. */
  lemma PhraseOpening(n: nat, u: Unit, suffix: string)
    requires suffix == "" || suffix == "s"
    ensures var s := Phrase(n, u, suffix);
      && IsDigit(s[0]) && DigitRunEnd(s, 0) == |NatToString(n)|
      && PrefixAt(" " + Name(u), s, |NatToString(n)|)
      && s[..|NatToString(n)|] == NatToString(n)
  {
    PhraseDigitRun(n, u, suffix);
    PhraseSpaces(n, u, suffix, 0);
    PhraseUnitFollows(NatToString(n), Name(u), suffix);
  }

  lemma PhraseUnitFollows(ds: string, name: string, suffix: string)
    ensures PrefixAt(" " + name, ds + " " + name + suffix, |ds|)
    ensures (ds + " " + name + suffix)[..|ds|] == ds
  {
    var s := ds + " " + name + suffix;
    assert s[|ds|..|ds| + |name| + 1] == " " + name;
  }

  /** In a phrase, the count in front of its own unit is the number written. */
  lemma PhraseCountsOwnUnit(n: nat, u: Unit, suffix: string)
    requires suffix == "" || suffix == "s"
    ensures LeadingCount(Phrase(n, u, suffix), Name(u)) == Some(n)
  {
    PhraseOpening(n, u, suffix);
    LeadingCountAtStart(Phrase(n, u, suffix), Name(u));
  }

  /** A match of any unit's pattern in a phrase sits at the phrase's space. */
  lemma PhraseMatchAtSpace(n: nat, u: Unit, suffix: string, pat: string, p: int, k: int)
    requires suffix == "" || suffix == "s"
    requires LazyMatch(Phrase(n, u, suffix), pat, p, k)
    ensures PrefixAt(pat, Name(u) + suffix, 0)
  {
    var s := Phrase(n, u, suffix);
    assert s[p + k] == s[p + k..p + k + |pat| + 1][0] == ' ';
    PhraseSpaces(n, u, suffix, p + k);
    PhraseTail(n, u, suffix, pat);
  }

  /** In a phrase, no other unit's pattern matches. */
  lemma PhraseIgnoresOtherUnits(n: nat, u: Unit, v: Unit, suffix: string)
    requires suffix == "" || suffix == "s"
    requires u != v
    ensures LeadingCount(Phrase(n, u, suffix), Name(v)).None?
  {
    NamesDoNotOverlap(u, v, suffix);
    forall p, k | LazyMatch(Phrase(n, u, suffix), Name(v), p, k)
      ensures false
    {
      PhraseMatchAtSpace(n, u, suffix, Name(v), p, k);
    }
  }

  /** Parsing the phrase "<n> <unit>[s]" gives n units' worth of seconds. */
  lemma PhraseContribution(n: nat, u: Unit, suffix: string, v: Unit)
    requires suffix == "" || suffix == "s"
    ensures Contribution(Phrase(n, u, suffix), v) == if v == u then Worth(n, u) else 0.0
  {
    if v == u {
      PhraseCountsOwnUnit(n, u, suffix);
    } else {
      PhraseIgnoresOtherUnits(n, u, v, suffix);
    }
  }

  lemma ParsePhrase(n: nat, u: Unit, suffix: string)
    requires suffix == "" || suffix == "s"
    ensures Parse(Phrase(n, u, suffix)).seconds == Worth(n, u)
  {
    PhraseContribution(n, u, suffix, Second);
    PhraseContribution(n, u, suffix, Minute);
    PhraseContribution(n, u, suffix, Hour);
    PhraseContribution(n, u, suffix, Day);
    PhraseContribution(n, u, suffix, Week);
    PhraseContribution(n, u, suffix, Month);
    PhraseContribution(n, u, suffix, Year);
  }

  // ---------------------------------------------------------------------------
  // Two phrases: "1 day and 12 hours"

  /** Two phrases with a separator between them. */
  function Pair(a: nat, u1: Unit, s1: string, sep: string, b: nat, u2: Unit, s2: string): string {
    Phrase(a, u1, s1) + sep + Phrase(b, u2, s2)
  }

  /** Any two unit names differ within their first two letters. */
  lemma NamesDifferEarly(u: Unit, v: Unit)
    requires u != v
    ensures Name(u)[0] != Name(v)[0] || Name(u)[1] != Name(v)[1]
  {
  }

  /** Only one unit name can follow a space at a given position. */
  lemma SpaceNameUnique(s: string, i: int, u: Unit, v: Unit)
    requires PrefixAt(" " + Name(u), s, i) && PrefixAt(" " + Name(v), s, i)
    ensures u == v
  {
    var x, y := s[i..i + 1 + |Name(u)|], s[i..i + 1 + |Name(v)|];
    assert x[1] == s[i + 1] == y[1] && x[2] == s[i + 2] == y[2];
    if u != v {
      NamesDifferEarly(u, v);
    }
  }

  /** Unit names are lower-case words. */
  lemma NameIsLetters(u: Unit)
    ensures 0 < |Name(u)| && Letters(Name(u))
  {
  }

  /** In a pair of distinct units, each unit reads its own count and every other
      unit reads nothing. */
  lemma PairCounts(a: nat, u1: Unit, s1: string, sep: string, b: nat, u2: Unit, s2: string, v: Unit)
    requires (s1 == "" || s1 == "s") && (s2 == "" || s2 == "s") && PlainSeparator(sep) && u1 != u2
    ensures LeadingCount(Pair(a, u1, s1, sep, b, u2, s2), Name(v))
      == if v == u1 then Some(a) else if v == u2 then Some(b) else None
  {
    WordsCounts(NatToString(a), a, u1, s1, sep, NatToString(b), b, u2, s2, v);
  }

  /** The same for counts written with any digits and unit names with any
      lower-case suffix. */
  lemma WordsCounts(ds1: string, a: nat, u1: Unit, s1: string, sep: string,
                    ds2: string, b: nat, u2: Unit, s2: string, v: Unit)
    requires 0 < |ds1| && AllDigits(ds1) && DecimalValue(ds1) == a && Letters(s1)
    requires 0 < |ds2| && AllDigits(ds2) && DecimalValue(ds2) == b && Letters(s2)
    requires PlainSeparator(sep) && u1 != u2
    ensures LeadingCount((ds1 + " " + Name(u1) + s1) + sep + (ds2 + " " + Name(u2) + s2), Name(v))
      == if v == u1 then Some(a) else if v == u2 then Some(b) else None
  {
    NameIsLetters(u1);
    NameIsLetters(u2);
    TwoCountWords(ds1, Name(u1), s1, sep, ds2, Name(u2), s2);
    var x := ds1 + " " + Name(u1) + s1;
    CountsOf(x + sep + (ds2 + " " + Name(u2) + s2), ds1, a, u1, |x| + |sep|, ds2, b, u2, v);
  }

  /** The counts read from a text holding the digits of `a` and `b` in front of
      two distinct units. */
  lemma CountsOf(t: string, ds1: string, a: nat, u1: Unit, q: int, ds2: string, b: nat, u2: Unit, v: Unit)
    requires TwoRuns(t, |ds1|, Name(u1), q, |ds2|, Name(u2)) && u1 != u2
    requires AllDigits(ds1) && DecimalValue(ds1) == a && t[0..|ds1|] == ds1
    requires AllDigits(ds2) && DecimalValue(ds2) == b && t[q..q + |ds2|] == ds2
    ensures LeadingCount(t, Name(v)) == if v == u1 then Some(a) else if v == u2 then Some(b) else None
  {
    CountsAt(t, |ds1|, u1, q, |ds2|, u2, v);
  }

  /** The counts read from any text holding two counts of distinct units. */
  lemma CountsAt(t: string, d1: int, u1: Unit, q: int, d2: int, u2: Unit, v: Unit)
    requires TwoRuns(t, d1, Name(u1), q, d2, Name(u2)) && u1 != u2
    ensures LeadingCount(t, Name(v)) ==
      if v == u1 then Some(DecimalValue(t[0..d1]))
      else if v == u2 then Some(DecimalValue(t[q..q + d2]))
      else None
  {
    if v == u1 {
      TwoRunsFirst(t, d1, Name(u1), q, d2, Name(u2));
    } else if v == u2 {
      if PrefixAt(" " + Name(u2), t, d1) {
        SpaceNameUnique(t, d1, u1, u2);
      }
      TwoRunsSecond(t, d1, Name(u1), q, d2, Name(u2));
    } else {
      if PrefixAt(" " + Name(v), t, d1) {
        SpaceNameUnique(t, d1, u1, v);
      }
      if PrefixAt(" " + Name(v), t, q + d2) {
        SpaceNameUnique(t, q + d2, u2, v);
      }
      TwoRunsOther(t, d1, Name(u1), q, d2, Name(u2), Name(v));
    }
  }

  /** Two phrases of distinct units, joined by any separator without digits, parse
      to the sum of their worths: "1 day and 12 hours" is 129600 seconds. */
  lemma ParsePair(a: nat, u1: Unit, s1: string, sep: string, b: nat, u2: Unit, s2: string)
    requires (s1 == "" || s1 == "s") && (s2 == "" || s2 == "s") && PlainSeparator(sep) && u1 != u2
    ensures Parse(Pair(a, u1, s1, sep, b, u2, s2)).seconds == Worth(a, u1) + Worth(b, u2)
  {
    var t := Pair(a, u1, s1, sep, b, u2, s2);
    forall v
      ensures Contribution(t, v) == Share(v, u1, Worth(a, u1)) + Share(v, u2, Worth(b, u2))
    {
      PairCounts(a, u1, s1, sep, b, u2, s2, v);
    }
    SharesSum(u1, Worth(a, u1));
    SharesSum(u2, Worth(b, u2));
  }

  /** `x` counted for unit `w` only. */
  function Share(u: Unit, w: Unit, x: real): real {
    if u == w then x else 0.0
  }

  lemma SharesSum(w: Unit, x: real)
    ensures Share(Second, w, x) + Share(Minute, w, x) + Share(Hour, w, x) + Share(Day, w, x)
      + Share(Week, w, x) + Share(Month, w, x) + Share(Year, w, x) == x
  {
  }

  // ---------------------------------------------------------------------------
  // Rendering

  /** `_round`: rounds up only when the fractional part exceeds 0.8. The result is
      the one integer `r` with `r - 0.2 < x <= r + 0.8`. */
  function StrictRound(x: real): (r: int)
    ensures r as real - 0.2 < x <= r as real + 0.8
  {
    if x - x.Floor as real > 0.8 then x.Floor + 1 else x.Floor
  }

  lemma StrictRoundUnique(x: real, n: int)
    requires n as real - 0.2 < x <= n as real + 0.8
    ensures StrictRound(x) == n
  {
  }

  lemma MulCancelLess(a: real, b: real, c: real)
    requires c > 0.0 && a * c < b * c
    ensures a < b
  {
  }

  lemma MulCancelAtMost(a: real, b: real, c: real)
    requires c > 0.0 && a * c <= b * c
    ensures a <= b
  {
  }

  lemma ToRealMul(a: int, b: int)
    ensures (a * b) as real == a as real * b as real
  {
  }

  /** `n / d` splits into the whole quotient and the fraction of the remainder. */
  lemma QuotientSplit(n: real, q: real, m: real, d: real)
    requires d > 0.0 && n == q * d + m
    ensures n / d == q + m / d
  {
    assert (q + m / d) * d == q * d + (m / d) * d;
  }

  /** The fraction `m / d` of a remainder lies in [0, 1) and exceeds 0.8 exactly when
      five remainders exceed four divisors. */
  lemma FractionBounds(m: real, d: real)
    requires 0.0 <= m < d
    ensures 0.0 <= m / d < 1.0
    ensures m / d > 0.8 <==> 5.0 * m > 4.0 * d
  {
    var y := m / d;
    assert y * d == m;
    if 5.0 * m <= 4.0 * d {
      AtMostFourFifths(m, d, y);
    } else {
      MoreThanFourFifths(m, d, y);
    }
    MulCancelAtMost(0.0, y, d);
    MulCancelLess(y, 1.0, d);
  }

  lemma AtMostFourFifths(m: real, d: real, y: real)
    requires d > 0.0 && y * d == m && 5.0 * m <= 4.0 * d
    ensures y <= 0.8
  {
    MulCancelAtMost(y, 0.8, d);
  }

  lemma MoreThanFourFifths(m: real, d: real, y: real)
    requires d > 0.0 && y * d == m && 5.0 * m > 4.0 * d
    ensures y > 0.8
  {
    MulCancelLess(0.8, y, d);
  }

  /** For an integer numerator and a positive divisor, `_round(n / d)` rounds the
      quotient up exactly when five remainders exceed four divisors. */
  lemma StrictRoundOfQuotient(n: int, d: int)
    requires d > 0
    ensures StrictRound(n as real / d as real) == n / d + (if 5 * (n % d) > 4 * d then 1 else 0)
  {
    var q, m := n / d, n % d;
    ToRealMul(q, d);
    QuotientSplit(n as real, q as real, m as real, d as real);
    FractionBounds(m as real, d as real);
    if 5 * m > 4 * d {
      StrictRoundUnique(n as real / d as real, q + 1);
    } else {
      StrictRoundUnique(n as real / d as real, q);
    }
  }

  function Max0(n: int): nat {
    if n > 0 then n else 0
  }

  /** The six display units, largest first. */
  const DisplayUnits: seq<Unit> := [Year, Month, Day, Hour, Minute, Second]

  /** The seconds that counts for the display units from position `i` on stand for. */
  function WeightedFrom(b: seq<int>, i: nat): real
    requires i + |b| <= |DisplayUnits|
    decreases |b|
  {
    if b == [] then 0.0 else Worth(b[0], DisplayUnits[i]) + WeightedFrom(b[1..], i + 1)
  }

  /** The counts for the display units from position `i` on, for the `rest` seconds
      the larger units left over. Each count is strictly rounded and taken off; all
      but the seconds are clamped at zero. Together they reconstruct `rest` to
      within the last rounding step. */
  function CountsFrom(rest: real, i: nat): (b: seq<int>)
    requires i < |DisplayUnits|
    ensures |b| == |DisplayUnits| - i
    ensures forall k | 0 <= k < |b| - 1 :: b[k] >= 0
    ensures rest - 0.8 <= WeightedFrom(b, i) < rest + 0.2
    decreases |DisplayUnits| - i
  {
    if i == |DisplayUnits| - 1 then [StrictRound(rest)]
    else
      var tail := CountsFrom(Left(rest, DisplayUnits[i]), i + 1);
      assert ([Level(rest, DisplayUnits[i])] + tail)[1..] == tail;
      [Level(rest, DisplayUnits[i])] + tail
  }

  function Level(rest: real, u: Unit): nat {
    Max0(StrictRound(InUnits(rest, u)))
  }

  function Left(rest: real, u: Unit): real {
    rest - Worth(Level(rest, u), u)
  }

  /** The counts of years, months, days, hours, minutes and seconds that
      `timestring` computes from the magnitude. */
  function Breakdown(magnitude: real): (b: seq<int>)
    ensures |b| == 6
    ensures forall i | 0 <= i < 5 :: b[i] >= 0
    ensures magnitude - 0.8 <= WeightedFrom(b, 0) < magnitude + 0.2
  {
    CountsFrom(magnitude, 0)
  }

  /** Length of the leading run of zero counts. */
  function LeadingZeros(b: seq<int>): (n: nat)
    ensures n <= |b|
    ensures forall i | 0 <= i < n :: b[i] == 0
    ensures n == |b| || b[n] != 0
    decreases |b|
  {
    if b != [] && b[0] == 0 then 1 + LeadingZeros(b[1..]) else 0
  }

  /** One rendered entry: a count of the unit at a position of `DisplayUnits`. */
  datatype Segment = Segment(rank: nat, unit: Unit, count: nat)

  /** The positive counts among positions `lo` to `hi`, in order. */
  function KeepPositive(b: seq<int>, lo: nat, hi: nat): (r: seq<Segment>)
    requires lo <= hi <= |b|
    requires hi <= |DisplayUnits|
    ensures |r| <= hi - lo
    ensures forall i | 0 <= i < |r| ::
      lo <= r[i].rank < hi && r[i].unit == DisplayUnits[r[i].rank] && r[i].count > 0 && r[i].count == b[r[i].rank]
    ensures forall i, j | 0 <= i < j < |r| :: r[i].rank < r[j].rank
    decreases hi - lo
  {
    if lo == hi then []
    else if b[lo] > 0 then [Segment(lo, DisplayUnits[lo], b[lo])] + KeepPositive(b, lo + 1, hi)
    else KeepPositive(b, lo + 1, hi)
  }

  /** Every positive count in the range is kept. */
  lemma KeepPositiveComplete(b: seq<int>, lo: nat, hi: nat, j: nat)
    requires lo <= j < hi <= |b| && hi <= |DisplayUnits| && b[j] > 0
    ensures exists i | 0 <= i < |KeepPositive(b, lo, hi)| :: KeepPositive(b, lo, hi)[i].rank == j
  {
    var i := KeepPositiveIndex(b, lo, hi, j);
  }

  /** Where a positive count sits among the kept segments. */
  lemma {:induction false} KeepPositiveIndex(b: seq<int>, lo: nat, hi: nat, j: nat) returns (i: nat)
    requires lo <= j < hi <= |b| && hi <= |DisplayUnits| && b[j] > 0
    ensures i < |KeepPositive(b, lo, hi)| && KeepPositive(b, lo, hi)[i].rank == j
    decreases hi - lo
  {
    var r := KeepPositive(b, lo, hi);
    if j == lo {
      i := 0;
      assert r[0].rank == j;
    } else {
      var k := KeepPositiveIndex(b, lo + 1, hi, j);
      var rest := KeepPositive(b, lo + 1, hi);
      if b[lo] > 0 {
        var seg := Segment(lo, DisplayUnits[lo], b[lo]);
        assert r == [seg] + rest;
        ConsKeepsRank(seg, rest, k, j);
        i := k + 1;
      } else {
        assert r == rest;
        i := k;
      }
    }
  }

  /** Putting a segment in front shifts every later one by one place. */
  lemma ConsKeepsRank(seg: Segment, rest: seq<Segment>, i: nat, j: nat)
    requires i < |rest| && rest[i].rank == j
    ensures ([seg] + rest)[i + 1].rank == j
  {
  }

  function Min(a: int, b: int): int {
    if a < b then a else b
  }

  /** The segments `timestring` prints for the counts `b`: the leading zeros are
      dropped, at most `maxunits` of the remaining counts are considered, and only
      positive ones are kept. A position is shown exactly when it lies in that
      window and its count is positive. */
  function Shown(b: seq<int>, maxunits: nat): (r: seq<Segment>)
    requires |b| == |DisplayUnits|
    ensures |r| <= maxunits
    ensures forall i | 0 <= i < |r| ::
      r[i].rank < 6 && r[i].unit == DisplayUnits[r[i].rank] && r[i].count > 0 && r[i].count == b[r[i].rank]
    ensures forall i, j | 0 <= i < j < |r| :: r[i].rank < r[j].rank
    ensures forall j | 0 <= j < 6 ::
      (exists i | 0 <= i < |r| :: r[i].rank == j)
      <==> (LeadingZeros(b) <= j < LeadingZeros(b) + maxunits && b[j] > 0)
  {
    var start := LeadingZeros(b);
    var hi := Min(start + maxunits, 6);
    var r := KeepPositive(b, start, hi);
    assert forall j | start <= j < hi && b[j] > 0 :: exists i | 0 <= i < |r| :: r[i].rank == j by {
      forall j | start <= j < hi && b[j] > 0
        ensures exists i | 0 <= i < |r| :: r[i].rank == j
      {
        KeepPositiveComplete(b, start, hi, j);
      }
    }
    r
  }

  /** `_pluralstr`. */
  function Plural(unit: string, n: nat): string {
    if n == 1 then "1 " + unit else NatToString(n) + " " + unit + "s"
  }

  function SegmentText(g: Segment): string {
    Plural(Name(g.unit), g.count)
  }

  /** The printed segments, in order. */
  function Texts(gs: seq<Segment>): (ts: seq<string>)
    ensures |ts| == |gs|
    ensures forall i | 0 <= i < |gs| :: ts[i] == SegmentText(gs[i])
  {
    if gs == [] then [] else [SegmentText(gs[0])] + Texts(gs[1..])
  }

  /** `", ".join(ts)`. */
  function CommaJoin(ts: seq<string>): string
    decreases |ts|
  {
    if ts == [] then "" else if |ts| == 1 then ts[0] else CommaJoin(ts[..|ts| - 1]) + ", " + ts[|ts| - 1]
  }

  /** "a", "a and b", "a, b and c". */
  function Join(ts: seq<string>): string {
    if ts == [] then ""
    else if |ts| == 1 then ts[0]
    else CommaJoin(ts[..|ts| - 1]) + " and " + ts[|ts| - 1]
  }

  function Abs(x: real): (r: real)
    ensures r >= 0.0 && (r == x || r == -x)
  {
    if x < 0.0 then -x else x
  }

  /** `ChronykDelta.timestring(maxunits)`: fails only for `maxunits < 1`, and then
      prints the shown segments of the magnitude. */
  function Render(d: Delta, maxunits: int): (r: Result<string>)
    ensures r.Err? <==> maxunits < 1
    ensures r.Err? ==> r.fault == ValueError
    ensures r.Ok? ==> r.value == Join(Texts(Shown(Breakdown(Abs(d.seconds)), maxunits)))
  {
    if maxunits < 1 then Err(ValueError)
    else Ok(Join(Texts(Shown(Breakdown(Abs(d.seconds)), maxunits))))
  }

  /** Only the magnitude of a duration shows: durations of opposite sign render alike. */
  lemma RenderIgnoresSign(d: Delta, e: Delta, maxunits: int)
    requires e.seconds == -d.seconds
    ensures Render(d, maxunits) == Render(e, maxunits)
  {
    assert Abs(d.seconds) == Abs(e.seconds);
  }

  /** At most four fifths of a second, nothing is printed: every count rounds to zero. */
  lemma RenderBelowOneSecond(d: Delta, maxunits: int)
    requires maxunits >= 1 && Abs(d.seconds) <= 0.8
    ensures Render(d, maxunits) == Ok("")
  {
    var m := Abs(d.seconds);
    BelowOneSecondCounts(m, 0);
    ShownNone(Breakdown(m), maxunits);
  }

  /** With every count zero, no segment is shown. */
  lemma ShownNone(b: seq<int>, maxunits: nat)
    requires b == Zeros(|DisplayUnits|)
    ensures Shown(b, maxunits) == []
  {
    assert LeadingZeros(b) == 6 by {
      assert b == [0, 0, 0, 0, 0, 0];
    }
  }

  lemma {:induction false} BelowOneSecondCounts(rest: real, i: nat)
    requires 0.0 <= rest <= 0.8 && i < |DisplayUnits|
    ensures CountsFrom(rest, i) == Zeros(|DisplayUnits| - i)
    decreases |DisplayUnits| - i
  {
    if i < |DisplayUnits| - 1 {
      InUnitsMonotone(rest, i, |DisplayUnits| - 1);
      CountsSkip(rest, i);
      BelowOneSecondCounts(rest, i + 1);
      ZerosCons(|DisplayUnits| - i - 1);
    } else {
      StrictRoundUnique(rest, 0);
    }
  }

  /** A count printed by `_pluralstr` is the phrase the parser reads. */
  lemma PluralIsPhrase(n: nat, u: Unit)
    ensures Plural(Name(u), n) == Phrase(n, u, if n == 1 then "" else "s")
  {
    if n == 1 {
      assert NatToString(1) == "1";
    }
  }

  /** A count printed by `_pluralstr` parses back to that count of the unit. */
  lemma PluralParsesBack(n: nat, u: Unit, t: string)
    requires t == Plural(Name(u), n)
    ensures Parse(t).seconds == Worth(n, u)
  {
    PluralIsPhrase(n, u);
    PhraseParsesBack(t, n, u, if n == 1 then "" else "s");
  }

  lemma PhraseParsesBack(t: string, n: nat, u: Unit, suffix: string)
    requires suffix == "" || suffix == "s"
    requires t == Phrase(n, u, suffix)
    ensures Parse(t).seconds == Worth(n, u)
  {
    ParsePhrase(n, u, suffix);
  }

  /** With one unit, a non-empty rendering is a single phrase that parses back to
      the shown count of the shown unit. */
  lemma RenderOneUnitParsesBack(d: Delta, t: string)
    requires Render(d, 1) == Ok(t) && t != ""
    ensures |Shown(Breakdown(Abs(d.seconds)), 1)| == 1
    ensures var g := Shown(Breakdown(Abs(d.seconds)), 1)[0];
      Parse(t).seconds == Worth(g.count, g.unit)
  {
    var gs := Shown(Breakdown(Abs(d.seconds)), 1);
    assert |gs| == 1;
    var g := gs[0];
    assert t == Plural(Name(g.unit), g.count) by {
      assert gs == [g];
    }
    PluralParsesBack(g.count, g.unit, t);
  }

  // ---------------------------------------------------------------------------
  // The zero-dropping loop as written

  /** Lines 803-807 pop the first key of the OrderedDict inside the `for` loop that
      iterates over it; on CPython 3.5 and later the next iteration step raises
      RuntimeError. The pop happens exactly when the year count is zero. */
  function RenderAsWritten(d: Delta, maxunits: int): (r: Result<string>)
    ensures r.Ok? ==> Breakdown(Abs(d.seconds))[0] > 0
  {
    if maxunits < 1 then Err(ValueError)
    else if Breakdown(Abs(d.seconds))[0] == 0 then Err(RuntimeError)
    else Render(d, maxunits)
  }

  /** The loop as written agrees with the corrected rendering exactly when the
      duration reaches at least one (strictly rounded) year; below that it fails. */
  lemma RenderAsWrittenAgreement(d: Delta, maxunits: int)
    requires maxunits >= 1
    ensures RenderAsWritten(d, maxunits) == Render(d, maxunits) <==> Breakdown(Abs(d.seconds))[0] > 0
    ensures Breakdown(Abs(d.seconds))[0] == 0 ==> RenderAsWritten(d, maxunits) == Err(RuntimeError)
  {
  }

  /** The year count is zero exactly for magnitudes of at most 292 days: a year
      is 365 days, and four fifths of it round down. */
  lemma YearCountZeroWithin292Days(m: real)
    requires m >= 0.0
    ensures Breakdown(m)[0] == 0 <==> m <= 292.0 * 86400.0
  {
  }

  /** `n` zero counts. */
  function Zeros(n: nat): (z: seq<int>)
    ensures |z| == n && forall k | 0 <= k < n :: z[k] == 0
  {
    seq(n, k => 0)
  }

  lemma ZerosCons(n: nat)
    ensures [0] + Zeros(n) == Zeros(n + 1)
  {
  }

  /** Larger display units come first. */
  lemma InUnitsMonotone(rest: real, k: nat, l: nat)
    requires 0.0 <= rest && k <= l < |DisplayUnits|
    ensures 0.0 <= InUnits(rest, DisplayUnits[k]) <= InUnits(rest, DisplayUnits[l])
  {
  }

  /** A unit of which `rest` is at most 0.8 gets a zero count and takes nothing off. */
  lemma LevelBelow(rest: real, u: Unit)
    requires 0.0 <= rest && InUnits(rest, u) <= 0.8
    ensures Level(rest, u) == 0 && Left(rest, u) == rest
  {
    assert 0.0 <= InUnits(rest, u) by {
      match u
      case Second =>
      case Minute =>
      case Hour =>
      case Day =>
      case Week =>
      case Month =>
      case Year =>
    }
    StrictRoundUnique(InUnits(rest, u), 0);
  }

  /** A whole number of a unit is counted as itself and leaves nothing. */
  lemma LevelWhole(h: nat, u: Unit)
    ensures Level(Worth(h, u), u) == h && Left(Worth(h, u), u) == 0.0
  {
    WorthIsProduct(h, u);
    StrictRoundUnique(h as real, h);
  }

  lemma CountsSkip(rest: real, i: nat)
    requires i < |DisplayUnits| - 1 && 0.0 <= rest && InUnits(rest, DisplayUnits[i]) <= 0.8
    ensures CountsFrom(rest, i) == [0] + CountsFrom(rest, i + 1)
  {
    LevelBelow(rest, DisplayUnits[i]);
    CountsStep(rest, i);
  }

  /** One level of the breakdown: count `c` of the unit at position `i`, and `next`
      seconds left for the smaller units. */
  lemma CountsStep(rest: real, i: nat)
    requires i < |DisplayUnits| - 1
    ensures CountsFrom(rest, i) == [Level(rest, DisplayUnits[i])] + CountsFrom(Left(rest, DisplayUnits[i]), i + 1)
  {
  }

  lemma ZeroCounts(i: nat)
    requires i < |DisplayUnits|
    ensures CountsFrom(0.0, i) == Zeros(|DisplayUnits| - i)
  {
    BelowOneSecondCounts(0.0, i);
  }

  /** A whole number of the unit at position `i` is counted there and leaves nothing. */
  lemma CountsWhole(h: nat, i: nat)
    requires i < |DisplayUnits|
    ensures CountsFrom(Worth(h, DisplayUnits[i]), i) == [h] + Zeros(|DisplayUnits| - 1 - i)
  {
    if i < |DisplayUnits| - 1 {
      LevelWhole(h, DisplayUnits[i]);
      CountsStep(Worth(h, DisplayUnits[i]), i);
      ZeroCounts(i + 1);
    } else {
      StrictRoundUnique(Worth(h, DisplayUnits[i]), h);
    }
  }

  /** Units above `i` whose share of `rest` stays at most 0.8 all get zero counts. */
  lemma {:induction false} CountsAbove(rest: real, j: nat, i: nat)
    requires j <= i < |DisplayUnits| && 0.0 <= rest
    requires i == 0 || InUnits(rest, DisplayUnits[i - 1]) <= 0.8
    ensures CountsFrom(rest, j) == Zeros(i - j) + CountsFrom(rest, i)
    decreases i - j
  {
    if j < i {
      InUnitsMonotone(rest, j, i - 1);
      CountsSkip(rest, j);
      CountsAbove(rest, j + 1, i);
      ZerosCons(i - j - 1);
    }
  }

  lemma WorthNonNegative(h: nat, u: Unit)
    ensures Worth(h, u) >= 0.0
  {
  }

  /** `h` whole units of the display unit at position `i`, too few to round up to
      the next larger unit, break down into that one count. */
  lemma BreakdownWhole(rest: real, h: nat, i: nat)
    requires i < |DisplayUnits| && rest == Worth(h, DisplayUnits[i])
    requires i == 0 || InUnits(rest, DisplayUnits[i - 1]) <= 0.8
    ensures Breakdown(rest) == Zeros(i) + ([h] + Zeros(|DisplayUnits| - 1 - i))
  {
    WorthNonNegative(h, DisplayUnits[i]);
    CountsAbove(rest, 0, i);
    CountsWhole(h, i);
  }

  /** The only positive count is shown, whatever the unit limit. */
  lemma ShownSingle(b: seq<int>, i: nat, h: nat, maxunits: nat)
    requires |b| == |DisplayUnits| && i < |b| && h >= 1 && maxunits >= 1
    requires b == Zeros(i) + ([h] + Zeros(|DisplayUnits| - 1 - i))
    ensures Shown(b, maxunits) == [Segment(i, DisplayUnits[i], h)]
  {
    var r := Shown(b, maxunits);
    assert b[i] == h;
    assert LeadingZeros(b) == i by {
      assert forall k | 0 <= k < i :: b[k] == 0;
    }
    assert exists k | 0 <= k < |r| :: r[k].rank == i;
    forall k | 0 <= k < |r|
      ensures r[k].rank == i
    {
      assert b[r[k].rank] > 0;
    }
    RanksSpread(r);
  }

  /** Strictly ascending ranks spread at least one apart. */
  lemma {:induction false} RanksSpread(r: seq<Segment>)
    requires |r| >= 1
    requires forall a, c | 0 <= a < c < |r| :: r[a].rank < r[c].rank
    ensures r[|r| - 1].rank >= r[0].rank + |r| - 1
    decreases |r|
  {
    if |r| > 1 {
      RanksSpread(r[..|r| - 1]);
      assert r[|r| - 2].rank < r[|r| - 1].rank;
    }
  }

  /** A duration of `h` whole display units (below the rounding threshold of the
      next larger unit) renders as that one phrase. */
  lemma RenderWhole(d: Delta, i: nat, h: nat, maxunits: int)
    requires i < |DisplayUnits| && h >= 1 && maxunits >= 1
    requires Abs(d.seconds) == Worth(h, DisplayUnits[i])
    requires i == 0 || InUnits(Abs(d.seconds), DisplayUnits[i - 1]) <= 0.8
    ensures Render(d, maxunits) == Ok(Plural(Name(DisplayUnits[i]), h))
  {
    var m := Abs(d.seconds);
    BreakdownWhole(m, h, i);
    ShownSingle(Breakdown(m), i, h, maxunits);
    assert Texts([Segment(i, DisplayUnits[i], h)]) == [SegmentText(Segment(i, DisplayUnits[i], h))];
  }

  /** Reading a rendered whole count and rendering the result again gives back the
      same text. */
  lemma PluralRoundTrip(t: string, i: nat, h: nat, maxunits: int)
    requires i < |DisplayUnits| && h >= 1 && maxunits >= 1
    requires t == Plural(Name(DisplayUnits[i]), h)
    requires i == 0 || InUnits(Worth(h, DisplayUnits[i]), DisplayUnits[i - 1]) <= 0.8
    ensures Render(Parse(t), maxunits) == Ok(t)
  {
    PluralParsesBack(h, DisplayUnits[i], t);
    WorthNonNegative(h, DisplayUnits[i]);
    RenderWhole(Parse(t), i, h, maxunits);
  }

  /** Five hours break down into a single count of hours. */
  lemma FiveHoursBreakdown(m: real)
    requires m == 18000.0
    ensures Breakdown(m) == [0, 0, 0, 5, 0, 0]
  {
    FiveHoursWhole(m);
    BreakdownWhole(m, 5, 3);
    FiveHoursLayout();
  }

  lemma FiveHoursWhole(m: real)
    requires m == 18000.0
    ensures m == Worth(5, DisplayUnits[3]) && InUnits(m, DisplayUnits[2]) <= 0.8
  {
    assert DisplayUnits[3] == Hour && DisplayUnits[2] == Day;
  }

  lemma FiveHoursLayout()
    ensures Zeros(3) + ([5] + Zeros(|DisplayUnits| - 1 - 3)) == [0, 0, 0, 5, 0, 0]
  {
  }

  /** `ChronykDelta(18000).timestring()` is "5 hours"; the loop as written raises
      instead, since the year count is zero. */
  lemma OrderedDictCounterexample(d: Delta)
    requires d.seconds == 18000.0
    ensures Render(d, 3) == Ok("5 hours")
    ensures RenderAsWritten(d, 3) == Err(RuntimeError)
  {
    FiveHoursRender(d);
    FiveHoursBreakdown(Abs(d.seconds));
  }

  lemma FiveHoursRender(d: Delta)
    requires Abs(d.seconds) == 18000.0
    ensures Render(d, 3) == Ok("5 hours")
  {
    assert Abs(d.seconds) == Worth(5, DisplayUnits[3]);
    assert InUnits(Abs(d.seconds), DisplayUnits[2]) <= 0.8;
    RenderWhole(d, 3, 5, 3);
    FiveHoursText();
  }

  lemma FiveHoursText()
    ensures Plural(Name(DisplayUnits[3]), 5) == "5 hours"
  {
    assert NatToString(5) == "5";
    assert DisplayUnits[3] == Hour;
  }

  // ---------------------------------------------------------------------------
  // Two shown units: "1 day and 12 hours"

  /** Whole units on top of a remainder add to the remainder's share. */
  lemma InUnitsSplit(h: nat, u: Unit, w: real)
    ensures InUnits(Worth(h, u) + w, u) == h as real + InUnits(w, u)
  {
    match u
    case Second =>
    case Minute =>
    case Hour =>
    case Day =>
    case Week =>
    case Month =>
    case Year =>
  }

  /** `h` whole units over a remainder that does not round up to one more are
      counted as `h`, and the remainder is what is left. */
  lemma LevelPair(m: real, h: nat, u: Unit, w: real)
    requires m == Worth(h, u) + w && 0.0 <= w && InUnits(w, u) <= 0.8
    ensures Level(m, u) == h && Left(m, u) == w
  {
    InUnitsSplit(h, u, w);
    LevelBelow(w, u);
    StrictRoundUnique(InUnits(m, u), h);
  }

  /** Whole counts of two display units `i < j`, where neither the total rounds up
      to the unit above `i` nor the smaller part to the unit above `j`, break down
      into exactly those two counts. */
  lemma BreakdownPair(m: real, h1: nat, i: nat, h2: nat, j: nat)
    requires i < j < |DisplayUnits|
    requires m == Worth(h1, DisplayUnits[i]) + Worth(h2, DisplayUnits[j])
    requires i == 0 || InUnits(m, DisplayUnits[i - 1]) <= 0.8
    requires InUnits(Worth(h2, DisplayUnits[j]), DisplayUnits[j - 1]) <= 0.8
    ensures Breakdown(m) == Zeros(i) + ([h1] + (Zeros(j - i - 1) + ([h2] + Zeros(|DisplayUnits| - 1 - j))))
  {
    WorthNonNegative(h1, DisplayUnits[i]);
    WorthNonNegative(h2, DisplayUnits[j]);
    CountsAbove(m, 0, i);
    CountsHead(m, h1, i, h2, j);
    CountsTail(h2, i, j);
  }

  /** The count at `i` is `h1`, and the rest is left to the smaller units. */
  lemma CountsHead(m: real, h1: nat, i: nat, h2: nat, j: nat)
    requires i < j < |DisplayUnits|
    requires m == Worth(h1, DisplayUnits[i]) + Worth(h2, DisplayUnits[j])
    requires InUnits(Worth(h2, DisplayUnits[j]), DisplayUnits[j - 1]) <= 0.8
    ensures CountsFrom(m, i) == [h1] + CountsFrom(Worth(h2, DisplayUnits[j]), i + 1)
  {
    var w := Worth(h2, DisplayUnits[j]);
    WorthNonNegative(h2, DisplayUnits[j]);
    InUnitsMonotone(w, i, j - 1);
    LevelPair(m, h1, DisplayUnits[i], w);
    CountsStep(m, i);
  }

  /** Below `i`, a whole count of the unit at `j` that does not round up is
      counted at `j` alone. */
  lemma CountsTail(h2: nat, i: nat, j: nat)
    requires i < j < |DisplayUnits|
    requires InUnits(Worth(h2, DisplayUnits[j]), DisplayUnits[j - 1]) <= 0.8
    ensures CountsFrom(Worth(h2, DisplayUnits[j]), i + 1)
      == Zeros(j - i - 1) + ([h2] + Zeros(|DisplayUnits| - 1 - j))
  {
    WorthNonNegative(h2, DisplayUnits[j]);
    CountsWhole(h2, j);
    CountsBelow(Worth(h2, DisplayUnits[j]), i, j, [h2] + Zeros(|DisplayUnits| - 1 - j));
  }

  lemma CountsBelow(rest: real, i: nat, j: nat, tail: seq<int>)
    requires i < j < |DisplayUnits| && 0.0 <= rest
    requires InUnits(rest, DisplayUnits[j - 1]) <= 0.8 && CountsFrom(rest, j) == tail
    ensures CountsFrom(rest, i + 1) == Zeros(j - i - 1) + tail
  {
    CountsAbove(rest, i + 1, j);
  }

  /** With two positive counts at `i < j`, both are shown when the unit limit
      reaches from `i` to `j`, and only the first otherwise. */
  lemma ShownPair(b: seq<int>, i: nat, h1: nat, j: nat, h2: nat, maxunits: nat)
    requires i < j < |DisplayUnits| && h1 >= 1 && h2 >= 1 && maxunits >= 1
    requires b == Zeros(i) + ([h1] + (Zeros(j - i - 1) + ([h2] + Zeros(|DisplayUnits| - 1 - j))))
    ensures maxunits > j - i ==>
      Shown(b, maxunits) == [Segment(i, DisplayUnits[i], h1), Segment(j, DisplayUnits[j], h2)]
    ensures maxunits <= j - i ==> Shown(b, maxunits) == [Segment(i, DisplayUnits[i], h1)]
  {
    TwoCountsLayout(b, i, h1, j, h2);
    ShownTwo(b, i, j, maxunits);
  }

  lemma TwoCountsLayout(b: seq<int>, i: nat, h1: nat, j: nat, h2: nat)
    requires i < j < |DisplayUnits| && h1 >= 1 && h2 >= 1
    requires b == Zeros(i) + ([h1] + (Zeros(j - i - 1) + ([h2] + Zeros(|DisplayUnits| - 1 - j))))
    ensures |b| == |DisplayUnits| && b[i] == h1 && b[j] == h2
    ensures forall k | 0 <= k < |b| && k != i && k != j :: b[k] == 0
    ensures LeadingZeros(b) == i
  {
    assert forall k | 0 <= k < i :: b[k] == 0;
  }

  /** Counts positive at `i < j` only, with `i` the first: the window of
      `maxunits` from `i` shows `j` exactly when it reaches it. */
  lemma ShownTwo(b: seq<int>, i: nat, j: nat, maxunits: nat)
    requires |b| == |DisplayUnits| && i < j < |b| && maxunits >= 1 && b[i] > 0 && b[j] > 0
    requires forall k | 0 <= k < |b| && k != i && k != j :: b[k] == 0
    requires LeadingZeros(b) == i
    ensures maxunits > j - i ==>
      Shown(b, maxunits) == [Segment(i, DisplayUnits[i], b[i]), Segment(j, DisplayUnits[j], b[j])]
    ensures maxunits <= j - i ==> Shown(b, maxunits) == [Segment(i, DisplayUnits[i], b[i])]
  {
    var r := Shown(b, maxunits);
    ShownRanks(b, i, j, maxunits);
    if maxunits > j - i {
      var ki :| 0 <= ki < |r| && r[ki].rank == i;
      var kj :| 0 <= kj < |r| && r[kj].rank == j;
      assert ki != kj;
    } else {
      assert exists k | 0 <= k < |r| :: r[k].rank == i;
      assert forall k | 0 <= k < |r| :: r[k].rank != j;
    }
  }

  /** Shown ranks are `i` or `j`, at most two and in that order. */
  lemma ShownRanks(b: seq<int>, i: nat, j: nat, maxunits: nat)
    requires |b| == |DisplayUnits| && i < j < |b| && b[i] > 0 && b[j] > 0
    requires forall k | 0 <= k < |b| && k != i && k != j :: b[k] == 0
    ensures var r := Shown(b, maxunits);
      && |r| <= 2 && (|r| == 2 ==> r[0].rank == i && r[1].rank == j)
      && forall k | 0 <= k < |r| :: r[k].rank == i || r[k].rank == j
  {
    var r := Shown(b, maxunits);
    forall k | 0 <= k < |r|
      ensures r[k].rank == i || r[k].rank == j
    {
      assert b[r[k].rank] > 0;
    }
    RanksWithin(r, i, j);
  }

  /** Strictly ascending ranks drawn from `{i, j}`: at most two, in that order. */
  lemma RanksWithin(r: seq<Segment>, i: nat, j: nat)
    requires i < j
    requires forall k | 0 <= k < |r| :: r[k].rank == i || r[k].rank == j
    requires forall a, c | 0 <= a < c < |r| :: r[a].rank < r[c].rank
    ensures |r| <= 2
    ensures |r| == 2 ==> r[0].rank == i && r[1].rank == j
  {
    AscendingStart(r);
  }

  lemma AscendingStart(r: seq<Segment>)
    requires forall a, c | 0 <= a < c < |r| :: r[a].rank < r[c].rank
    ensures |r| >= 2 ==> r[0].rank < r[1].rank
    ensures |r| >= 3 ==> r[1].rank < r[2].rank
  {
  }

  /** Such a duration renders as "<first> and <second>", or as the first phrase
      alone when the unit limit does not reach the second. */
  lemma RenderPair(d: Delta, i: nat, h1: nat, j: nat, h2: nat, maxunits: int)
    requires i < j < |DisplayUnits| && h1 >= 1 && h2 >= 1 && maxunits >= 1
    requires Abs(d.seconds) == Worth(h1, DisplayUnits[i]) + Worth(h2, DisplayUnits[j])
    requires i == 0 || InUnits(Abs(d.seconds), DisplayUnits[i - 1]) <= 0.8
    requires InUnits(Worth(h2, DisplayUnits[j]), DisplayUnits[j - 1]) <= 0.8
    ensures maxunits > j - i ==>
      Render(d, maxunits) == Ok(Plural(Name(DisplayUnits[i]), h1) + " and " + Plural(Name(DisplayUnits[j]), h2))
    ensures maxunits <= j - i ==> Render(d, maxunits) == Ok(Plural(Name(DisplayUnits[i]), h1))
  {
    var m := Abs(d.seconds);
    var g1, g2 := Segment(i, DisplayUnits[i], h1), Segment(j, DisplayUnits[j], h2);
    BreakdownPair(m, h1, i, h2, j);
    ShownPair(Breakdown(m), i, h1, j, h2, maxunits);
    JoinedTexts(g1, g2);
  }

  /** One segment prints alone; two are joined by " and ". */
  lemma JoinedTexts(g1: Segment, g2: Segment)
    ensures Join(Texts([g1])) == SegmentText(g1)
    ensures Join(Texts([g1, g2])) == SegmentText(g1) + " and " + SegmentText(g2)
  {
    assert Texts([g1]) == [SegmentText(g1)];
    assert Texts([g1, g2]) == [SegmentText(g1), SegmentText(g2)];
    assert [SegmentText(g1), SegmentText(g2)][..1] == [SegmentText(g1)];
  }

  /** " and " holds no digit and no line break. */
  lemma AndIsPlain()
    ensures PlainSeparator(" and ")
  {
  }

  /** The display units are distinct. */
  lemma DisplayUnitsDistinct(i: nat, j: nat)
    requires i < j < |DisplayUnits|
    ensures DisplayUnits[i] != DisplayUnits[j]
  {
  }

  /** Reading two rendered counts and rendering the result again gives back the
      same text. */
  lemma PairRoundTrip(t: string, i: nat, h1: nat, j: nat, h2: nat, maxunits: int)
    requires i < j < |DisplayUnits| && h1 >= 1 && h2 >= 1 && maxunits > j - i
    requires t == Plural(Name(DisplayUnits[i]), h1) + " and " + Plural(Name(DisplayUnits[j]), h2)
    requires i == 0 || InUnits(Worth(h1, DisplayUnits[i]) + Worth(h2, DisplayUnits[j]), DisplayUnits[i - 1]) <= 0.8
    requires InUnits(Worth(h2, DisplayUnits[j]), DisplayUnits[j - 1]) <= 0.8
    ensures Render(Parse(t), maxunits) == Ok(t)
  {
    ParsePairText(t, i, h1, j, h2);
    RenderPairText(Parse(t), t, i, h1, j, h2, maxunits);
  }

  lemma RenderPairText(d: Delta, t: string, i: nat, h1: nat, j: nat, h2: nat, maxunits: int)
    requires i < j < |DisplayUnits| && h1 >= 1 && h2 >= 1 && maxunits > j - i
    requires t == Plural(Name(DisplayUnits[i]), h1) + " and " + Plural(Name(DisplayUnits[j]), h2)
    requires d.seconds == Worth(h1, DisplayUnits[i]) + Worth(h2, DisplayUnits[j])
    requires i == 0 || InUnits(d.seconds, DisplayUnits[i - 1]) <= 0.8
    requires InUnits(Worth(h2, DisplayUnits[j]), DisplayUnits[j - 1]) <= 0.8
    ensures Render(d, maxunits) == Ok(t)
  {
    WorthNonNegative(h1, DisplayUnits[i]);
    WorthNonNegative(h2, DisplayUnits[j]);
    RenderPair(d, i, h1, j, h2, maxunits);
  }

  /** Two rendered counts joined by " and " parse to the sum of their worths. */
  lemma ParsePairText(t: string, i: nat, h1: nat, j: nat, h2: nat)
    requires i < j < |DisplayUnits|
    requires t == Plural(Name(DisplayUnits[i]), h1) + " and " + Plural(Name(DisplayUnits[j]), h2)
    ensures Parse(t).seconds == Worth(h1, DisplayUnits[i]) + Worth(h2, DisplayUnits[j])
  {
    var u1, u2 := DisplayUnits[i], DisplayUnits[j];
    var s1, s2 := if h1 == 1 then "" else "s", if h2 == 1 then "" else "s";
    PluralIsPhrase(h1, u1);
    PluralIsPhrase(h2, u2);
    AndIsPlain();
    DisplayUnitsDistinct(i, j);
    assert t == Pair(h1, u1, s1, " and ", h2, u2, s2);
    ParsePair(h1, u1, s1, " and ", h2, u2, s2);
  }

  /** "1 day and 12 hours" is 129600 seconds; it renders back to itself with the
      default limit of three units, and as "1 day" with a limit of one. */
  lemma DayAndTwelveHours(t: string)
    requires t == "1 day and 12 hours"
    ensures Parse(t).seconds == 129600.0
    ensures Render(Parse(t), 3) == Ok(t)
    ensures Render(Parse(t), 1) == Ok("1 day")
  {
    DayAndTwelveHoursText(t);
    DayAndTwelveHoursFits();
    PairRoundTrip(t, 2, 1, 3, 12, 3);
    ParsePair(1, Day, "", " and ", 12, Hour, "s");
    assert Parse(t).seconds == 129600.0;
    RenderPair(Parse(t), 2, 1, 3, 12, 1);
  }

  lemma DayAndTwelveHoursText(t: string)
    requires t == "1 day and 12 hours"
    ensures t == Plural(Name(DisplayUnits[2]), 1) + " and " + Plural(Name(DisplayUnits[3]), 12)
    ensures t == Pair(1, Day, "", " and ", 12, Hour, "s")
    ensures Plural(Name(DisplayUnits[2]), 1) == "1 day"
  {
    OneDayText();
    TwelveHoursText();
  }

  lemma OneDayText()
    ensures Plural(Name(DisplayUnits[2]), 1) == "1 day" == Phrase(1, Day, "")
  {
    assert NatToString(1) == "1";
  }

  lemma TwelveHoursText()
    ensures Plural(Name(DisplayUnits[3]), 12) == "12 hours" == Phrase(12, Hour, "s")
  {
    assert NatToString(12) == "12" by {
      assert NatToString(1) == "1";
      assert NatToString(2) == "2";
    }
  }

  lemma DayAndTwelveHoursFits()
    ensures Worth(1, DisplayUnits[2]) + Worth(12, DisplayUnits[3]) == 129600.0
    ensures InUnits(129600.0, DisplayUnits[1]) <= 0.8
    ensures InUnits(Worth(12, DisplayUnits[3]), DisplayUnits[2]) <= 0.8
    ensures PlainSeparator(" and ")
  {
  }

  // ---------------------------------------------------------------------------
  // Arithmetic and comparisons on raw seconds

  /** The right operand of an operator: another duration or a plain number. */
  datatype Operand = OfDelta(delta: Delta) | OfNumber(number: real) {
    function Value(): real {
      match this
      case OfDelta(e) => e.seconds
      case OfNumber(x) => x
    }
  }

  function Plus(d: Delta, o: Operand): (r: Delta)
    ensures r.seconds - o.Value() == d.seconds
  {
    Delta(d.seconds + o.Value())
  }

  function Minus(d: Delta, o: Operand): (r: Delta)
    ensures r.seconds + o.Value() == d.seconds
  {
    Delta(d.seconds - o.Value())
  }

  function Times(d: Delta, k: real): (r: Delta)
    ensures k != 0.0 ==> r.seconds / k == d.seconds
    ensures k == 0.0 ==> r.seconds == 0.0
  {
    Delta(d.seconds * k)
  }

  /** `__truediv__`; Python raises ZeroDivisionError for a zero divisor. */
  function Divide(d: Delta, k: real): (r: Result<Delta>)
    ensures r.Err? <==> k == 0.0
    ensures r.Err? ==> r.fault == ZeroDivisionError
    ensures r.Ok? ==> r.value.seconds * k == d.seconds
  {
    if k == 0.0 then Err(ZeroDivisionError) else Ok(Delta(d.seconds / k))
  }

  /** `int(x)`: truncation toward zero. */
  function Truncate(x: real): (n: int)
    ensures 0.0 <= x ==> 0 <= n && n as real <= x < n as real + 1.0
    ensures x < 0.0 ==> n <= 0 && n as real - 1.0 < x <= n as real
  {
    if x >= 0.0 then x.Floor else -((-x).Floor)
  }

  /** `__floordiv__` returns `int(self / other)`: the quotient truncated toward
      zero, as a plain integer. */
  function FloorDivide(d: Delta, k: real): (r: Result<int>)
    ensures r.Err? <==> k == 0.0
    ensures r.Ok? ==> Abs(r.value as real) <= Abs(d.seconds / k) < Abs(r.value as real) + 1.0
    ensures r.Ok? && r.value != 0 ==> (r.value > 0 <==> d.seconds / k > 0.0)
    ensures r.Err? ==> r.fault == ZeroDivisionError
  {
    var q :- Divide(d, k);
    Ok(Truncate(q.seconds))
  }

  predicate Equal(d: Delta, o: Operand) {
    d.seconds == o.Value()
  }

  /** `__ne__` is `not __eq__`. */
  predicate NotEqual(d: Delta, o: Operand) {
    !Equal(d, o)
  }

  predicate Greater(d: Delta, o: Operand) {
    d.seconds > o.Value()
  }

  predicate Less(d: Delta, o: Operand) {
    d.seconds < o.Value()
  }

  /** `__le__` is `not __gt__`. */
  predicate AtMost(d: Delta, o: Operand) {
    !Greater(d, o)
  }

  /** `__ge__` is `not __lt__`. */
  predicate AtLeast(d: Delta, o: Operand) {
    !Less(d, o)
  }

  /** A duration read from "<n> <unit>" compares with a plain number as its
      `n * Length(u)` seconds: `ChronykDelta("1 hour") == 3600`. */
  lemma PhraseComparesBySeconds(n: nat, u: Unit, suffix: string, x: real)
    requires suffix == "" || suffix == "s"
    ensures Make(Words(Phrase(n, u, suffix))).Ok?
    ensures var d := Make(Words(Phrase(n, u, suffix))).value;
      && (Equal(d, OfNumber(x)) <==> x == (n * Length(u)) as real)
      && (Less(d, OfNumber(x)) <==> (n * Length(u)) as real < x)
      && (AtMost(d, OfNumber(x)) <==> (n * Length(u)) as real <= x)
      && (AtLeast(d, OfNumber(x)) <==> x <= (n * Length(u)) as real)
  {
    ParsePhrase(n, u, suffix);
    WorthIsProduct(n, u);
    ToRealMul(n, Length(u));
  }

  /** "<n> weeks" and "<7n> days" are equal durations, and neither is less than
      the other. */
  lemma WeeksEqualDays(n: nat, s1: string, s2: string)
    requires (s1 == "" || s1 == "s") && (s2 == "" || s2 == "s")
    ensures Make(Words(Phrase(n, Week, s1))).Ok? && Make(Words(Phrase(7 * n, Day, s2))).Ok?
    ensures var w, d := Make(Words(Phrase(n, Week, s1))).value, Make(Words(Phrase(7 * n, Day, s2))).value;
      Equal(w, OfDelta(d)) && !Less(w, OfDelta(d)) && !Greater(w, OfDelta(d))
  {
    PhraseMakes(Phrase(n, Week, s1), n, Week, s1);
    PhraseMakes(Phrase(7 * n, Day, s2), 7 * n, Day, s2);
    WeekInDays(n);
  }

  lemma PhraseMakes(t: string, n: nat, u: Unit, suffix: string)
    requires suffix == "" || suffix == "s"
    requires t == Phrase(n, u, suffix)
    ensures Make(Words(t)) == Ok(Delta(Worth(n, u)))
  {
    PhraseParsesBack(t, n, u, suffix);
  }

  lemma WeekInDays(n: nat)
    ensures Worth(7 * n, Day) == Worth(n, Week)
  {
    assert (7 * n) as real == 7.0 * n as real;
  }
}
