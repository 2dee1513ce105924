/** The pattern both parsers use to read the count in front of a unit name:
    `re.match(".*?([0-9]+?) " + unit, text)`, with group 1 converted by `int`. */
module UnitPattern {
  import opened Wrappers
  import opened Text

  /** The regex succeeds with `.*?` taking the first `p` characters and the lazy
      group taking the `k` characters after them. `.` does not match a newline. */
  predicate LazyMatch(s: string, unit: string, p: int, k: int) {
    && 0 <= p && 1 <= k && p + k <= |s|
    && (forall i | 0 <= i < p :: s[i] != '\n')
    && (forall i | p <= i < p + k :: IsDigit(s[i]))
    && PrefixAt(" " + unit, s, p + k)
  }

  /** The match a backtracking engine reports: lazy quantifiers try the shortest
      `p` first and, for that `p`, the shortest `k`. */
  ghost predicate FirstLazyMatch(s: string, unit: string, p: int, k: int) {
    && LazyMatch(s, unit, p, k)
    && forall p', k' | 0 <= p' <= p && (p' < p || k' < k) :: !LazyMatch(s, unit, p', k')
  }

  /** Every match starts on a digit. */
  lemma MatchesStartWithDigit(s: string, unit: string)
    ensures forall p, k | LazyMatch(s, unit, p, k) :: IsDigit(s[p])
  {
  }

  /** End of the run of digits that starts at `q`. */
  function DigitRunEnd(s: string, q: nat): (e: nat)
    requires q <= |s|
    ensures q <= e <= |s|
    ensures forall i | q <= i < e :: IsDigit(s[i])
    ensures e == |s| || !IsDigit(s[e])
    decreases |s| - q
  {
    if q < |s| && IsDigit(s[q]) then DigitRunEnd(s, q + 1) else q
  }

  /** A run of digits from `q` that stops before a non-digit ends there. */
  lemma {:induction false} DigitRunEndAt(s: string, q: nat, e: nat)
    requires q <= e <= |s|
    requires forall i | q <= i < e :: IsDigit(s[i])
    requires e == |s| || !IsDigit(s[e])
    ensures DigitRunEnd(s, q) == e
    decreases e - q
  {
    if q < e {
      DigitRunEndAt(s, q + 1, e);
    }
  }

  /** At a start position `p`, the group can only be the whole digit run. */
  lemma OnlyWholeRunMatches(s: string, unit: string, p: nat, k: int)
    requires p < |s| && LazyMatch(s, unit, p, k)
    ensures k == DigitRunEnd(s, p) - p
  {
    var e := DigitRunEnd(s, p);
    assert s[p + k] == s[p + k..p + k + |unit| + 1][0] == ' ';
  }

  /** Where the digit run at `p` is followed by the unit, the regex matches at `p`
      with the whole run, and with nothing else. */
  lemma MatchAt(s: string, unit: string, p: nat)
    requires p < |s| && IsDigit(s[p]) && PrefixAt(" " + unit, s, DigitRunEnd(s, p))
    requires forall i | 0 <= i < p :: s[i] != '\n'
    ensures LazyMatch(s, unit, p, DigitRunEnd(s, p) - p)
    ensures forall k' | LazyMatch(s, unit, p, k') :: k' == DigitRunEnd(s, p) - p
  {
    forall k' | LazyMatch(s, unit, p, k')
      ensures k' == DigitRunEnd(s, p) - p
    {
      OnlyWholeRunMatches(s, unit, p, k');
    }
  }

  /** Otherwise nothing matches at `p`. */
  lemma NoMatchAt(s: string, unit: string, p: nat)
    requires p < |s| && !(IsDigit(s[p]) && PrefixAt(" " + unit, s, DigitRunEnd(s, p)))
    ensures forall k' :: !LazyMatch(s, unit, p, k')
  {
    forall k' | LazyMatch(s, unit, p, k')
      ensures false
    {
      OnlyWholeRunMatches(s, unit, p, k');
    }
  }

  /** Scans start positions from `p` upwards, in the regex engine's order. */
  function MatchFrom(s: string, unit: string, p: nat): (r: Option<(nat, nat)>)
    requires p <= |s|
    requires forall i | 0 <= i < p :: s[i] != '\n'
    ensures r.Some? ==> p <= r.value.0 && LazyMatch(s, unit, r.value.0, r.value.1)
    ensures r.Some? ==>
      forall p', k' | p <= p' <= r.value.0 && (p' < r.value.0 || k' < r.value.1) :: !LazyMatch(s, unit, p', k')
    ensures r.None? ==> forall p', k' | p <= p' :: !LazyMatch(s, unit, p', k')
    decreases |s| - p
  {
    if p == |s| || s[p] == '\n' then None
    else if IsDigit(s[p]) && PrefixAt(" " + unit, s, DigitRunEnd(s, p)) then
      MatchAt(s, unit, p);
      Some((p, DigitRunEnd(s, p) - p))
    else
      NoMatchAt(s, unit, p);
      MatchFrom(s, unit, p + 1)
  }

  /** The count in front of `unit`: group 1 of the first match, or None when the
      regex does not match at all. */
  function LeadingCount(s: string, unit: string): (r: Option<nat>)
    ensures r.None? <==> forall p, k :: !LazyMatch(s, unit, p, k)
    ensures r.Some? ==>
      exists p, k :: FirstLazyMatch(s, unit, p, k) && r.value == DecimalValue(s[p..p + k])
  {
    match MatchFrom(s, unit, 0)
    case None => None
    case Some((p, k)) =>
      assert FirstLazyMatch(s, unit, p, k);
      Some(DecimalValue(s[p..p + k]))
  }

  /** Text that starts with a digit run followed by the unit is read from its start. */
  lemma LeadingCountAtStart(s: string, unit: string)
    requires s != [] && IsDigit(s[0]) && PrefixAt(" " + unit, s, DigitRunEnd(s, 0))
    ensures LeadingCount(s, unit) == Some(DecimalValue(s[..DigitRunEnd(s, 0)]))
  {
    MatchAt(s, unit, 0);
    assert MatchFrom(s, unit, 0) == Some((0, DigitRunEnd(s, 0)));
  }

  /** The first match is unique. */
  lemma FirstLazyMatchUnique(s: string, unit: string, p: int, k: int, p': int, k': int)
    requires FirstLazyMatch(s, unit, p, k) && FirstLazyMatch(s, unit, p', k')
    ensures p == p' && k == k'
  {
  }

  /** The count read is the leftmost digit run followed by the unit: the group starts
      where a run of digits starts and takes the whole run. */
  lemma {:induction false} FirstMatchIsLeftmostRun(s: string, unit: string, p: nat, k: int)
    requires FirstLazyMatch(s, unit, p, k)
    ensures p == 0 || !IsDigit(s[p - 1])
    ensures k == DigitRunEnd(s, p) - p
  {
    OnlyWholeRunMatches(s, unit, p, k);
    if p > 0 && IsDigit(s[p - 1]) {
      assert LazyMatch(s, unit, p - 1, k + 1);
      assert false;
    }
  }

  // ---------------------------------------------------------------------------
  // Texts with two counts

  /** A separator the pattern reads through: no digits and no line breaks. */
  predicate PlainSeparator(sep: string) {
    forall i | 0 <= i < |sep| :: !IsDigit(sep[i]) && sep[i] != '\n'
  }

  /** `x` opens with a run of `d` digits followed by a space and `name`, holds no
      other digit and no line break. */
  predicate CountFirst(x: string, d: int, name: string) {
    && 0 < d < |x|
    && (forall i | 0 <= i < |x| :: (IsDigit(x[i]) <==> i < d) && x[i] != '\n')
    && PrefixAt(" " + name, x, d)
  }

  /** `t` holds exactly two digit runs, `[0, d1)` and `[q, q + d2)`, each followed
      by a space and a unit name, and no line break. */
  predicate TwoRuns(t: string, d1: int, name1: string, q: int, d2: int, name2: string) {
    && 0 < d1 < q && 0 < d2 && q + d2 < |t|
    && (forall i | 0 <= i < |t| :: (IsDigit(t[i]) <==> i < d1 || q <= i < q + d2) && t[i] != '\n')
    && PrefixAt(" " + name1, t, d1) && PrefixAt(" " + name2, t, q + d2)
  }

  /** Lower-case letters only. */
  predicate Letters(w: string) {
    forall i | 0 <= i < |w| :: 'a' <= w[i] <= 'z'
  }

  /** "<digits> <name><suffix>" opens with its digits and holds no other. */
  lemma CountWords(ds: string, name: string, suffix: string)
    requires 0 < |ds| && AllDigits(ds) && Letters(name) && Letters(suffix)
    ensures CountFirst(ds + " " + name + suffix, |ds|, name)
    ensures (ds + " " + name + suffix)[0..|ds|] == ds
  {
    var x := ds + " " + name + suffix;
    forall i | 0 <= i < |x|
      ensures (IsDigit(x[i]) <==> i < |ds|) && x[i] != '\n'
    {
      if i < |ds| {
        assert x[i] == ds[i];
      } else if i == |ds| {
        assert x[i] == ' ';
      } else if i <= |ds| + |name| {
        assert x[i] == name[i - |ds| - 1];
      } else {
        assert x[i] == suffix[i - |ds| - 1 - |name|];
      }
    }
    assert x[|ds|..|ds| + 1 + |name|] == " " + name;
    assert x[0..|ds|] == ds;
  }

  /** Two such texts joined by a plain separator hold two counts. */
  lemma JoinTwoRuns(x: string, d1: int, name1: string, sep: string, y: string, d2: int, name2: string)
    requires CountFirst(x, d1, name1) && CountFirst(y, d2, name2) && PlainSeparator(sep)
    ensures var t, q := x + sep + y, |x| + |sep|;
      && TwoRuns(t, d1, name1, q, d2, name2)
      && t[0..d1] == x[0..d1] && t[q..q + d2] == y[0..d2]
  {
    var t, q := x + sep + y, |x| + |sep|;
    PrefixAtJoin(" " + name1, d1, " " + name2, d2, x, sep, y);
    forall i | 0 <= i < |t|
      ensures (IsDigit(t[i]) <==> i < d1 || q <= i < q + d2) && t[i] != '\n'
    {
      if i < |x| {
        assert t[i] == x[i];
      } else if i < q {
        assert t[i] == sep[i - |x|];
      } else {
        assert t[i] == y[i - q];
      }
    }
    assert t[0..d1] == x[0..d1];
    assert t[q..q + d2] == y[0..d2];
  }

  /** "<digits> <name><suffix><sep><digits> <name><suffix>" holds two counts. */
  lemma TwoCountWords(ds1: string, name1: string, suffix1: string, sep: string,
                      ds2: string, name2: string, suffix2: string)
    requires 0 < |ds1| && AllDigits(ds1) && Letters(name1) && Letters(suffix1)
    requires 0 < |ds2| && AllDigits(ds2) && Letters(name2) && Letters(suffix2)
    requires PlainSeparator(sep)
    ensures var x, y := ds1 + " " + name1 + suffix1, ds2 + " " + name2 + suffix2;
      var t, q := x + sep + y, |x| + |sep|;
      && TwoRuns(t, |ds1|, name1, q, |ds2|, name2)
      && t[0..|ds1|] == ds1 && t[q..q + |ds2|] == ds2
  {
    CountWords(ds1, name1, suffix1);
    CountWords(ds2, name2, suffix2);
    JoinTwoRuns(ds1 + " " + name1 + suffix1, |ds1|, name1, sep, ds2 + " " + name2 + suffix2, |ds2|, name2);
  }

  /** In a text with two counts, a match sits at one of the two runs and takes all
      of it. */
  lemma TwoRunsMatch(t: string, d1: int, name1: string, q: int, d2: int, name2: string, unit: string, p: int, k: int)
    requires TwoRuns(t, d1, name1, q, d2, name2) && LazyMatch(t, unit, p, k)
    ensures (p < d1 && p + k == d1) || (q <= p && p + k == q + d2)
    ensures PrefixAt(" " + unit, t, d1) || PrefixAt(" " + unit, t, q + d2)
  {
    assert IsDigit(t[p]);
    var e := if p < d1 then d1 else q + d2;
    DigitRunEndAt(t, p, e);
    OnlyWholeRunMatches(t, unit, p, k);
  }

  /** The first run is read from the start of the text. */
  lemma TwoRunsFirst(t: string, d1: int, name1: string, q: int, d2: int, name2: string)
    requires TwoRuns(t, d1, name1, q, d2, name2)
    ensures LeadingCount(t, name1) == Some(DecimalValue(t[0..d1]))
  {
    DigitRunEndAt(t, 0, d1);
    LeadingCountAtStart(t, name1);
    assert t[..d1] == t[0..d1];
  }

  /** The second run is read when nothing matches at the first one. */
  lemma TwoRunsSecond(t: string, d1: int, name1: string, q: int, d2: int, name2: string)
    requires TwoRuns(t, d1, name1, q, d2, name2)
    requires !PrefixAt(" " + name2, t, d1)
    ensures LeadingCount(t, name2) == Some(DecimalValue(t[q..q + d2]))
  {
    SecondRunFirstMatch(t, d1, name1, q, d2, name2);
    LeadingCountOfFirst(t, name2, q, d2);
  }

  /** There the first match is the whole second run. */
  lemma SecondRunFirstMatch(t: string, d1: int, name1: string, q: int, d2: int, name2: string)
    requires TwoRuns(t, d1, name1, q, d2, name2)
    requires !PrefixAt(" " + name2, t, d1)
    ensures FirstLazyMatch(t, name2, q, d2)
  {
    DigitRunEndAt(t, q, q + d2);
    MatchAt(t, name2, q);
    forall p', k' | 0 <= p' <= q && (p' < q || k' < d2)
      ensures !LazyMatch(t, name2, p', k')
    {
      if LazyMatch(t, name2, p', k') {
        TwoRunsMatch(t, d1, name1, q, d2, name2, name2, p', k');
      }
    }
  }

  /** The count read is the digits of the first match. */
  lemma LeadingCountOfFirst(s: string, unit: string, p: int, k: int)
    requires FirstLazyMatch(s, unit, p, k)
    ensures LeadingCount(s, unit) == Some(DecimalValue(s[p..p + k]))
  {
    assert LeadingCount(s, unit).Some?;
    var p', k' :| FirstLazyMatch(s, unit, p', k') && LeadingCount(s, unit).value == DecimalValue(s[p'..p' + k']);
    FirstLazyMatchUnique(s, unit, p, k, p', k');
  }

  /** A unit that follows neither run is not read at all. */
  lemma TwoRunsOther(t: string, d1: int, name1: string, q: int, d2: int, name2: string, unit: string)
    requires TwoRuns(t, d1, name1, q, d2, name2)
    requires !PrefixAt(" " + unit, t, d1) && !PrefixAt(" " + unit, t, q + d2)
    ensures LeadingCount(t, unit).None?
  {
    forall p, k
      ensures !LazyMatch(t, unit, p, k)
    {
      if LazyMatch(t, unit, p, k) {
        TwoRunsMatch(t, d1, name1, q, d2, name2, unit, p, k);
      }
    }
  }
}
