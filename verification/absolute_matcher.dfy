/** `Chronyk.__fromabsolute__`: the text is tried against an ordered list of
    `strptime` formats and the first one that parses wins. The host's `strptime`
    decides whether a format parses. */
module AbsoluteMatcher {
  import opened Wrappers
  import opened Text
  import opened Calendar
  import opened Environment

  /** The formats of lines 352-358, complete with time and zone. */
  function DateTimeFormatAt(i: int): string
  {
    if i == 0 then "%Y-%m-%dT%H:%M:%SZ"
    else if i == 1 then "%Y-%m-%dT%H:%M:%S%z"
    else if i == 2 then "%Y-%m-%dT%H:%M:%S%Z"
    else if i == 3 then "%c"
    else "%s"
  }

  function DateTimeFormats(): seq<string> {
    seq(5, i => DateTimeFormatAt(i))
  }

  /** The date formats of lines 359-421. */
  function DateFormatAt(i: int): string
  {
    if i == 0 then "%Y-%m-%d"
    else if i == 1 then "%Y%m%d"
    else if i == 2 then "%Y.%m.%d"
    else if i == 3 then "%m/%d/%Y"
    else if i == 4 then "%m/%d/%y"
    else if i == 5 then "%d %m %Y"
    else if i == 6 then "%d-%m-%Y"
    else if i == 7 then "%d/%m/%Y"
    else if i == 8 then "%d/%m %Y"
    else if i == 9 then "%d.%m.%Y"
    else if i == 10 then "%d. %m. %Y"
    else if i == 11 then "%d %b %Y"
    else if i == 12 then "%d %B %Y"
    else if i == 13 then "%d. %b %Y"
    else if i == 14 then "%d. %B %Y"
    else if i == 15 then "%b %d %Y"
    else if i == 16 then "%b %dst %Y"
    else if i == 17 then "%b %dnd %Y"
    else if i == 18 then "%b %drd %Y"
    else if i == 19 then "%b %dth %Y"
    else if i == 20 then "%b %d, %Y"
    else if i == 21 then "%b %dst, %Y"
    else if i == 22 then "%b %dnd, %Y"
    else if i == 23 then "%b %drd, %Y"
    else if i == 24 then "%b %dth, %Y"
    else if i == 25 then "%B %d %Y"
    else if i == 26 then "%B %dst %Y"
    else if i == 27 then "%B %dnd %Y"
    else if i == 28 then "%B %drd %Y"
    else if i == 29 then "%B %dth %Y"
    else if i == 30 then "%B %d, %Y"
    else if i == 31 then "%B %dst, %Y"
    else if i == 32 then "%B %dnd, %Y"
    else if i == 33 then "%B %drd, %Y"
    else if i == 34 then "%B %dth, %Y"
    else if i == 35 then "%d %m %y"
    else if i == 36 then "%d-%m-%y"
    else if i == 37 then "%d/%m/%y"
    else if i == 38 then "%d/%m-%y"
    else if i == 39 then "%d.%m.%y"
    else if i == 40 then "%d. %m. %y"
    else if i == 41 then "%d %b %y"
    else if i == 42 then "%d %B %y"
    else if i == 43 then "%d. %b %y"
    else if i == 44 then "%d. %B %y"
    else if i == 45 then "%b %dst %y"
    else if i == 46 then "%b %dnd %y"
    else if i == 47 then "%b %drd %y"
    else if i == 48 then "%b %dth %y"
    else if i == 49 then "%B %dst %y"
    else if i == 50 then "%B %dnd %y"
    else if i == 51 then "%B %drd %y"
    else "%B %dth %y"
  }

  function DateFormats(): seq<string> {
    seq(53, i => DateFormatAt(i))
  }

  /** The time formats of lines 422-437; the first two are the same format. */
  function TimeFormatAt(i: int): string
  {
    if i == 0 then "%H:%M:%S %z"
    else if i == 1 then "%H:%M:%S %z"
    else if i == 2 then "%H:%M:%S"
    else if i == 3 then "%H:%M %z"
    else if i == 4 then "%H:%M %Z"
    else if i == 5 then "%H:%M"
    else if i == 6 then "%I:%M:%S %p %z"
    else if i == 7 then "%I:%M:%S %p %Z"
    else if i == 8 then "%I:%M:%S %p"
    else if i == 9 then "%I:%M %p %z"
    else if i == 10 then "%I:%M %p %Z"
    else "%I:%M %p"
  }

  function TimeFormats(): seq<string> {
    seq(12, i => TimeFormatAt(i))
  }

  /** The candidates lines 441-444 append for one date format: each time format
      after it, then the date alone. */
  function Block(d: string, ts: seq<string>): (b: seq<string>)
    ensures |b| == |ts| + 1
    ensures forall k | 0 <= k < |ts| :: b[k] == d + " " + ts[k]
    ensures b[|ts|] == d
  {
    seq(|ts|, k requires 0 <= k < |ts| => d + " " + ts[k]) + [d]
  }

  function Combinations(ds: seq<string>, ts: seq<string>): (c: seq<string>)
    ensures |c| == (|ts| + 1) * |ds|
    decreases |ds|
  {
    if ds == [] then [] else Block(ds[0], ts) + Combinations(ds[1..], ts)
  }

  /** The candidate list built from the three tables, in the order it is tried. */
  function CandidateList(dts: seq<string>, ds: seq<string>, ts: seq<string>): seq<string> {
    dts + Combinations(ds, ts)
  }

  /** Where the block of date format `i` starts in the combinations. */
  function Offset(ts: seq<string>, i: nat): nat {
    if i == 0 then 0 else Offset(ts, i - 1) + |ts| + 1
  }

  /** Position `Offset(ts, i) + k` of the combinations holds entry `k` of the block
      of date format `i`. */
  lemma {:induction false} CombinationAt(ds: seq<string>, ts: seq<string>, i: nat, k: nat)
    requires i < |ds| && k <= |ts|
    ensures Offset(ts, i) + k < |Combinations(ds, ts)|
    ensures Combinations(ds, ts)[Offset(ts, i) + k] == Block(ds[i], ts)[k]
    decreases i
  {
    if i > 0 {
      CombinationAt(ds[1..], ts, i - 1, k);
      OffsetShift(ts, i);
      var b, rest := Block(ds[0], ts), Combinations(ds[1..], ts);
      assert Combinations(ds, ts) == b + rest;
      assert (b + rest)[|b| + (Offset(ts, i - 1) + k)] == rest[Offset(ts, i - 1) + k];
    }
  }

  lemma OffsetShift(ts: seq<string>, i: nat)
    requires i > 0
    ensures Offset(ts, i) == |ts| + 1 + Offset(ts, i - 1)
  {
  }

  /** Each block is one entry longer than the time formats. */
  lemma {:induction false} OffsetIsProduct(ts: seq<string>, i: nat)
    ensures Offset(ts, i) == (|ts| + 1) * i
  {
    if i > 0 {
      OffsetIsProduct(ts, i - 1);
    }
  }

  /** The candidate list: the date-time formats, then for each date format every
      time format after it and finally the date alone. */
  lemma CandidateAt(dts: seq<string>, ds: seq<string>, ts: seq<string>, i: nat, k: nat)
    requires i < |ds| && k <= |ts|
    ensures |dts| + Offset(ts, i) + k < |CandidateList(dts, ds, ts)|
    ensures CandidateList(dts, ds, ts)[|dts| + Offset(ts, i) + k]
      == if k < |ts| then ds[i] + " " + ts[k] else ds[i]
  {
    CombinationAt(ds, ts, i, k);
  }

  // ---------------------------------------------------------------------------
  // The first format that parses

  /** The first format from position `i` on that `strptime` accepts, with its
      index and the fields it read. */
  function FirstMatch(strptime: (string, string) -> Option<DateTime>, text: string, fmts: seq<string>, i: nat)
    : (r: Option<(nat, DateTime)>)
    requires i <= |fmts|
    ensures r.Some? ==> i <= r.value.0 < |fmts| && strptime(text, fmts[r.value.0]) == Some(r.value.1)
    ensures r.Some? ==> forall j | i <= j < r.value.0 :: strptime(text, fmts[j]).None?
    ensures r.None? <==> forall j | i <= j < |fmts| :: strptime(text, fmts[j]).None?
    decreases |fmts| - i
  {
    if i == |fmts| then None
    else match strptime(text, fmts[i])
      case Some(st) => Some((i, st))
      case None => FirstMatch(strptime, text, fmts, i + 1)
  }

  /** No format before position `j` reads the text. */
  predicate NoneBefore(strptime: (string, string) -> Option<DateTime>, text: string, fmts: seq<string>, j: nat)
    requires j <= |fmts|
  {
    forall j' | 0 <= j' < j :: strptime(text, fmts[j']).None?
  }

  /** A format that repeats an earlier one is never the first to match. */
  lemma RepeatNeverFirst(strptime: (string, string) -> Option<DateTime>, text: string, fmts: seq<string>, j: nat)
    requires 0 < j < |fmts| && fmts[j] == fmts[j - 1]
    ensures FirstMatch(strptime, text, fmts, 0).Some? ==> FirstMatch(strptime, text, fmts, 0).value.0 != j
  {
  }

  /** `"z" not in fmt.lower()`: only formats without a `z` or `Z` are read in the
      instance's offset. */
  predicate HasZone(fmt: string) {
    Contains(Lower(fmt), "z")
  }

  lemma HasZoneChars(fmt: string)
    ensures HasZone(fmt) <==> exists i | 0 <= i < |fmt| :: fmt[i] == 'z' || fmt[i] == 'Z'
  {
    var l := Lower(fmt);
    if HasZone(fmt) {
      var i :| 0 <= i <= |l| - 1 && PrefixAt("z", l, i);
      assert l[i..i + 1][0] == 'z';
    }
    if exists i | 0 <= i < |fmt| :: fmt[i] == 'z' || fmt[i] == 'Z' {
      var i :| 0 <= i < |fmt| && (fmt[i] == 'z' || fmt[i] == 'Z');
      assert l[i..i + 1] == "z";
      ContainsWitness(l, "z", i);
    }
  }

  /** A combined format carries a zone exactly when its date or its time format
      does. */
  lemma CombinedZone(d: string, t: string)
    ensures HasZone(d + " " + t) <==> HasZone(d) || HasZone(t)
  {
    var c := d + " " + t;
    HasZoneChars(c);
    HasZoneChars(d);
    HasZoneChars(t);
    forall j | 0 <= j < |d| ensures c[j] == d[j] { }
    forall j | 0 <= j < |t| ensures c[|d| + 1 + j] == t[j] { }
    forall j | 0 <= j < |c| && (c[j] == 'z' || c[j] == 'Z')
      ensures (j < |d| && (d[j] == 'z' || d[j] == 'Z'))
           || (|d| + 1 <= j && (t[j - |d| - 1] == 'z' || t[j - |d| - 1] == 'Z'))
    {
    }
  }

  /** The value a format's fields stand for: the host's `mktime`, plus the
      instance's offset when the format has no zone. A `%z` or `%Z` directive
      (or any other upper- or lower-case "z" in the format) counts as a zone. */
  function Stamp(h: Host, fmt: string, st: DateTime, tz: real): (v: real)
    ensures (exists i | 0 <= i < |fmt| :: fmt[i] == 'z' || fmt[i] == 'Z') ==> v == h.mktime(st)
    ensures (forall i | 0 <= i < |fmt| :: fmt[i] != 'z' && fmt[i] != 'Z') ==> v == h.mktime(st) + tz
  {
    HasZoneChars(fmt);
    if HasZone(fmt) then h.mktime(st) else h.mktime(st) + tz
  }

  /** The patterns of the time-only fallback: a date, then a time format. */
  function Dated(times: seq<string>): (fs: seq<string>)
    ensures |fs| == |times|
    ensures forall k | 0 <= k < |fs| :: fs[k] == "%Y-%m-%d " + times[k]
  {
    seq(|times|, k requires 0 <= k < |times| => "%Y-%m-%d " + times[k])
  }

  /** One of the two loops of lines 446-472: the first format of `fmts` that
      reads `text` decides, and its value carries the zone rule of the matching
      entry of `zones` (the format itself, or the bare time format of a
      time-only pattern). None when no format reads the text. */
  function FirstStamp(h: Host, text: string, fmts: seq<string>, zones: seq<string>, tz: real): (r: Option<real>)
    requires |zones| == |fmts|
    ensures forall j | 0 <= j < |fmts| && h.strptime(text, fmts[j]).Some? && NoneBefore(h.strptime, text, fmts, j) ::
              r == Some(Stamp(h, zones[j], h.strptime(text, fmts[j]).value, tz))
    ensures r.None? <==> NoneBefore(h.strptime, text, fmts, |fmts|)
  {
    match FirstMatch(h.strptime, text, fmts, 0)
    case Some((j, st)) => Some(Stamp(h, zones[j], st, tz))
    case None => None
  }

  /** The entries the lemmas below rely on. */
  lemma TableEntries()
    ensures |DateTimeFormats()| == 5 && |DateFormats()| == 53 && |TimeFormats()| == 12
    ensures DateTimeFormats()[0] == "%Y-%m-%dT%H:%M:%SZ"
    ensures DateFormats()[0] == "%Y-%m-%d"
    ensures TimeFormats()[0] == TimeFormats()[1] == "%H:%M:%S %z"
  {
    assert DateTimeFormats()[0] == DateTimeFormatAt(0);
    assert DateFormats()[0] == DateFormatAt(0);
    assert TimeFormats()[0] == TimeFormatAt(0);
    assert TimeFormats()[1] == TimeFormatAt(1);
  }

  /** The candidate list of lines 352-444. */
  function Candidates(): seq<string> {
    CandidateList(DateTimeFormats(), DateFormats(), TimeFormats())
  }

  /** `__fromabsolute__`: the candidate list, then the time formats against the
      text with the date `_strftime` captured when the module was loaded in front
      (the default argument of `_strftime` is evaluated once). */
  function Absolute(h: Host, text: string, tz: real): Option<real> {
    match FirstStamp(h, text, Candidates(), Candidates(), tz)
    case Some(v) => Some(v)
    case None => FirstStamp(h, h.loadDate + " " + text, Dated(TimeFormats()), TimeFormats(), tz)
  }

  /** The first candidate that reads the text decides. */
  lemma AbsoluteFromCandidate(h: Host, text: string, tz: real, j: nat)
    requires j < |Candidates()| && h.strptime(text, Candidates()[j]).Some?
    requires NoneBefore(h.strptime, text, Candidates(), j)
    ensures Absolute(h, text, tz) == Some(Stamp(h, Candidates()[j], h.strptime(text, Candidates()[j]).value, tz))
  {
  }

  /** When no candidate reads the text, the first time format that reads it behind
      the load date decides, with the zone rule of the time format. */
  lemma AbsoluteFromTime(h: Host, text: string, tz: real, k: nat)
    requires NoneBefore(h.strptime, text, Candidates(), |Candidates()|)
    requires k < |TimeFormats()| && h.strptime(h.loadDate + " " + text, Dated(TimeFormats())[k]).Some?
    requires NoneBefore(h.strptime, h.loadDate + " " + text, Dated(TimeFormats()), k)
    ensures Absolute(h, text, tz)
      == Some(Stamp(h, TimeFormats()[k], h.strptime(h.loadDate + " " + text, "%Y-%m-%d " + TimeFormats()[k]).value, tz))
  {
  }

  /** The text is not absolute exactly when no candidate and no time-only pattern
      reads it. */
  lemma AbsoluteNone(h: Host, text: string, tz: real)
    ensures Absolute(h, text, tz).None? <==>
      && NoneBefore(h.strptime, text, Candidates(), |Candidates()|)
      && NoneBefore(h.strptime, h.loadDate + " " + text, Dated(TimeFormats()), |TimeFormats()|)
  {
  }

  /** The first candidate, an ISO 8601 time in UTC, names its zone: its value is
      `mktime` of the fields, without the instance's offset. */
  lemma IsoUtcFirst(h: Host, text: string, tz: real)
    requires h.strptime(text, "%Y-%m-%dT%H:%M:%SZ").Some?
    ensures Absolute(h, text, tz) == Some(h.mktime(h.strptime(text, "%Y-%m-%dT%H:%M:%SZ").value))
  {
    TableEntries();
    assert Candidates()[0] == DateTimeFormats()[0];
    assert "%Y-%m-%dT%H:%M:%SZ"[17] == 'Z';
    HasZoneChars("%Y-%m-%dT%H:%M:%SZ");
    AbsoluteFromCandidate(h, text, tz, 0);
  }

  /** The bare ISO date, the first date format, follows its combinations with
      every time format. */
  lemma IsoDatePosition(j: nat)
    requires j == |DateTimeFormats()| + |TimeFormats()|
    ensures j < |Candidates()| && Candidates()[j] == DateFormats()[0]
  {
    TableEntries();
    CandidateAt(DateTimeFormats(), DateFormats(), TimeFormats(), 0, |TimeFormats()|);
  }

  /** The bare ISO date names no zone, so by `FirstWithoutZone` a date it reads
      is taken in the instance's offset. */
  lemma IsoDateNoZone()
    ensures !HasZone(DateFormats()[0])
  {
    TableEntries();
    HasZoneChars("%Y-%m-%d");
  }

  /** The first candidate that reads the text, when it names no zone, is taken
      in the instance's offset. */
  lemma FirstWithoutZone(h: Host, text: string, tz: real, j: nat, f: string)
    requires j < |Candidates()| && f == Candidates()[j] && !HasZone(f)
    requires h.strptime(text, f).Some? && NoneBefore(h.strptime, text, Candidates(), j)
    ensures Absolute(h, text, tz) == Some(h.mktime(h.strptime(text, f).value) + tz)
  {
    var st := h.strptime(text, f).value;
    AbsoluteFromCandidate(h, text, tz, j);
    assert Absolute(h, text, tz) == Some(Stamp(h, f, st, tz));
    StampWithoutZone(h, f, st, tz);
  }

  lemma StampWithoutZone(h: Host, f: string, st: DateTime, tz: real)
    requires !HasZone(f)
    ensures Stamp(h, f, st, tz) == h.mktime(st) + tz
  {
    HasZoneChars(f);
  }

  /** When a time format repeats the one before it, the combination with it never
      decides a text: the same combination was tried just before. */
  lemma RepeatedTimeFormatUnused(strptime: (string, string) -> Option<DateTime>, text: string,
                                 dts: seq<string>, ds: seq<string>, ts: seq<string>, i: nat, k: nat)
    requires i < |ds| && 0 < k < |ts| && ts[k] == ts[k - 1]
    ensures var m := FirstMatch(strptime, text, CandidateList(dts, ds, ts), 0);
      m.Some? ==> m.value.0 != |dts| + Offset(ts, i) + k
  {
    CandidateAt(dts, ds, ts, i, k - 1);
    CandidateAt(dts, ds, ts, i, k);
    RepeatNeverFirst(strptime, text, CandidateList(dts, ds, ts), |dts| + Offset(ts, i) + k);
  }

  /** In the tables above the second "%H:%M:%S %z" repeats the first, so its
      combination with any date format is never the one that matches. */
  lemma DuplicateTimeFormatUnused(strptime: (string, string) -> Option<DateTime>, text: string, i: nat)
    requires i < |DateFormats()|
    ensures var m := FirstMatch(strptime, text, Candidates(), 0);
      m.Some? ==> m.value.0 != 5 + 13 * i + 1
  {
    TableEntries();
    OffsetIsProduct(TimeFormats(), i);
    RepeatedTimeFormatUnused(strptime, text, DateTimeFormats(), DateFormats(), TimeFormats(), i, 1);
  }
}
