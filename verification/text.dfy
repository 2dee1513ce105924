/** Character and string helpers: decimal digits, substring search and the
    normalisation Python's `str` methods perform. */
module Text {

  predicate IsDigit(c: char) {
    '0' <= c <= '9'
  }

  predicate AllDigits(s: string) {
    forall i | 0 <= i < |s| :: IsDigit(s[i])
  }

  function DigitValue(c: char): nat
    requires IsDigit(c)
  {
    c as int - '0' as int
  }

  function DigitChar(n: nat): (c: char)
    requires n < 10
    ensures IsDigit(c) && DigitValue(c) == n
  {
    ('0' as int + n) as char
  }

  /** The value `int(ds)` gives for a non-empty run of ASCII digits. */
  function DecimalValue(ds: string): nat
    requires AllDigits(ds)
    decreases |ds|
  {
    if ds == [] then 0 else DecimalValue(ds[..|ds| - 1]) * 10 + DigitValue(ds[|ds| - 1])
  }

  /** `str(n)` for a non-negative integer. */
  function NatToString(n: nat): (s: string)
    ensures 1 <= |s| && AllDigits(s)
    ensures DecimalValue(s) == n
    ensures 1 < |s| ==> s[0] != '0'
    decreases n
  {
    if n < 10 then [DigitChar(n)]
    else
      var prefix := NatToString(n / 10);
      var s := prefix + [DigitChar(n % 10)];
      assert s[..|s| - 1] == prefix;
      s
  }

  /** `pat` occurs in `s` starting at index `i`. */
  predicate PrefixAt(pat: string, s: string, i: int) {
    0 <= i && i + |pat| <= |s| && s[i..i + |pat|] == pat
  }

  /** `s.find(pat) != -1`. */
  predicate Contains(s: string, pat: string) {
    exists i | 0 <= i <= |s| - |pat| :: PrefixAt(pat, s, i)
  }

  lemma ContainsWitness(s: string, pat: string, i: int)
    requires PrefixAt(pat, s, i)
    ensures Contains(s, pat)
  {
  }

  /** An occurrence stays an occurrence when text is appended, or prepended. */
  lemma PrefixAtExtend(pat: string, x: string, y: string, i: int)
    requires PrefixAt(pat, x, i)
    ensures PrefixAt(pat, x + y, i) && PrefixAt(pat, y + x, |y| + i)
  {
    assert (x + y)[i..i + |pat|] == x[i..i + |pat|];
    assert (y + x)[|y| + i..|y| + i + |pat|] == x[i..i + |pat|];
  }

  /** Occurrences in the outer parts of `x + sep + y` stay where they were. */
  lemma PrefixAtJoin(pat1: string, i1: int, pat2: string, i2: int, x: string, sep: string, y: string)
    requires PrefixAt(pat1, x, i1) && PrefixAt(pat2, y, i2)
    ensures PrefixAt(pat1, x + sep + y, i1) && PrefixAt(pat2, x + sep + y, |x| + |sep| + i2)
  {
    PrefixAtExtend(pat1, x, sep + y, i1);
    PrefixAtExtend(pat2, y, x + sep, i2);
    assert x + sep + y == x + (sep + y);
  }

  /** A text lacking one of the pattern's characters does not contain it. */
  lemma MissingChar(s: string, pat: string, j: int)
    requires 0 <= j < |pat| && forall i | 0 <= i < |s| :: s[i] != pat[j]
    ensures !Contains(s, pat)
  {
    forall i | 0 <= i <= |s| - |pat|
      ensures !PrefixAt(pat, s, i)
    {
      assert s[i + j] != pat[j];
    }
  }

  /** `str.lower` on the ASCII letters; other characters are left alone. */
  function LowerChar(c: char): char {
    if 'A' <= c <= 'Z' then (c as int + 32) as char else c
  }

  function Lower(s: string): (r: string)
    ensures |r| == |s|
    ensures forall i | 0 <= i < |s| :: r[i] == LowerChar(s[i])
    ensures forall i | 0 <= i < |r| :: !('A' <= r[i] <= 'Z')
  {
    seq(|s|, i requires 0 <= i < |s| => LowerChar(s[i]))
  }

  /** The characters `str.strip()` removes (`str.isspace`). */
  predicate IsSpace(c: char) {
    var n := c as int;
    || n == 32 || 9 <= n <= 13 || 28 <= n <= 31
    || n == 0x85 || n == 0xA0 || n == 0x1680 || 0x2000 <= n <= 0x200A
    || n == 0x2028 || n == 0x2029 || n == 0x202F || n == 0x205F || n == 0x3000
  }

  function TrimStart(s: string): (r: string)
    ensures |r| <= |s| && r == s[|s| - |r|..]
    ensures forall i | 0 <= i < |s| - |r| :: IsSpace(s[i])
    ensures r == [] || !IsSpace(r[0])
    decreases |s|
  {
    if s != [] && IsSpace(s[0]) then TrimStart(s[1..]) else s
  }

  function TrimEnd(s: string): (r: string)
    ensures |r| <= |s| && r == s[..|r|]
    ensures forall i | |r| <= i < |s| :: IsSpace(s[i])
    ensures r == [] || !IsSpace(r[|r| - 1])
    decreases |s|
  {
    if s != [] && IsSpace(s[|s| - 1]) then TrimEnd(s[..|s| - 1]) else s
  }

  /** `str.strip()`: the slice of `s` left after removing whitespace at both ends. */
  function Strip(s: string): (r: string)
    ensures exists i, j | 0 <= i <= j <= |s| :: r == s[i..j]
    ensures r == [] || (!IsSpace(r[0]) && !IsSpace(r[|r| - 1]))
    ensures (forall i | 0 <= i < |s| :: IsSpace(s[i])) <==> r == []
  {
    var t := TrimStart(s);
    var r := TrimEnd(t);
    assert r == s[|s| - |t|..|s| - |t| + |r|];
    r
  }

  /** `s.replace(". ", " ")`: occurrences are replaced left to right, without overlap. */
  function ReplaceDotSpace(s: string): (r: string)
    ensures |r| <= |s|
    decreases |s|
  {
    if |s| >= 2 && s[0] == '.' && s[1] == ' ' then " " + ReplaceDotSpace(s[2..])
    else if s == [] then []
    else [s[0]] + ReplaceDotSpace(s[1..])
  }

  /** The replacement only ever deletes full stops. */
  lemma {:induction false} ReplaceDotSpaceKeepsOtherChars(s: string, c: char)
    requires c != '.'
    ensures multiset(ReplaceDotSpace(s))[c] == multiset(s)[c]
    decreases |s|
  {
    if |s| >= 2 && s[0] == '.' && s[1] == ' ' {
      ReplaceDotSpaceKeepsOtherChars(s[2..], c);
      assert s == [s[0]] + [s[1]] + s[2..];
    } else if s != [] {
      ReplaceDotSpaceKeepsOtherChars(s[1..], c);
      assert s == [s[0]] + s[1..];
    }
  }

  /** A full stop followed by a space at index `i`. */
  predicate DotSpaceAt(s: string, i: int) {
    0 <= i && i + 1 < |s| && s[i] == '.' && s[i + 1] == ' '
  }

  lemma DotSpaceAtIsPrefixAt(s: string, i: int)
    ensures PrefixAt(". ", s, i) <==> DotSpaceAt(s, i)
  {
    if DotSpaceAt(s, i) {
      assert s[i..i + 2] == [s[i], s[i + 1]];
    }
  }

  /** Text without an occurrence of ". " is left unchanged. */
  lemma ReplaceDotSpaceIdentity(s: string)
    requires !Contains(s, ". ")
    ensures ReplaceDotSpace(s) == s
  {
    forall i | 0 <= i
      ensures !DotSpaceAt(s, i)
    {
      DotSpaceAtIsPrefixAt(s, i);
    }
    ReplaceDotSpaceIdentityByChars(s);
  }

  lemma {:induction false} ReplaceDotSpaceIdentityByChars(s: string)
    requires forall i | 0 <= i :: !DotSpaceAt(s, i)
    ensures ReplaceDotSpace(s) == s
    decreases |s|
  {
    if s != [] {
      assert !DotSpaceAt(s, 0);
      forall i | 0 <= i
        ensures !DotSpaceAt(s[1..], i)
      {
        assert !DotSpaceAt(s, i + 1);
      }
      ReplaceDotSpaceIdentityByChars(s[1..]);
    }
  }
}
