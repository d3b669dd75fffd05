/**
 * String helpers with the meaning the Python built-ins give them:
 * whitespace, str.strip(), str.lower(), the `in` test on strings,
 * str(int), int(str) and ",".join / str.split(",").
 * Only the ASCII range is modelled.
 */
module Text {
  import opened Wrappers

  predicate IsDigit(c: char) { '0' <= c <= '9' }

  /** The characters below 128 that Python counts as whitespace (str.isspace, `\s` in `re`). */
  predicate IsSpace(c: char) { c == ' ' || '\t' <= c <= '\r' || '\U{1C}' <= c <= '\U{1F}' }

  predicate AllDigits(s: string) { forall k :: 0 <= k < |s| ==> IsDigit(s[k]) }

  predicate StartsWith(s: string, prefix: string) { |prefix| <= |s| && s[..|prefix|] == prefix }

  predicate EndsWith(s: string, suffix: string) { |suffix| <= |s| && s[|s| - |suffix|..] == suffix }

  // ---------- digit runs ----------

  /** The end of the run of digits that starts at `j` (`j` itself when `s[j]` is not a digit). */
  function DigitRunEnd(s: string, j: nat): (k: nat)
    requires j <= |s|
    ensures j <= k <= |s|
    ensures forall m :: j <= m < k ==> IsDigit(s[m])
    ensures k == |s| || !IsDigit(s[k])
    decreases |s| - j
  {
    if j < |s| && IsDigit(s[j]) then DigitRunEnd(s, j + 1) else j
  }

  /** A run of digits from j that stops at a non-digit at k ends at k. */
  lemma DigitRunEndAt(s: string, j: nat, k: nat)
    requires j <= k <= |s|
    requires forall m :: j <= m < k ==> IsDigit(s[m])
    requires k == |s| || !IsDigit(s[k])
    ensures DigitRunEnd(s, j) == k
  {
  }

  /** The end of the run of whitespace that starts at `j`. */
  function SpaceRunEnd(s: string, j: nat): (k: nat)
    requires j <= |s|
    ensures j <= k <= |s|
    ensures forall m :: j <= m < k ==> IsSpace(s[m])
    ensures k == |s| || !IsSpace(s[k])
    decreases |s| - j
  {
    if j < |s| && IsSpace(s[j]) then SpaceRunEnd(s, j + 1) else j
  }

  // ---------- strip and lower ----------

  function LeadingSpaces(s: string): (n: nat)
    ensures n <= |s|
    ensures forall k :: 0 <= k < n ==> IsSpace(s[k])
    ensures n == |s| || !IsSpace(s[n])
  {
    SpaceRunEnd(s, 0)
  }

  function TrailingSpaces(s: string): (n: nat)
    ensures n <= |s|
    ensures forall k :: |s| - n <= k < |s| ==> IsSpace(s[k])
    ensures n == |s| || !IsSpace(s[|s| - 1 - n])
    decreases |s|
  {
    if |s| > 0 && IsSpace(s[|s| - 1]) then 1 + TrailingSpaces(s[..|s| - 1]) else 0
  }

  /** str.strip(): drops the whitespace at both ends and keeps the rest as it is. */
  function Strip(s: string): (r: string)
    ensures LeadingSpaces(s) + |r| <= |s|
    ensures r == [] || (!IsSpace(r[0]) && !IsSpace(r[|r| - 1]))
    ensures r == s[LeadingSpaces(s)..LeadingSpaces(s) + |r|]
    ensures forall k :: LeadingSpaces(s) + |r| <= k < |s| ==> IsSpace(s[k])
  {
    var t := s[LeadingSpaces(s)..];
    assert forall k :: |t| - TrailingSpaces(t) <= k < |t| ==> t[k] == s[LeadingSpaces(s) + k];
    t[..|t| - TrailingSpaces(t)]
  }

  /** A string with no whitespace at either end is left alone by Strip. */
  lemma StripKeeps(s: string)
    requires s == [] || (!IsSpace(s[0]) && !IsSpace(s[|s| - 1]))
    ensures Strip(s) == s
  {
    assert LeadingSpaces(s) == 0;
    assert s[0..] == s;
    if s != [] {
      assert TrailingSpaces(s) == 0;
    }
  }

  /** strip() removes exactly the whitespace padding around a string that has none at its ends. */
  lemma StripPadded(w1: string, x: string, w2: string)
    requires forall k :: 0 <= k < |w1| ==> IsSpace(w1[k])
    requires forall k :: 0 <= k < |w2| ==> IsSpace(w2[k])
    requires |x| > 0 && !IsSpace(x[0]) && !IsSpace(x[|x| - 1])
    ensures Strip(w1 + x + w2) == x
  {
    var s := w1 + x + w2;
    var n := LeadingSpaces(s);
    assert s[|w1|] == x[0];
    assert forall k :: 0 <= k < |w1| ==> s[k] == w1[k];
    assert n == |w1|;
    var r := Strip(s);
    assert s[|w1| + |x| - 1] == x[|x| - 1];
    assert |r| == |x|;
    assert s[|w1|..|w1| + |x|] == x;
  }

  function LowerChar(c: char): char
  {
    if 'A' <= c <= 'Z' then (c as int + ('a' as int - 'A' as int)) as char else c
  }

  /** str.lower() on the ASCII letters; every other character is kept. */
  function Lower(s: string): (r: string)
    ensures |r| == |s|
    ensures forall k :: 0 <= k < |s| ==> r[k] == LowerChar(s[k])
  {
    seq(|s|, k requires 0 <= k < |s| => LowerChar(s[k]))
  }

  // ---------- substring test ----------

  predicate OccursAt(s: string, sub: string, i: nat)
  {
    i + |sub| <= |s| && s[i..i + |sub|] == sub
  }

  /** `sub in s` for Python strings. */
  predicate Contains(s: string, sub: string)
  {
    exists i :: 0 <= i <= |s| - |sub| && OccursAt(s, sub, i)
  }

  // ---------- decimal conversions ----------

  function DigitValue(c: char): nat
    requires IsDigit(c)
  {
    c as int - '0' as int
  }

  function DigitChar(d: nat): (c: char)
    requires d < 10
    ensures IsDigit(c) && DigitValue(c) == d
  {
    ('0' as int + d) as char
  }

  /** The value of a run of decimal digits; leading zeros are allowed, as int() allows them. */
  function DigitsValue(s: string): nat
    requires AllDigits(s)
  {
    if s == [] then 0 else DigitsValue(s[..|s| - 1]) * 10 + DigitValue(s[|s| - 1])
  }

  /** str(n) for a non-negative n. */
  function NatToString(n: nat): (s: string)
    ensures |s| > 0 && AllDigits(s)
  {
    if n < 10 then [DigitChar(n)] else NatToString(n / 10) + [DigitChar(n % 10)]
  }

  /** str(k) for any integer k. */
  function IntToString(k: int): (s: string)
    ensures |s| > 0 && !IsSpace(s[0]) && !IsSpace(s[|s| - 1])
  {
    if k < 0 then "-" + NatToString(-k) else NatToString(k)
  }

  lemma {:induction false} NatToStringValue(n: nat)
    ensures DigitsValue(NatToString(n)) == n
  {
    var s := NatToString(n);
    if n >= 10 {
      assert s[..|s| - 1] == NatToString(n / 10);
      NatToStringValue(n / 10);
    }
  }

  /** The digits of a Python integer literal body: digits, with single underscores between digits. */
  predicate IsDigitGroups(s: string)
  {
    |s| > 0 && IsDigit(s[0]) && IsDigit(s[|s| - 1]) &&
    (forall k :: 0 <= k < |s| ==> IsDigit(s[k]) || s[k] == '_') &&
    (forall k :: 0 <= k < |s| - 1 && s[k] == '_' ==> s[k + 1] != '_')
  }

  /** The digits of `s` with the underscores taken out. */
  function DropUnderscores(s: string): (r: string)
    requires forall k :: 0 <= k < |s| ==> IsDigit(s[k]) || s[k] == '_'
    ensures AllDigits(r) && |r| <= |s|
    ensures AllDigits(s) ==> r == s
  {
    if s == [] then []
    else if s[0] == '_' then DropUnderscores(s[1..])
    else [s[0]] + DropUnderscores(s[1..])
  }

  /**
   * int(s) on an already stripped string: an optional sign followed by digit groups.
   * None stands for the ValueError int() raises.
   */
  function ParseInt(s: string): (r: Option<int>)
    ensures r.Some? ==> |s| > 0
  {
    if |s| > 0 && (s[0] == '-' || s[0] == '+') then
      var body := s[1..];
      if IsDigitGroups(body) then
        var n: int := DigitsValue(DropUnderscores(body));
        Some(if s[0] == '-' then -n else n)
      else None
    else if IsDigitGroups(s) then Some(DigitsValue(DropUnderscores(s)))
    else None
  }

  /**
   * A character int() cannot accept at position k of a stripped string:
   * not a digit, not an underscore, and not a sign in front.
   */
  predicate StrayChar(s: string, k: nat)
  {
    k < |s| && !IsDigit(s[k]) && s[k] != '_' && (k > 0 || (s[k] != '-' && s[k] != '+'))
  }

  /** int() rejects the empty string and any string with a stray character. */
  lemma ParseIntRejects(s: string)
    ensures s == [] ==> ParseInt(s) == None
    ensures (exists k: nat :: StrayChar(s, k)) ==> ParseInt(s) == None
  {
    if exists k: nat :: StrayChar(s, k) {
      var k: nat :| StrayChar(s, k);
      if s[0] == '-' || s[0] == '+' {
        assert s[1..][k - 1] == s[k];
      }
    }
  }

  /** str(n) is a run of digits that int() reads back as n. */
  lemma ParseNatToString(n: nat)
    ensures ParseInt(NatToString(n)) == Some(n)
  {
    var s := NatToString(n);
    assert IsDigit(s[0]);
    assert IsDigitGroups(s);
    NatToStringValue(n);
  }

  /** "-" followed by str(n) is read back as -n. */
  lemma ParseNegatedNatToString(n: nat)
    ensures ParseInt("-" + NatToString(n)) == Some(-(n as int))
  {
    var digits := NatToString(n);
    var s := "-" + digits;
    assert s[0] == '-' && s[1..] == digits;
    assert IsDigit(digits[0]);
    assert IsDigitGroups(digits);
    NatToStringValue(n);
  }

  /** int(str(k)) == k, even after the strip() done in between. */
  lemma ParseIntToString(k: int)
    ensures Strip(IntToString(k)) == IntToString(k)
    ensures ParseInt(IntToString(k)) == Some(k)
  {
    StripKeeps(IntToString(k));
    if k < 0 {
      ParseNegatedNatToString(-k);
    } else {
      ParseNatToString(k);
    }
  }

  /** Distinct integers print differently. */
  lemma IntToStringInjective(a: int, b: int)
    requires IntToString(a) == IntToString(b)
    ensures a == b
  {
    ParseIntToString(a);
    ParseIntToString(b);
  }

  // ---------- join and split on commas ----------

  /** ",".join(xs) */
  function Join(xs: seq<string>): (r: string)
    ensures |xs| == 1 ==> r == xs[0]
  {
    if xs == [] then ""
    else if |xs| == 1 then xs[0]
    else xs[0] + "," + Join(xs[1..])
  }

  /** The index of the first comma in `s`, or |s| when there is none. */
  function CommaIndex(s: string): (i: nat)
    ensures i <= |s|
    ensures forall k :: 0 <= k < i ==> s[k] != ','
    ensures i < |s| ==> s[i] == ','
  {
    if s == [] then 0 else if s[0] == ',' then 0 else 1 + CommaIndex(s[1..])
  }

  /** s.split(",") */
  function Split(s: string): (r: seq<string>)
    ensures |r| > 0
    decreases |s|
  {
    var i := CommaIndex(s);
    if i == |s| then [s] else [s[..i]] + Split(s[i + 1..])
  }

  lemma {:induction false} CommaIndexAfter(a: string, b: string)
    requires forall k :: 0 <= k < |a| ==> a[k] != ','
    ensures CommaIndex(a + "," + b) == |a|
  {
    if a != [] {
      assert (a + "," + b)[1..] == a[1..] + "," + b;
      CommaIndexAfter(a[1..], b);
    }
  }

  /** Splitting a joined list gives the list back when no element holds a comma. */
  lemma {:induction false} SplitJoin(xs: seq<string>)
    requires |xs| > 0
    requires forall j, k :: 0 <= j < |xs| && 0 <= k < |xs[j]| ==> xs[j][k] != ','
    ensures Split(Join(xs)) == xs
  {
    if |xs| == 1 {
      assert CommaIndex(xs[0]) == |xs[0]|;
    } else {
      var s := Join(xs);
      assert s == xs[0] + "," + Join(xs[1..]);
      CommaIndexAfter(xs[0], Join(xs[1..]));
      assert s[..|xs[0]|] == xs[0];
      assert s[|xs[0]| + 1..] == Join(xs[1..]);
      SplitJoin(xs[1..]);
      assert xs == [xs[0]] + xs[1..];
    }
  }
}
