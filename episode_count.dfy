/**
 * Episode-count resolver: reads the labels of the episode dropdown
 * ("EPS 1 - 74", "Ep 1 - 24", ...) and returns the largest upper bound of
 * the first `(\d+)\s*-\s*(\d+)` match in each label.
 */
module Episodes {
  import opened Wrappers
  import opened Text
  import opened Search

  /**
   * Positions of one match of `(\d+)\s*-\s*(\d+)`: the first number is
   * t[start..lowEnd], then whitespace up to the dash at `dash`, then
   * whitespace up to the second number t[highStart..highEnd].
   */
  datatype RangeMatch = RangeMatch(start: nat, lowEnd: nat, dash: nat, highStart: nat, highEnd: nat)

  /** t[i..e] is in the language of the pattern, with its groups at the given positions. */
  predicate RangeShape(t: string, i: nat, a: nat, b: nat, c: nat, e: nat)
  {
    i < a <= b < c <= e <= |t| && c < e &&
    (forall k :: i <= k < a ==> IsDigit(t[k])) &&
    (forall k :: a <= k < b ==> IsSpace(t[k])) &&
    t[b] == '-' &&
    (forall k :: b + 1 <= k < c ==> IsSpace(t[k])) &&
    (forall k :: c <= k < e ==> IsDigit(t[k]))
  }

  /** The match Python's backtracking picks at a start: a shape whose second number is as long as possible. */
  predicate IsGreedyMatch(t: string, m: RangeMatch)
  {
    RangeShape(t, m.start, m.lowEnd, m.dash, m.highStart, m.highEnd) &&
    (m.highEnd == |t| || !IsDigit(t[m.highEnd]))
  }

  /** The match of the pattern that starts at position i, if any. */
  function RangeAt(t: string, i: nat): (m: Option<RangeMatch>)
    requires i <= |t|
    ensures m.Some? ==> m.value.start == i && IsGreedyMatch(t, m.value)
  {
    if i < |t| && IsDigit(t[i]) then
      var a := DigitRunEnd(t, i);
      var b := SpaceRunEnd(t, a);
      if b < |t| && t[b] == '-' then
        var c := SpaceRunEnd(t, b + 1);
        if c < |t| && IsDigit(t[c]) then Some(RangeMatch(i, a, b, c, DigitRunEnd(t, c)))
        else None
      else None
    else None
  }

  /** Any shape at i is found by RangeAt, with the same first three groups' positions. */
  lemma RangeAtComplete(t: string, i: nat, a: nat, b: nat, c: nat, e: nat)
    requires RangeShape(t, i, a, b, c, e)
    ensures RangeAt(t, i).Some?
    ensures RangeAt(t, i).value.highStart == c && RangeAt(t, i).value.highEnd >= e
  {
    assert !IsDigit(t[a]) && !IsSpace(t[b]) && !IsSpace(t[c]);
    assert DigitRunEnd(t, i) == a;
    assert SpaceRunEnd(t, a) == b;
    assert SpaceRunEnd(t, b + 1) == c;
    assert DigitRunEnd(t, c) >= e;
  }

  /** RangeAt at every start position, None past the end of the text. */
  function RangesIn(t: string): nat -> Option<RangeMatch>
  {
    (q: nat) => if q <= |t| then RangeAt(t, q) else None
  }

  /** re.search of the pattern: the match at the leftmost start where there is one. */
  function FirstRange(t: string): (m: Option<RangeMatch>)
    ensures m.Some? ==> m.value.start <= |t| && RangeAt(t, m.value.start) == m
  {
    match FirstFrom(RangesIn(t), 0, |t|)
    case Some(q) => RangeAt(t, q)
    case None => None
  }

  /** An occurrence of the pattern at q means re.search finds one starting at q or earlier. */
  lemma FirstRangeNoLater(t: string, q: nat, a: nat, b: nat, c: nat, e: nat)
    requires RangeShape(t, q, a, b, c, e)
    ensures FirstRange(t).Some? && FirstRange(t).value.start <= q
  {
    FirstFromIsFirst(RangesIn(t), 0, |t|);
    RangeAtComplete(t, q, a, b, c, e);
    assert RangesIn(t)(q).Some?;
  }

  /**
   * FirstRange is re.search of the pattern: it reports a greedy match at the
   * leftmost position where any match exists, and None when the pattern
   * occurs nowhere.
   */
  lemma FirstRangeIsLeftmost(t: string)
    ensures FirstRange(t).Some? ==> IsGreedyMatch(t, FirstRange(t).value)
    ensures FirstRange(t).Some? ==>
      forall q: nat, a: nat, b: nat, c: nat, e: nat :: q < FirstRange(t).value.start ==> !RangeShape(t, q, a, b, c, e)
    ensures FirstRange(t).None? ==> forall q: nat, a: nat, b: nat, c: nat, e: nat :: !RangeShape(t, q, a, b, c, e)
  {
    forall q: nat, a: nat, b: nat, c: nat, e: nat | RangeShape(t, q, a, b, c, e)
      ensures FirstRange(t).Some? && FirstRange(t).value.start <= q
    {
      FirstRangeNoLater(t, q, a, b, c, e);
    }
  }

  /** int(match.group(2)) for the first match in the stripped label, if there is one. */
  function UpperBound(optionText: string): Option<nat>
  {
    var t := Strip(optionText);
    match FirstRange(t)
    case Some(m) =>
      assert IsGreedyMatch(t, m);
      Some(DigitsValue(t[m.highStart..m.highEnd]))
    case None => None
  }

  /** The upper bound of each label, in order. */
  function Uppers(labels: seq<string>): (us: seq<Option<nat>>)
    ensures |us| == |labels|
    ensures forall i :: 0 <= i < |labels| ==> us[i] == UpperBound(labels[i])
  {
    seq(|labels|, i requires 0 <= i < |labels| => UpperBound(labels[i]))
  }

  /** The running maximum over the present values, starting from 0. */
  function MaxOf(us: seq<Option<nat>>): nat
  {
    if us == [] then 0
    else
      var rest := MaxOf(us[..|us| - 1]);
      match us[|us| - 1]
      case Some(u) => if u > rest then u else rest
      case None => rest
  }

  /**
   * The running maximum is the global maximum: no smaller than any present
   * value, and, when not 0, equal to one of them.
   */
  lemma {:induction false} MaxOfIsMaximum(us: seq<Option<nat>>)
    ensures forall i :: 0 <= i < |us| && us[i].Some? ==> us[i].value <= MaxOf(us)
    ensures MaxOf(us) != 0 ==> exists i :: 0 <= i < |us| && us[i] == Some(MaxOf(us))
  {
    if us != [] {
      var n := |us| - 1;
      var init := us[..n];
      MaxOfIsMaximum(init);
      assert forall i :: 0 <= i < n ==> us[i] == init[i];
      if MaxOf(us) != 0 && MaxOf(us) == MaxOf(init) {
        var i :| 0 <= i < |init| && init[i] == Some(MaxOf(init));
        assert us[i] == Some(MaxOf(us));
      }
    }
  }

  /**
   * The episode count for a dropdown read. `None` stands for a failed lookup
   * (the dropdown or one of its labels could not be read), which the source
   * turns into 0.
   */
  function EpisodeCount(dropdown: Option<seq<string>>): nat
  {
    match dropdown
    case None => 0
    case Some(labels) => MaxOf(Uppers(labels))
  }

  /**
   * The count of a dropdown is the largest upper bound over all its labels,
   * not the last one parsed: it is no smaller than any label's upper bound,
   * and, when not 0, it is the upper bound of some label.
   */
  lemma EpisodeCountIsMaximum(labels: seq<string>)
    ensures forall i :: 0 <= i < |labels| && UpperBound(labels[i]).Some? ==>
      UpperBound(labels[i]).value <= EpisodeCount(Some(labels))
    ensures EpisodeCount(Some(labels)) != 0 ==>
      exists i :: 0 <= i < |labels| && UpperBound(labels[i]) == Some(EpisodeCount(Some(labels)))
  {
    MaxOfIsMaximum(Uppers(labels));
  }

  /** A failed lookup, an empty dropdown, or one in which no label matches the pattern gives 0. */
  lemma EpisodeCountZero(dropdown: Option<seq<string>>)
    requires dropdown.Some? ==> forall i :: 0 <= i < |dropdown.value| ==> UpperBound(dropdown.value[i]).None?
    ensures EpisodeCount(dropdown) == 0
  {
    if dropdown.Some? {
      EpisodeCountIsMaximum(dropdown.value);
    }
  }

  /** get_total_episodes: the running maximum kept in a loop over the option labels. */
  method TotalEpisodes(dropdown: Option<seq<string>>) returns (maxEp: nat)
    ensures maxEp == EpisodeCount(dropdown)
  {
    if dropdown.None? {
      return 0;
    }
    var options := dropdown.value;
    if |options| == 0 {
      return 0;
    }
    maxEp := 0;
    var i := 0;
    while i < |options|
      invariant i <= |options|
      invariant maxEp == MaxOf(Uppers(options[..i]))
    {
      var upper := UpperBound(options[i]);
      assert Uppers(options[..i + 1])[..i] == Uppers(options[..i]);
      if upper.Some? && upper.value > maxEp {
        maxEp := upper.value;
      }
      i := i + 1;
    }
    assert options[..i] == options;
  }
}
