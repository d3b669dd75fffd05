/**
 * Media-URL extractor: the search for `https?://[^\s"'<>]+?\.(?:m3u8|mp4)`
 * in a page source, and the bounded loop of key presses that polls the
 * page until such a URL shows up.
 */
module MediaUrl {
  import opened Wrappers
  import opened Text
  import opened Search

  /** The characters of `[^\s"'<>]`. */
  predicate IsUrlChar(c: char)
  {
    !IsSpace(c) && c != '"' && c != '\'' && c != '<' && c != '>'
  }

  /** 8 for a string starting "https://", 7 for "http://", 0 otherwise. */
  function SchemeLength(s: string): nat
  {
    if StartsWith(s, "https://") then 8 else if StartsWith(s, "http://") then 7 else 0
  }

  /** 5 for a string ending ".m3u8", 4 for ".mp4", 0 otherwise. */
  function ExtensionLength(s: string): nat
  {
    if EndsWith(s, ".m3u8") then 5 else if EndsWith(s, ".mp4") then 4 else 0
  }

  /**
   * The strings the pattern matches: a scheme, a non-empty run of URL
   * characters, and a media extension.
   */
  predicate IsMediaUrl(u: string)
  {
    var p := SchemeLength(u);
    var x := ExtensionLength(u);
    p > 0 && x > 0 && p + x < |u| &&
    forall k :: p <= k < |u| - x ==> IsUrlChar(u[k])
  }

  /** The length of the extension that starts at t[j], 0 when none does. */
  function ExtensionAt(t: string, j: nat): nat
    requires j <= |t|
  {
    if StartsWith(t[j..], ".m3u8") then 5 else if StartsWith(t[j..], ".mp4") then 4 else 0
  }

  /**
   * The lazy `[^\s"'<>]+?` followed by the extension: the first body end,
   * scanning from j, that is past the body start and is followed by an
   * extension, as long as only URL characters are passed over.
   */
  function LazyBody(t: string, bodyStart: nat, j: nat): (r: Option<nat>)
    requires bodyStart <= j <= |t|
    ensures r.Some? ==> bodyStart < r.value && j <= r.value <= |t| && ExtensionAt(t, r.value) > 0
    ensures r.Some? ==> forall k :: j <= k < r.value ==> IsUrlChar(t[k])
    ensures r.Some? ==> forall k :: j <= k < r.value && bodyStart < k ==> ExtensionAt(t, k) == 0
    decreases |t| - j
  {
    if j > bodyStart && ExtensionAt(t, j) > 0 then Some(j)
    else if j < |t| && IsUrlChar(t[j]) then LazyBody(t, bodyStart, j + 1)
    else None
  }

  /** The end of the match that starts at position i, if any. */
  function UrlEndAt(t: string, i: nat): (r: Option<nat>)
    requires i <= |t|
    ensures r.Some? ==> i < r.value <= |t|
  {
    var p := SchemeLength(t[i..]);
    if p == 0 then None
    else
      match LazyBody(t, i + p, i + p)
      case Some(j) => Some(j + ExtensionAt(t, j))
      case None => None
  }

  /** Each extension is recognised from its first character on. */
  lemma ExtensionAtSpec(t: string, j: nat)
    requires j <= |t|
    ensures ExtensionAt(t, j) > 0 ==> j + ExtensionAt(t, j) <= |t| && t[j] == '.' && t[j + 1] == 'm'
    ensures ExtensionAt(t, j) == 5 ==> t[j..j + 5] == ".m3u8"
    ensures ExtensionAt(t, j) == 4 ==> t[j..j + 4] == ".mp4"
  {
    if ExtensionAt(t, j) > 0 {
      assert t[j] == t[j..][0] && t[j + 1] == t[j..][1];
    }
  }

  /** Two extension positions j < j' end in that order too: the shorter match is the earlier one. */
  lemma ExtensionEndsOrdered(t: string, j: nat, j': nat)
    requires j < j' <= |t| && ExtensionAt(t, j) > 0 && ExtensionAt(t, j') > 0
    ensures j + ExtensionAt(t, j) < j' + ExtensionAt(t, j')
  {
    ExtensionAtSpec(t, j);
    ExtensionAtSpec(t, j');
  }

  /** A match that starts at i is seen by the scanner, which reports one ending no later. */
  lemma {:induction false} LazyBodyComplete(t: string, bodyStart: nat, j: nat, end: nat)
    requires bodyStart <= j <= end <= |t| && bodyStart < end && ExtensionAt(t, end) > 0
    requires forall k :: j <= k < end ==> IsUrlChar(t[k])
    ensures LazyBody(t, bodyStart, j).Some? && LazyBody(t, bodyStart, j).value <= end
    decreases end - j
  {
    if !(j > bodyStart && ExtensionAt(t, j) > 0) {
      LazyBodyComplete(t, bodyStart, j + 1, end);
    }
  }

  /** Reading a media URL t[i..e] back in terms of positions of t. */
  lemma MediaUrlInText(t: string, i: nat, e: nat)
    requires i <= e <= |t| && IsMediaUrl(t[i..e])
    ensures SchemeLength(t[i..]) == SchemeLength(t[i..e])
    ensures ExtensionAt(t, e - ExtensionLength(t[i..e])) == ExtensionLength(t[i..e])
    ensures forall k :: i + SchemeLength(t[i..e]) <= k < e - ExtensionLength(t[i..e]) ==> IsUrlChar(t[k])
  {
    var u := t[i..e];
    assert |u| >= 12;
    assert u[..8] == t[i..][..8] && u[..7] == t[i..][..7];
    var x := ExtensionLength(u);
    assert t[e - x..][..x] == u[|u| - x..];
    if x == 4 {
      assert t[e - x..][2] == 'p';
    }
    forall k | i + SchemeLength(u) <= k < e - x
      ensures IsUrlChar(t[k])
    {
      assert t[k] == u[k - i];
    }
  }

  /** The scheme is decided by the first eight characters. */
  lemma SchemeLengthPrefix(s: string, n: nat)
    requires 8 <= n <= |s|
    ensures SchemeLength(s[..n]) == SchemeLength(s)
  {
    assert s[..n][..8] == s[..8] && s[..n][..7] == s[..7];
  }

  /** An extension found at j is the extension of any text that ends with it. */
  lemma ExtensionLengthAt(t: string, i: nat, j: nat)
    requires i <= j <= |t| && ExtensionAt(t, j) > 0
    ensures j + ExtensionAt(t, j) <= |t|
    ensures ExtensionLength(t[i..j + ExtensionAt(t, j)]) == ExtensionAt(t, j)
  {
    var x := ExtensionAt(t, j);
    ExtensionAtSpec(t, j);
    var u := t[i..j + x];
    assert u[|u| - x..] == t[j..j + x];
    if x == 4 && |u| >= 5 {
      assert t[j + 3] == t[j..j + 4][3] == '4';
      assert u[|u| - 1] == t[j + 3];
      assert u[|u| - 5..][4] == u[|u| - 1];
    }
  }

  /** A slice of `t` whose body positions hold URL characters in `t` holds them in the slice. */
  lemma BodyCharsInSlice(t: string, i: nat, e: nat, p: nat, x: nat)
    requires i <= e <= |t| && p + x <= e - i
    requires forall k :: i + p <= k < e - x ==> IsUrlChar(t[k])
    ensures forall k :: p <= k < e - i - x ==> IsUrlChar(t[i..e][k])
  {
    forall k | p <= k < e - i - x
      ensures IsUrlChar(t[i..e][k])
    {
      assert t[i..e][k] == t[i + k];
    }
  }

  /** What the scanner reports at i is a media URL. */
  lemma UrlEndAtSound(t: string, i: nat)
    requires i <= |t| && UrlEndAt(t, i).Some?
    ensures IsMediaUrl(t[i..UrlEndAt(t, i).value])
  {
    var p := SchemeLength(t[i..]);
    var j := LazyBody(t, i + p, i + p).value;
    ExtensionLengthAt(t, i, j);
    var x := ExtensionAt(t, j);
    var e := j + x;
    assert UrlEndAt(t, i).value == e;
    assert t[i..e] == t[i..][..e - i];
    SchemeLengthPrefix(t[i..], e - i);
    BodyCharsInSlice(t, i, e, p, x);
  }

  /**
   * A scheme at i, URL characters up to `end` and an extension at `end`
   * make the scanner report a match at i that ends no later than that extension.
   */
  lemma UrlEndAtFromParts(t: string, i: nat, end: nat)
    requires i <= |t| && 0 < SchemeLength(t[i..]) && i + SchemeLength(t[i..]) < end <= |t|
    requires ExtensionAt(t, end) > 0
    requires forall k :: i + SchemeLength(t[i..]) <= k < end ==> IsUrlChar(t[k])
    ensures UrlEndAt(t, i).Some? && UrlEndAt(t, i).value <= end + ExtensionAt(t, end)
  {
    var p := SchemeLength(t[i..]);
    LazyBodyComplete(t, i + p, i + p, end);
    var j := LazyBody(t, i + p, i + p).value;
    if j < end {
      ExtensionEndsOrdered(t, j, end);
    }
  }

  /** Any media URL that starts at i makes the scanner report a match at i that ends no later. */
  lemma UrlEndAtComplete(t: string, i: nat, e: nat)
    requires i <= e <= |t| && IsMediaUrl(t[i..e])
    ensures UrlEndAt(t, i).Some? && UrlEndAt(t, i).value <= e
  {
    MediaUrlInText(t, i, e);
    UrlEndAtFromParts(t, i, e - ExtensionLength(t[i..e]));
  }

  /** Position of a match: the URL is t[start..end]. */
  datatype UrlMatch = UrlMatch(start: nat, end: nat)

  /** UrlEndAt at every start position, None past the end of the text. */
  function UrlEndsIn(t: string): nat -> Option<nat>
  {
    (q: nat) => if q <= |t| then UrlEndAt(t, q) else None
  }

  /** `pattern.search(html)`: the position of the match at the leftmost start where there is one. */
  function FindMatch(t: string): (m: Option<UrlMatch>)
    ensures m.Some? ==> m.value.start <= |t| && UrlEndAt(t, m.value.start) == Some(m.value.end)
  {
    match FirstFrom(UrlEndsIn(t), 0, |t|)
    case Some(q) => Some(UrlMatch(q, UrlEndAt(t, q).value))
    case None => None
  }

  /** `match.group(0)` of `pattern.search(html)`, or None when there is no match. */
  function FindUrl(t: string): (r: Option<string>)
    ensures r.Some? <==> FindMatch(t).Some?
  {
    match FindMatch(t)
    case Some(m) => Some(t[m.start..m.end])
    case None => None
  }

  /**
   * FindUrl returns the leftmost, shortest media URL of the text: a
   * substring t[start..end] that is a media URL, no media URL starts
   * before it, and no shorter one starts where it does. When it returns
   * None, no substring of the text is a media URL.
   */
  lemma FindUrlIsLeftmostShortest(t: string)
    ensures FindMatch(t).Some? ==>
      var m := FindMatch(t).value;
      m.start < m.end <= |t| && FindUrl(t) == Some(t[m.start..m.end]) &&
      IsMediaUrl(t[m.start..m.end]) &&
      (forall j, e :: 0 <= j < m.start && j <= e <= |t| ==> !IsMediaUrl(t[j..e])) &&
      (forall e :: m.start <= e < m.end ==> !IsMediaUrl(t[m.start..e]))
    ensures FindUrl(t).None? ==> forall j, e :: 0 <= j <= e <= |t| ==> !IsMediaUrl(t[j..e])
  {
    var r := FindMatch(t);
    FirstFromIsFirst(UrlEndsIn(t), 0, |t|);
    forall j, e | 0 <= j <= e <= |t| && IsMediaUrl(t[j..e])
      ensures r.Some? && r.value.start <= j
      ensures j == r.value.start ==> r.value.end <= e
    {
      UrlEndAtComplete(t, j, e);
      assert UrlEndsIn(t)(j).Some?;
    }
    if r.Some? {
      UrlEndAtSound(t, r.value.start);
    }
  }

  /** Every media URL starts with a scheme and ends with a media extension. */
  lemma MediaUrlShape(u: string)
    requires IsMediaUrl(u)
    ensures StartsWith(u, "http://") || StartsWith(u, "https://")
    ensures EndsWith(u, ".m3u8") || EndsWith(u, ".mp4")
    ensures |u| >= 12
  {
  }

  // ---------- the polling loop ----------

  /**
   * The URL the first `presses` key presses reveal: the match in the first
   * page source, after a press, that has one. `afterPress(k)` is the page
   * source read after press k (counting from 0).
   */
  function UrlWithin(afterPress: nat -> string, presses: nat): Option<string>
  {
    if presses == 0 then None
    else
      match UrlWithin(afterPress, presses - 1)
      case Some(u) => Some(u)
      case None => FindUrl(afterPress(presses - 1))
  }

  /**
   * UrlWithin is the URL of the earliest snapshot that has one: None exactly
   * when none of the first `presses` snapshots holds a media URL, and
   * otherwise the URL of snapshot k where no earlier snapshot has one.
   */
  lemma {:induction false} UrlWithinFirst(afterPress: nat -> string, presses: nat)
    ensures UrlWithin(afterPress, presses).None? <==>
      forall k :: 0 <= k < presses ==> FindUrl(afterPress(k)).None?
    ensures UrlWithin(afterPress, presses).Some? ==>
      exists k :: 0 <= k < presses && FindUrl(afterPress(k)) == UrlWithin(afterPress, presses) &&
        forall j :: 0 <= j < k ==> FindUrl(afterPress(j)).None?
  {
    if presses > 0 {
      UrlWithinFirst(afterPress, presses - 1);
    }
  }

  /** Once a URL is found, more presses do not change it. */
  lemma {:induction false} UrlWithinStable(afterPress: nat -> string, k: nat, n: nat)
    requires k <= n && UrlWithin(afterPress, k).Some?
    ensures UrlWithin(afterPress, n) == UrlWithin(afterPress, k)
    decreases n - k
  {
    if k < n {
      UrlWithinStable(afterPress, k, n - 1);
    }
  }

  /** A snapshot with a URL, after snapshots without one, decides the result. */
  lemma UrlFoundAt(afterPress: nat -> string, a: nat, n: nat)
    requires a < n && UrlWithin(afterPress, a).None? && FindUrl(afterPress(a)).Some?
    ensures UrlWithin(afterPress, n) == FindUrl(afterPress(a))
  {
    UrlWithinStable(afterPress, a + 1, n);
  }

  /**
   * extract_video_url: press a key, read the page, search it; return the
   * first match, or None after `maxPresses` attempts. `presses` counts the
   * key presses made.
   */
  method ExtractVideoUrl(afterPress: nat -> string, maxPresses: nat) returns (r: Option<string>, ghost presses: nat)
    ensures r == UrlWithin(afterPress, maxPresses)
    ensures presses <= maxPresses
    ensures r.Some? ==> 0 < presses && FindUrl(afterPress(presses - 1)) == r
    ensures r.Some? ==> forall k :: 0 <= k < presses - 1 ==> FindUrl(afterPress(k)).None?
    ensures r.None? ==> presses == maxPresses
  {
    var attempt := 0;
    while attempt < maxPresses
      invariant attempt <= maxPresses
      invariant UrlWithin(afterPress, attempt).None?
    {
      var html := afterPress(attempt);
      var found := FindUrl(html);
      if found.Some? {
        UrlFoundAt(afterPress, attempt, maxPresses);
        UrlWithinFirst(afterPress, attempt);
        return found, attempt + 1;
      }
      attempt := attempt + 1;
    }
    assert attempt == maxPresses;
    return None, maxPresses;
  }
}
