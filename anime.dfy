/**
 * Per-anime pipeline: the not-found check on the page source, the episode
 * count, and the sequential loop over episodes 1..count that collects one
 * entry "ep_num_<n>_url_data_<url>" per episode whose URL was found.
 */
module Anime {
  import opened Wrappers
  import opened Text
  import opened Episodes
  import opened MediaUrl

  /** Key presses tried per episode (the default of max_presses). */
  const MaxPresses: nat := 10

  /**
   * What the browser shows for one episode URL: either navigating or reading
   * it raised, or `afterPress(k)` is the page source read after key press k.
   */
  datatype EpisodeView = EpisodeFailed | EpisodeLoaded(afterPress: nat -> string)

  /**
   * What the browser shows for an anime's base URL: the load or wait raised,
   * reading the page source raised, or the page loaded with its source, its
   * dropdown labels (None when the lookup raised) and its episodes.
   */
  datatype AnimePage =
    | LoadFailed
    | SourceFailed
    | Loaded(source: string, dropdown: Option<seq<string>>, episode: nat -> EpisodeView)

  /** The outcome of extract_anime_urls: None, a list of entries, or an exception that escapes. */
  datatype Extraction = Skipped | Found(entries: seq<string>) | Raised

  /** One resolved episode: its number and its media URL. */
  datatype Entry = Entry(ep: nat, url: string)

  /** The page-validity test: a "404" anywhere or "not found" in the lower-cased source. */
  predicate IsNotFoundPage(source: string)
  {
    Contains(source, "404") || Contains(Lower(source), "not found")
  }

  /** f"ep_num_{ep}_url_data_{vurl}" */
  function Format(e: Entry): string
  {
    "ep_num_" + NatToString(e.ep) + "_url_data_" + e.url
  }

  /** Reads an entry string back; the inverse of Format. */
  function ParseEntry(s: string): Option<Entry>
  {
    if StartsWith(s, "ep_num_") then ParseNumberAndUrl(s[7..]) else None
  }

  /** Reads "<digits>_url_data_<url>", the part of an entry after "ep_num_". */
  function ParseNumberAndUrl(rest: string): Option<Entry>
  {
    var d := DigitRunEnd(rest, 0);
    if 0 < d && StartsWith(rest[d..], "_url_data_") then
      assert AllDigits(rest[..d]);
      Some(Entry(DigitsValue(rest[..d]), rest[d + 10..]))
    else None
  }

  lemma ParseNumberAndUrlParts(digits: string, url: string)
    requires |digits| > 0 && AllDigits(digits)
    ensures ParseNumberAndUrl(digits + "_url_data_" + url) == Some(Entry(DigitsValue(digits), url))
  {
    var tail := "_url_data_" + url;
    var rest := digits + tail;
    assert rest == digits + "_url_data_" + url;
    assert DigitRunEnd(rest, 0) == |digits| by {
      assert rest[|digits|] == '_';
      DigitRunEndAt(rest, 0, |digits|);
    }
    assert rest[..|digits|] == digits && rest[|digits|..] == tail;
    assert tail[..10] == "_url_data_" && tail[10..] == url;
  }

  /** An entry string is "ep_num_" followed by the number and the URL. */
  lemma ParsePrefixed(rest: string)
    ensures ParseEntry("ep_num_" + rest) == ParseNumberAndUrl(rest)
  {
    var s := "ep_num_" + rest;
    assert s[..7] == "ep_num_" && s[7..] == rest;
  }

  /** An entry string determines its episode number and URL. */
  lemma ParseFormat(e: Entry)
    ensures ParseEntry(Format(e)) == Some(e)
  {
    var digits := NatToString(e.ep);
    var rest := digits + "_url_data_" + e.url;
    assert Format(e) == "ep_num_" + rest;
    ParsePrefixed(rest);
    ParseNumberAndUrlParts(digits, e.url);
    NatToStringValue(e.ep);
  }

  /** The entry strings, in order. */
  function Formatted(es: seq<Entry>): (r: seq<string>)
    ensures |r| == |es|
    ensures forall k :: 0 <= k < |es| ==> r[k] == Format(es[k])
  {
    if es == [] then [] else Formatted(es[..|es| - 1]) + [Format(es[|es| - 1])]
  }

  /** The URL extract_video_url finds for one episode, None also when the episode raised. */
  function EpisodeUrl(v: EpisodeView): Option<string>
  {
    match v
    case EpisodeFailed => None
    case EpisodeLoaded(afterPress) => UrlWithin(afterPress, MaxPresses)
  }

  /** The entries for episodes 1..n, in episode order, given the URL each episode yields. */
  function Collect(urlOf: nat -> Option<string>, n: nat): seq<Entry>
  {
    if n == 0 then []
    else
      Collect(urlOf, n - 1) +
      match urlOf(n)
      case Some(u) => [Entry(n, u)]
      case None => []
  }

  /** Episode n adds its formatted entry, if it yields a URL, after those of the earlier episodes. */
  lemma CollectFormattedStep(urlOf: nat -> Option<string>, n: nat)
    requires n > 0
    ensures Formatted(Collect(urlOf, n)) ==
      Formatted(Collect(urlOf, n - 1)) + (if urlOf(n).Some? then [Format(Entry(n, urlOf(n).value))] else [])
  {
    var prev := Collect(urlOf, n - 1);
    if urlOf(n).Some? {
      var es := prev + [Entry(n, urlOf(n).value)];
      assert Collect(urlOf, n) == es;
      assert es[..|es| - 1] == prev;
    } else {
      assert Collect(urlOf, n) == prev;
    }
  }

  /**
   * The entries are exactly one per episode in 1..n that yields a URL, each
   * with that URL, in strictly ascending episode order, so at most n.
   */
  lemma {:induction false} CollectSpec(urlOf: nat -> Option<string>, n: nat)
    ensures var es := Collect(urlOf, n);
      |es| <= n &&
      (forall k :: 0 <= k < |es| ==> 1 <= es[k].ep <= n && urlOf(es[k].ep) == Some(es[k].url)) &&
      (forall k, l :: 0 <= k < l < |es| ==> es[k].ep < es[l].ep) &&
      (forall ep :: 1 <= ep <= n && urlOf(ep).Some? ==> exists k :: 0 <= k < |es| && es[k].ep == ep)
  {
    if n > 0 {
      CollectSpec(urlOf, n - 1);
      var prev := Collect(urlOf, n - 1);
      var es := Collect(urlOf, n);
      assert forall k :: 0 <= k < |prev| ==> es[k] == prev[k];
      if urlOf(n).Some? {
        assert es[|prev|] == Entry(n, urlOf(n).value);
      }
    }
  }

  /** The entries extract_anime_urls collects for episodes 1..n. */
  function FoundEntries(episode: nat -> EpisodeView, n: nat): seq<Entry>
  {
    Collect(EpisodeUrls(episode), n)
  }

  /** The URL each episode yields. */
  function EpisodeUrls(episode: nat -> EpisodeView): nat -> Option<string>
  {
    (ep: nat) => EpisodeUrl(episode(ep))
  }

  /**
   * The entries are exactly one per episode in 1..n whose URL was found,
   * each with that URL, in strictly ascending episode order, so at most n.
   */
  lemma FoundEntriesSpec(episode: nat -> EpisodeView, n: nat)
    ensures var es := FoundEntries(episode, n);
      |es| <= n &&
      (forall k :: 0 <= k < |es| ==> 1 <= es[k].ep <= n && EpisodeUrl(episode(es[k].ep)) == Some(es[k].url)) &&
      (forall k, l :: 0 <= k < l < |es| ==> es[k].ep < es[l].ep) &&
      (forall ep :: 1 <= ep <= n && EpisodeUrl(episode(ep)).Some? ==> exists k :: 0 <= k < |es| && es[k].ep == ep)
  {
    var urlOf := EpisodeUrls(episode);
    CollectSpec(urlOf, n);
    var es := Collect(urlOf, n);
    forall ep: nat | 1 <= ep <= n && EpisodeUrl(episode(ep)).Some?
      ensures exists k :: 0 <= k < |es| && es[k].ep == ep
    {
      assert urlOf(ep).Some?;
    }
  }

  /** Some entry is collected exactly when some episode in 1..n reveals a URL. */
  lemma FoundEntriesNonEmpty(episode: nat -> EpisodeView, n: nat)
    ensures |FoundEntries(episode, n)| > 0 <==> exists ep: nat :: 1 <= ep <= n && EpisodeUrl(episode(ep)).Some?
  {
    FoundEntriesSpec(episode, n);
    var es := FoundEntries(episode, n);
    if exists ep: nat :: 1 <= ep <= n && EpisodeUrl(episode(ep)).Some? {
      var ep: nat :| 1 <= ep <= n && EpisodeUrl(episode(ep)).Some?;
      assert exists k :: 0 <= k < |es| && es[k].ep == ep;
    }
    if |es| > 0 {
      assert 1 <= es[0].ep <= n && EpisodeUrl(episode(es[0].ep)).Some?;
    }
  }

  /** Every collected URL is a media URL that some key press of that episode revealed. */
  lemma FoundUrlsAreMediaUrls(episode: nat -> EpisodeView, n: nat, k: nat)
    requires k < |FoundEntries(episode, n)|
    ensures IsMediaUrl(FoundEntries(episode, n)[k].url)
    ensures var e := FoundEntries(episode, n)[k];
      episode(e.ep).EpisodeLoaded? &&
      exists press :: 0 <= press < MaxPresses && FindUrl(episode(e.ep).afterPress(press)) == Some(e.url)
  {
    FoundEntriesSpec(episode, n);
    var e := FoundEntries(episode, n)[k];
    var afterPress := episode(e.ep).afterPress;
    UrlWithinFirst(afterPress, MaxPresses);
    var press :| 0 <= press < MaxPresses && FindUrl(afterPress(press)) == Some(e.url) &&
      forall j :: 0 <= j < press ==> FindUrl(afterPress(j)).None?;
    FindUrlIsLeftmostShortest(afterPress(press));
  }

  /** The result of extract_anime_urls for a page. */
  function Extract(page: AnimePage): Extraction
  {
    match page
    case LoadFailed => Skipped
    case SourceFailed => Raised
    case Loaded(source, dropdown, episode) =>
      if IsNotFoundPage(source) then Skipped
      else
        var n := EpisodeCount(dropdown);
        if n == 0 then Skipped else Found(Formatted(FoundEntries(episode, n)))
  }

  /**
   * An extraction that found entries came from a loaded page that is not a
   * not-found page and whose episode count n is positive; it holds at most n
   * entries, and they are the formatted entries of episodes 1..n.
   */
  lemma ExtractFound(page: AnimePage)
    ensures Extract(page).Found? ==>
      page.Loaded? && !IsNotFoundPage(page.source) && EpisodeCount(page.dropdown) > 0
    ensures Extract(page).Found? ==>
      var n := EpisodeCount(page.dropdown);
      Extract(page).entries == Formatted(FoundEntries(page.episode, n)) &&
      |Extract(page).entries| <= n
  {
    if Extract(page).Found? {
      FoundEntriesSpec(page.episode, EpisodeCount(page.dropdown));
    }
  }

  /** One pass of the episode loop: open the episode and poll it for a URL; an exception yields no URL. */
  method VisitEpisode(v: EpisodeView) returns (vurl: Option<string>)
    ensures vurl == EpisodeUrl(v)
  {
    vurl := None;
    match v {
      case EpisodeFailed =>
      case EpisodeLoaded(afterPress) =>
        ghost var presses;
        vurl, presses := ExtractVideoUrl(afterPress, MaxPresses);
    }
  }

  /** Episode n adds its formatted entry, if its URL was found, after those of the earlier episodes. */
  lemma FoundEntriesStep(episode: nat -> EpisodeView, n: nat)
    requires n > 0
    ensures Formatted(FoundEntries(episode, n)) ==
      Formatted(FoundEntries(episode, n - 1)) +
      (if EpisodeUrl(episode(n)).Some? then [Format(Entry(n, EpisodeUrl(episode(n)).value))] else [])
  {
    CollectFormattedStep(EpisodeUrls(episode), n);
  }

  /** The episode loop of extract_anime_urls: episodes 1..totalEps in order, one entry per URL found. */
  method CollectEpisodes(episode: nat -> EpisodeView, totalEps: nat) returns (episodeEntries: seq<string>)
    ensures episodeEntries == Formatted(FoundEntries(episode, totalEps))
  {
    episodeEntries := [];
    var ep: nat := 1;
    while ep <= totalEps
      invariant 1 <= ep <= totalEps + 1
      invariant episodeEntries == Formatted(FoundEntries(episode, ep - 1))
    {
      var vurl := VisitEpisode(episode(ep));
      FoundEntriesStep(episode, ep);
      if vurl.Some? {
        episodeEntries := episodeEntries + [Format(Entry(ep, vurl.value))];
      }
      ep := ep + 1;
    }
    assert ep - 1 == totalEps;
  }

  /** extract_anime_urls, with the browser replaced by the page it shows. */
  method ExtractAnime(page: AnimePage) returns (r: Extraction)
    ensures r == Extract(page)
    ensures page.Loaded? && IsNotFoundPage(page.source) ==> r == Skipped
    ensures page.Loaded? && EpisodeCount(page.dropdown) == 0 ==> r == Skipped
  {
    match page {
      case LoadFailed =>
        return Skipped;
      case SourceFailed =>
        return Raised;
      case Loaded(html, dropdown, episode) =>
        if IsNotFoundPage(html) {
          return Skipped;
        }
        var totalEps := TotalEpisodes(dropdown);
        if totalEps == 0 {
          return Skipped;
        }
        var episodeEntries := CollectEpisodes(episode, totalEps);
        return Found(episodeEntries);
    }
  }

  // ---------- the artifact payload ----------

  /** Reads a payload back into entries; the inverse of joining formatted entries. */
  function DecodePayload(payload: string): Option<seq<Entry>>
  {
    ParseAll(Split(payload))
  }

  function ParseAll(parts: seq<string>): Option<seq<Entry>>
  {
    if parts == [] then Some([])
    else
      match (ParseEntry(parts[0]), ParseAll(parts[1..]))
      case (Some(e), Some(es)) => Some([e] + es)
      case _ => None
  }

  /**
   * The payload ",".join(entries) is lossless for a non-empty list whose URLs
   * hold no comma: decoding it gives back every entry in order.
   */
  lemma {:induction false} PayloadRoundTrip(es: seq<Entry>)
    requires |es| > 0
    requires forall k, j :: 0 <= k < |es| && 0 <= j < |es[k].url| ==> es[k].url[j] != ','
    ensures DecodePayload(Join(Formatted(es))) == Some(es)
  {
    var fs := Formatted(es);
    forall k, j | 0 <= k < |fs| && 0 <= j < |fs[k]|
      ensures fs[k][j] != ','
    {
      var d := NatToString(es[k].ep);
      assert fs[k] == "ep_num_" + d + "_url_data_" + es[k].url;
      if j >= 7 && j < 7 + |d| {
        assert fs[k][j] == d[j - 7];
      } else if j >= 17 + |d| {
        assert fs[k][j] == es[k].url[j - 17 - |d|];
      }
    }
    SplitJoin(fs);
    ParseAllFormatted(es);
  }

  lemma {:induction false} ParseAllFormatted(es: seq<Entry>)
    ensures ParseAll(Formatted(es)) == Some(es)
  {
    if es != [] {
      var fs := Formatted(es);
      ParseFormat(es[0]);
      assert fs[0] == Format(es[0]);
      assert fs[1..] == Formatted(es[1..]) by {
        var tail := Formatted(es[1..]);
        assert |tail| == |fs| - 1;
        forall k | 0 <= k < |tail| ensures tail[k] == fs[1..][k] {
          assert es[1..][k] == es[k + 1];
        }
      }
      ParseAllFormatted(es[1..]);
      assert es == [es[0]] + es[1..];
    }
  }
}
