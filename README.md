# Miruro anime scraper — a Dafny model

`app.py` walks a fixed range of anime ids on the Miruro site. It handles them one at a time, in ascending order. For each id it:

- opens the watch page and skips pages that look like "404" or "not found" pages;
- reads the episode count from the labels of the episode dropdown (the largest upper bound `N` of labels such as `EPS 1 - N`);
- visits episodes `1..N` in order and presses a key on each up to ten times, until a `.m3u8` or `.mp4` URL shows up in the page source;
- joins the entries `ep_num_<n>_url_data_<url>` with commas and writes them as the artifact `anime_bins/anime_<id>.bin`.

After every id, whatever happened to it, it saves the id to `progress.txt`. It saves once more in the `finally` block.

This project models that core in Dafny:

- `Text` holds the Python text built-ins the scraper relies on: `strip`, `lower`, `in`, `str(int)`, `int(str)` and `",".join`.
- `Search` holds the leftmost scan that `re.search` performs.
- `Episodes` models `get_total_episodes`: a scanner for `(\d+)\s*-\s*(\d+)` and the running-maximum loop.
- `MediaUrl` models `extract_video_url`: a scanner for `https?://[^\s"'<>]+?\.(?:m3u8|mp4)` and the bounded polling loop.
- `Anime` models `extract_anime_urls`: the not-found test, the episode loop and the entry format. It also holds the decoder of the artifact payload.
- `Storage` holds the progress checkpoint and the artifacts. It is a `Disk` class whose `files` map the methods update in place.
- `Crawler` models the loop of `main` and its `finally` checkpoint. `Crawler.PayloadOf` builds the artifact payload, the `",".join` of the entries at line 196 of `app.py`.

`Text.Split`, `Anime.ParseEntry` and `Anime.DecodePayload` are inverses of the join and of the entry format. They exist only to state round trips in the proofs; `app.py` never splits a payload or parses an entry.

The browser is replaced by what it would show:

- a page is `LoadFailed`, `SourceFailed` or `Loaded(source, dropdown, episode)`;
- a dropdown read is `Option<seq<string>>`, with `None` when the lookup raised;
- an episode is `EpisodeFailed` or the page sources read after each key press, `nat -> string`.

Whether `initialize_driver` succeeds is a boolean parameter of `Crawler.Run`. The id range is made of parameters rather than the literals 153800 and 153801.

## Model

| member | source | states |
|---|---|---|
| Text.Strip | app.py:50 | `str.strip()` drops the leading whitespace and the trailing whitespace, and keeps the slice in between, which starts and ends with a non-space character |
| Text.StripPadded | app.py:158 | any whitespace around a string that has none at its ends is removed exactly |
| Text.ParseIntRejects | app.py:158-160 | `int()` rejects an empty string and any string with a character that is not a digit, an underscore or a leading sign |
| Text.ParseIntToString | app.py:158 | `int(str(k).strip()) == k` for every integer `k` (unbounded, see "Left out"): a saved checkpoint reads back as the same id |
| Text.IntToStringInjective | app.py:197 | distinct ids print differently |
| Text.SplitJoin | app.py:196 | `",".join` is inverted by the proof-only `Split`: splitting the join at commas gives back a non-empty list whose strings hold no comma |
| Search.FirstFromIsFirst | app.py:52 | the leftmost scan used for `re.search` reports the first start position that has a match; when it reports nothing, no position in the range has one |
| Episodes.RangeAt | app.py:52 | a match reported at position `i` starts at `i`, has the digits/space/dash/space/digits shape, and its second number cannot be extended (greedy `\d+`) |
| Episodes.RangeAtComplete | app.py:52 | any occurrence of the pattern's shape at `i` is found there, with the same second-number start and an end no earlier |
| Episodes.FirstRange | app.py:52 | the match `re.search` returns is the scanner's match at its start position |
| Episodes.FirstRangeIsLeftmost | app.py:52-54 | `re.search` finds the leftmost occurrence of the pattern, and finds none only when the label holds none |
| Episodes.MaxOfIsMaximum | app.py:48-57 | the running maximum started at 0 is no smaller than any upper bound, and when not 0 it equals one of them |
| Episodes.EpisodeCountIsMaximum | app.py:38-58 | the episode count is the largest upper bound over all labels, not the last one read |
| Episodes.EpisodeCountZero | app.py:45-61 | a failed lookup, an empty dropdown, or labels that never match give 0 |
| Episodes.TotalEpisodes | app.py:38-61 | the loop over the option labels returns the episode count of the dropdown, 0 on a failed lookup |
| MediaUrl.LazyBody | app.py:67 | the lazy `+?` stops at the first position after the body start that an extension follows, having passed over URL characters only |
| MediaUrl.UrlEndAtSound | app.py:67 | what the scanner reports at a position is a media URL: scheme, non-empty body of allowed characters, `.m3u8` or `.mp4` |
| MediaUrl.UrlEndAtComplete | app.py:67 | any media URL starting at a position makes the scanner report a match there that ends no later |
| MediaUrl.ExtensionEndsOrdered | app.py:67 | of two extensions, the one that starts first also ends first, so the lazy match is the shortest |
| MediaUrl.FindUrlIsLeftmostShortest | app.py:72-74 | `pattern.search(html).group(0)` is a media URL substring; no media URL starts earlier and none starting there is shorter; `None` means the page holds no media URL |
| MediaUrl.MediaUrlShape | app.py:67 | every media URL starts with `http://` or `https://`, ends with `.m3u8` or `.mp4`, and is at least 12 characters long |
| MediaUrl.UrlWithinFirst | app.py:68-75 | polling yields the URL of the earliest snapshot that holds one, and `None` exactly when none of the snapshots does |
| MediaUrl.UrlWithinStable | app.py:72-74 | once a snapshot yields a URL, further presses do not change the result |
| MediaUrl.UrlFoundAt | app.py:72-74 | a snapshot holding a URL, preceded only by snapshots without one, fixes the polling result to that URL whatever the number of further presses allowed |
| MediaUrl.ExtractVideoUrl | app.py:64-75 | the loop returns the first URL found within `maxPresses` presses, after exactly the presses needed; it returns `None` only after all of them |
| Anime.ParseFormat | app.py:141 | an entry string `ep_num_<n>_url_data_<url>` determines its episode number and URL |
| Anime.CollectSpec | app.py:134-150 | the collected entries are exactly one per episode in `1..n` that yields a URL, carry that URL, come in strictly ascending episode order, and number at most `n` |
| Anime.FoundEntriesSpec | app.py:134-150 | the same for the episodes of a page: an entry exactly for each episode whose polling found a URL, including none for an episode that raised |
| Anime.FoundUrlsAreMediaUrls | app.py:139-142 | every collected URL is a media URL, and some key press of its loaded episode revealed it |
| Anime.ExtractFound | app.py:102-150 | a list of entries comes only from a loaded, not-not-found page with a positive episode count `n`; it is the formatted entries of episodes `1..n` and holds at most `n` |
| Anime.VisitEpisode | app.py:136-149 | one pass of the episode loop yields the polled URL, or none when the episode raised |
| Anime.CollectEpisodes | app.py:133-150 | the episode loop returns the formatted entries of episodes `1..totalEps` in episode order |
| Anime.ExtractAnime | app.py:102-150 | a load failure, a not-found page (`"404"` or lower-cased `"not found"`) and an episode count of 0 return `None`; an unreadable page source raises; otherwise the collected entries are returned |
| Anime.FoundEntriesNonEmpty | app.py:134-143 | at least one entry is collected exactly when some episode in `1..n` reveals a URL |
| Anime.PayloadRoundTrip | app.py:141-196 | the joined payload of a non-empty entry list whose URLs hold no comma decodes back to the same entries, in order |
| Storage.PathNameInjective | app.py:197 | the checkpoint and the artifacts of distinct ids have distinct file names |
| Storage.CheckpointAfterSave | app.py:154-170 | `load_progress` after `save_progress(k)` returns `k` |
| Storage.CheckpointDefaults | app.py:155-161 | for every store: a missing checkpoint, one that is empty after `strip()`, and one holding a character `int()` does not accept all load as 1 |
| Storage.CheckpointReadsStripped | app.py:158 | a saved id `k` surrounded by any whitespace on either side still loads as `k` |
| Storage.Disk.SaveProgress | app.py:164-167 | the checkpoint is overwritten with `str(last_id)` and no other file changes |
| Storage.Disk.LoadProgress | app.py:154-161 | returns the checkpoint read as an integer, or 1 when it is absent or not an integer |
| Storage.Disk.WriteArtifact | app.py:197-201 | the artifact of one id is written or overwritten and no other file changes |
| Crawler.CheckpointAfterIds | app.py:188-216 | after the loop body has run for the ids of a prefix of the range, the checkpoint holds the last of them |
| Crawler.AfterIdsKeepsOthers | app.py:188-216 | the loop touches only the checkpoint and the artifacts of the ids it processed |
| Crawler.AfterIdsArtifact | app.py:191-201 | an id that produced entries has its artifact holding their join; any other id's artifact is left as it was, neither written nor deleted |
| Crawler.PayloadsSpec | app.py:191-196 | an id gets an artifact exactly when its extraction returned a non-empty list, that is exactly when its page loaded, is not a not-found page, has a positive episode count `n` and some episode in `1..n` revealed a URL; the payload is the join of the formatted entries of episodes `1..n` of a loaded, not-not-found page |
| Crawler.RunCheckpoint | app.py:183-228 | when `main` ends, the checkpoint holds the last id touched: the end id, or the start id when the driver did not start or the range is empty |
| Crawler.RunArtifact | app.py:185-228 | when `main` ends after the driver started, every id of the range that produced entries has its artifact; every other artifact of the range, and all of them when `initialize_driver` raised, are as they were |
| Crawler.RunKeepsOthers | app.py:174-228 | `main` leaves every file other than the checkpoint and the range's artifacts as it was |
| Crawler.ProcessAnime | app.py:190-216 | one loop body: the artifact is written when there are entries, then the checkpoint holds the id, whether the id was skipped, written or raised |
| Crawler.ProcessRange | app.py:188-216 | the ids of the range are processed in ascending order; `current_id` ends at the end id |
| Crawler.Run | app.py:174-228 | `main` returns the last id touched, and its files are those of the loop followed by the `finally` checkpoint |

## Left out

- Browser automation is left out, together with its timing. Pages, dropdown labels and key-press snapshots are inputs. The 30-second wait, `time.sleep` and the key presses themselves are not modelled.
- The Telegram calls `msg_fun` and `file_fun` (in `send_mst.py`) are left out, because `send_mst.py` is not part of this model. An exception from the `msg_fun` at line 180 would end `main` before the `try`; it is not modelled. A failing `file_fun` at line 206 is caught, so it changes nothing.
- `save_debug_snapshot` and the debug directory are left out. They only write debug files and send them, and every failure inside is caught.
- gzip and pickle are left out. An artifact's contents are the joined string that the source pickles and compresses.
- Failures of the file system are left out: `os.makedirs`, a failing artifact write and a failing `save_progress` write. `Storage.Disk.LoadProgress` does not model a checkpoint file that exists but cannot be read; that case also gives 1 in the source.
- `MAX_ID` is left out. Its value is never used, but `int(os.getenv("MAX_ID", "30"))` at line 176 raises ValueError for a non-integer value. That happens before the `try` at line 185, so `main` then ends without writing any checkpoint, like a failing `msg_fun` at line 180. The model does not capture that path.
- The literal range 153800..153801 becomes the parameters `startId`/`endId`.
- Integers are unbounded in the model. CPython limits conversion between `int` and decimal strings to 4300 digits by default. Beyond that, `str(last_id)` at line 167 raises after `open(..., "w")` has emptied `progress.txt`, so the next load gives 1. Likewise `int(match.group(2))` at line 54 raises for a bound of 4301 or more digits, so `get_total_episodes` returns 0.
- Text.ParseIntToString: holds for every integer, without the 4300-digit limit on conversions, because the model's integers are unbounded.
- Storage.CheckpointAfterSave: holds for every integer; an id of more than 4300 digits would make `save_progress` empty the checkpoint in CPython.
- Episodes.EpisodeCountIsMaximum: reads every upper bound as its value; an upper bound of 4301 or more digits would make CPython raise and return 0.
- An exception while reading one option label is folded into a failed dropdown read (`None`), which gives 0 as in the source.
- Text built-ins cover ASCII only. That means whitespace for `strip` and `\s`, digits for `\d` and `int()`, and letters for `lower()`. Non-ASCII whitespace, Unicode digits and Unicode case mapping are left out.
- Anime.PayloadRoundTrip: requires URLs without commas. A URL character class that allows `,` can make the joined payload ambiguous, and the source does nothing about that.
- Crawler.ProcessRange: states the checkpoint after each id through `Crawler.CheckpointAfterIds` on the state function rather than through a ghost trace of every save.
- Some behaviour of the code that the model follows as written:
  - episodes are visited one after another (line 134), and so are ids (line 188);
  - lines 197-201 overwrite `anime_<id>.bin` and delete nothing;
  - `main` never calls `load_progress` and always uses the literal range;
  - an empty range still saves `START_ID` in `finally` (line 228).
