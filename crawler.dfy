/**
 * The run loop of `main`: visit the ids of [startId, endId] in ascending
 * order, write an artifact for each id whose extraction found entries, and
 * save the checkpoint after every id, whatever happened to it.
 */
module Crawler {
  import opened Wrappers
  import opened Text
  import opened Anime
  import opened Storage
  import Episodes

  /**
   * The payload written for an extraction, if one is written: ",".join(entries)
   * for a non-empty list; nothing for a skip, an empty list or an exception.
   */
  function PayloadOf(x: Extraction): Option<string>
  {
    match x
    case Found(entries) => if |entries| > 0 then Some(Join(entries)) else None
    case _ => None
  }

  /** The files after the loop body has run for one id whose extraction produced `payload`. */
  function AfterId(files: map<Path, string>, id: int, payload: Option<string>): map<Path, string>
  {
    var written := match payload
      case Some(p) => files[Artifact(id) := p]
      case None => files;
    written[Progress := IntToString(id)]
  }

  /** The files after the loop body has run for ids startId .. startId + count - 1, in that order. */
  function AfterIds(files: map<Path, string>, startId: int, count: nat,
                    payloadOf: int -> Option<string>): map<Path, string>
  {
    if count == 0 then files
    else
      var last := startId + count - 1;
      AfterId(AfterIds(files, startId, count - 1, payloadOf), last, payloadOf(last))
  }

  /** Processing id after the ids startId .. id - 1 extends their files by that id's loop body. */
  lemma AfterIdsNext(files: map<Path, string>, startId: int, id: int, payloadOf: int -> Option<string>)
    requires startId <= id
    ensures AfterIds(files, startId, id + 1 - startId, payloadOf) ==
      AfterId(AfterIds(files, startId, id - startId, payloadOf), id, payloadOf(id))
  {
  }

  /** current_id when the `finally` block runs. */
  function LastTouched(startId: int, endId: int, driverStarts: bool): int
  {
    if driverStarts && startId <= endId then endId else startId
  }

  /** The payload each id's page produces. */
  function Payloads(pages: int -> AnimePage): int -> Option<string>
  {
    (id: int) => PayloadOf(Extract(pages(id)))
  }

  /** The files when `main` returns, given the payload each id produces. */
  function RunFiles(files: map<Path, string>, startId: int, endId: int, driverStarts: bool,
                    payloadOf: int -> Option<string>): map<Path, string>
  {
    var processed :=
      if driverStarts && startId <= endId then AfterIds(files, startId, endId - startId + 1, payloadOf)
      else files;
    processed[Progress := IntToString(LastTouched(startId, endId, driverStarts))]
  }

  /** The same file, with the same contents, is in both stores or in neither. */
  predicate SameFile(f: map<Path, string>, g: map<Path, string>, name: Path)
  {
    (name in f <==> name in g) && (name in f ==> f[name] == g[name])
  }

  /** Files kept across two steps are kept across both. */
  lemma SameFileThen(f: map<Path, string>, g: map<Path, string>, h: map<Path, string>, name: Path)
    requires SameFile(f, g, name)
    ensures SameFile(g, h, name) ==> SameFile(f, h, name)
    ensures name in g ==> name in f && f[name] == g[name]
  {
  }

  /** One id's loop body touches only the checkpoint and that id's artifact. */
  lemma AfterIdKeeps(files: map<Path, string>, id: int, payload: Option<string>, name: Path)
    requires name != Progress && name != Artifact(id)
    ensures SameFile(AfterId(files, id, payload), files, name)
  {
  }

  /** One id's loop body writes the payload, when there is one, under that id's artifact name. */
  lemma AfterIdWrites(files: map<Path, string>, id: int, payload: Option<string>)
    ensures payload.Some? ==>
      Artifact(id) in AfterId(files, id, payload) && AfterId(files, id, payload)[Artifact(id)] == payload.value
    ensures payload.None? ==> SameFile(AfterId(files, id, payload), files, Artifact(id))
  {
  }

  /** After the loop body for ids startId.., the checkpoint is the last of them. */
  lemma CheckpointAfterIds(files: map<Path, string>, startId: int, count: nat, payloadOf: int -> Option<string>)
    requires count > 0
    ensures Checkpoint(AfterIds(files, startId, count, payloadOf)) == startId + count - 1
  {
    var last := startId + count - 1;
    var before := AfterIds(files, startId, count - 1, payloadOf);
    var written := match payloadOf(last)
      case Some(p) => before[Artifact(last) := p]
      case None => before;
    CheckpointAfterSave(written, last);
  }

  /** Files other than the checkpoint and the artifacts of the ids processed are untouched. */
  lemma {:induction false} AfterIdsKeepsOthers(files: map<Path, string>, startId: int, count: nat,
                                              payloadOf: int -> Option<string>, name: Path)
    requires name != Progress
    requires forall id :: startId <= id < startId + count ==> name != Artifact(id)
    ensures SameFile(AfterIds(files, startId, count, payloadOf), files, name)
  {
    if count > 0 {
      var last := startId + count - 1;
      AfterIdsKeepsOthers(files, startId, count - 1, payloadOf, name);
      AfterIdKeeps(AfterIds(files, startId, count - 1, payloadOf), last, payloadOf(last), name);
    }
  }

  /** The last id of a range: its artifact is written by its own loop body and by no earlier one. */
  lemma AfterIdsArtifactLast(files: map<Path, string>, startId: int, count: nat,
                             payloadOf: int -> Option<string>)
    requires count > 0
    ensures var id := startId + count - 1;
      payloadOf(id).Some? ==>
        Artifact(id) in AfterIds(files, startId, count, payloadOf) &&
        AfterIds(files, startId, count, payloadOf)[Artifact(id)] == payloadOf(id).value
    ensures var id := startId + count - 1;
      payloadOf(id).None? ==> SameFile(AfterIds(files, startId, count, payloadOf), files, Artifact(id))
  {
    var id := startId + count - 1;
    var before := AfterIds(files, startId, count - 1, payloadOf);
    AfterIdsKeepsOthers(files, startId, count - 1, payloadOf, Artifact(id));
    AfterIdWrites(before, id, payloadOf(id));
  }

  /**
   * After the loop body for the ids of a range, an id of the range that
   * produced a payload has its artifact holding it; any other id's artifact
   * is as it was (not written, and not deleted).
   */
  lemma {:induction false} AfterIdsArtifact(files: map<Path, string>, startId: int, count: nat,
                                           payloadOf: int -> Option<string>, id: int)
    requires startId <= id < startId + count
    ensures payloadOf(id).Some? ==>
      Artifact(id) in AfterIds(files, startId, count, payloadOf) &&
      AfterIds(files, startId, count, payloadOf)[Artifact(id)] == payloadOf(id).value
    ensures payloadOf(id).None? ==> SameFile(AfterIds(files, startId, count, payloadOf), files, Artifact(id))
  {
    var last := startId + count - 1;
    if id == last {
      AfterIdsArtifactLast(files, startId, count, payloadOf);
    } else {
      var before := AfterIds(files, startId, count - 1, payloadOf);
      AfterIdsArtifact(files, startId, count - 1, payloadOf, id);
      AfterIdKeeps(before, last, payloadOf(last), Artifact(id));
      SameFileThen(AfterIds(files, startId, count, payloadOf), before, files, Artifact(id));
    }
  }

  /** When a run ends, the checkpoint holds the last id touched. */
  lemma RunCheckpoint(files: map<Path, string>, startId: int, endId: int, driverStarts: bool,
                      payloadOf: int -> Option<string>)
    ensures Checkpoint(RunFiles(files, startId, endId, driverStarts, payloadOf)) ==
      LastTouched(startId, endId, driverStarts)
  {
    var processed :=
      if driverStarts && startId <= endId then AfterIds(files, startId, endId - startId + 1, payloadOf)
      else files;
    CheckpointAfterSave(processed, LastTouched(startId, endId, driverStarts));
  }

  /**
   * When a run ends, each id of the range that produced a payload has an
   * artifact holding it if the driver started; the artifact of any other id
   * of the range, and of every id when the driver did not start, is as it
   * was before the run.
   */
  lemma RunArtifact(files: map<Path, string>, startId: int, endId: int, driverStarts: bool,
                    payloadOf: int -> Option<string>, id: int)
    requires startId <= id <= endId
    ensures driverStarts && payloadOf(id).Some? ==>
      Artifact(id) in RunFiles(files, startId, endId, driverStarts, payloadOf) &&
      RunFiles(files, startId, endId, driverStarts, payloadOf)[Artifact(id)] == payloadOf(id).value
    ensures !driverStarts || payloadOf(id).None? ==>
      SameFile(RunFiles(files, startId, endId, driverStarts, payloadOf), files, Artifact(id))
  {
    if driverStarts {
      AfterIdsArtifact(files, startId, endId - startId + 1, payloadOf, id);
    }
  }

  /** A run leaves every file other than the checkpoint and the range's artifacts as it was. */
  lemma RunKeepsOthers(files: map<Path, string>, startId: int, endId: int, driverStarts: bool,
                       payloadOf: int -> Option<string>, name: Path)
    requires name != Progress
    requires forall id :: startId <= id <= endId ==> name != Artifact(id)
    ensures SameFile(RunFiles(files, startId, endId, driverStarts, payloadOf), files, name)
  {
    if driverStarts && startId <= endId {
      AfterIdsKeepsOthers(files, startId, endId - startId + 1, payloadOf, name);
    }
  }

  /**
   * The payload an id produces is the join of the entries its page yields:
   * an id gets an artifact exactly when its page loaded, is not a not-found
   * page, has a positive episode count n, and at least one of episodes 1..n
   * revealed a URL.
   */
  lemma PayloadsSpec(pages: int -> AnimePage, id: int)
    ensures Payloads(pages)(id).Some? <==> Extract(pages(id)).Found? && |Extract(pages(id)).entries| > 0
    ensures Payloads(pages)(id).Some? <==>
      var page := pages(id);
      page.Loaded? && !IsNotFoundPage(page.source) && Episodes.EpisodeCount(page.dropdown) > 0 &&
      exists ep: nat :: 1 <= ep <= Episodes.EpisodeCount(page.dropdown) && EpisodeUrl(page.episode(ep)).Some?
    ensures Payloads(pages)(id).Some? ==>
      var page := pages(id);
      page.Loaded? && !IsNotFoundPage(page.source) &&
      Payloads(pages)(id).value == Join(Formatted(FoundEntries(page.episode, Episodes.EpisodeCount(page.dropdown))))
  {
    var page := pages(id);
    if Extract(page).Found? {
      ExtractFound(page);
    }
    if page.Loaded? {
      FoundEntriesNonEmpty(page.episode, Episodes.EpisodeCount(page.dropdown));
    }
  }

  /**
   * The body of the loop of `main` for one id: extract, write the artifact
   * if there are entries, save progress. `payloadOf` names the payloads the
   * pages produce, so that callers can reason about them without unfolding
   * the extraction.
   */
  method ProcessAnime(disk: Disk, animeId: int, pages: int -> AnimePage, ghost payloadOf: int -> Option<string>)
    requires payloadOf == Payloads(pages)
    modifies disk
    ensures disk.files == AfterId(old(disk.files), animeId, payloadOf(animeId))
  {
    var episodeData := ExtractAnime(pages(animeId));
    assert payloadOf(animeId) == PayloadOf(episodeData);
    match episodeData {
      case Found(entries) =>
        if |entries| > 0 {
          disk.WriteArtifact(animeId, Join(entries));
        }
      case _ =>
    }
    disk.SaveProgress(animeId);
  }

  /**
   * The `for anime_id in range(START_ID, END_ID + 1)` loop of `main`: the ids
   * are taken in ascending order, so the files after the loop are those of
   * `AfterIds`, and by `CheckpointAfterIds` the checkpoint after each id is
   * that id.
   */
  method ProcessRange(disk: Disk, startId: int, endId: int, pages: int -> AnimePage,
                      ghost payloadOf: int -> Option<string>)
    returns (currentId: int)
    requires startId <= endId
    requires payloadOf == Payloads(pages)
    modifies disk
    ensures currentId == endId
    ensures disk.files == AfterIds(old(disk.files), startId, endId - startId + 1, payloadOf)
  {
    ghost var files0 := disk.files;
    currentId := startId;
    var animeId := startId;
    while animeId <= endId
      invariant startId <= animeId <= endId + 1
      invariant animeId > startId ==> currentId == animeId - 1
      invariant disk.files == AfterIds(files0, startId, animeId - startId, payloadOf)
    {
      currentId := animeId;
      ProcessAnime(disk, animeId, pages, payloadOf);
      AfterIdsNext(files0, startId, animeId, payloadOf);
      animeId := animeId + 1;
    }
    assert animeId - startId == endId - startId + 1;
  }

  /**
   * `main`, with the browser replaced by the page each id shows and
   * `driverStarts` saying whether initialize_driver succeeded: the loop over
   * the range, then the checkpoint of the `finally` block.
   */
  method Run(disk: Disk, startId: int, endId: int, driverStarts: bool, pages: int -> AnimePage,
             ghost payloadOf: int -> Option<string>)
    returns (currentId: int)
    requires payloadOf == Payloads(pages)
    modifies disk
    ensures currentId == LastTouched(startId, endId, driverStarts)
    ensures disk.files == RunFiles(old(disk.files), startId, endId, driverStarts, payloadOf)
  {
    currentId := startId;
    if driverStarts && startId <= endId {
      currentId := ProcessRange(disk, startId, endId, pages, payloadOf);
    }
    assert currentId == LastTouched(startId, endId, driverStarts);
    disk.SaveProgress(currentId);
  }
}
