/**
 * The files the crawler writes, as a map from path to contents: the
 * progress checkpoint and one artifact per anime id. An artifact's contents
 * stand for the string that is pickled and gzipped into it.
 */
module Storage {
  import opened Wrappers
  import opened Text

  const ProgressFile: string := "progress.txt"
  const OutputDir: string := "anime_bins"

  /** The files the crawler writes: the checkpoint and the artifact of each anime id. */
  datatype Path = Progress | Artifact(id: int)

  /** The file name of a path: PROGRESS_FILE, or os.path.join(OUTPUT_DIR, f"anime_{anime_id}.bin"). */
  function PathName(p: Path): string
  {
    match p
    case Progress => ProgressFile
    case Artifact(id) => OutputDir + "/anime_" + IntToString(id) + ".bin"
  }

  /** Distinct paths have distinct file names, so a store keyed by paths is one keyed by names. */
  lemma PathNameInjective(a: Path, b: Path)
    ensures PathName(a) == PathName(b) ==> a == b
  {
    if a.Artifact? && b.Artifact? && PathName(a) == PathName(b) {
      var sa, sb := IntToString(a.id), IntToString(b.id);
      assert |sa| == |sb|;
      assert sa == PathName(a)[17..17 + |sa|];
      assert sb == PathName(b)[17..17 + |sb|];
      IntToStringInjective(a.id, b.id);
    } else if a.Artifact? && b.Progress? {
      assert PathName(a)[0] == 'a' != PathName(b)[0];
    } else if a.Progress? && b.Artifact? {
      assert PathName(b)[0] == 'a' != PathName(a)[0];
    }
  }

  /** load_progress: the stripped checkpoint read as an integer, 1 when the file is absent or not an integer. */
  function Checkpoint(files: map<Path, string>): int
  {
    if Progress in files then
      match ParseInt(Strip(files[Progress]))
      case Some(id) => id
      case None => 1
    else 1
  }

  /** Loading after saving any integer k gives k back. */
  lemma CheckpointAfterSave(files: map<Path, string>, k: int)
    ensures Checkpoint(files[Progress := IntToString(k)]) == k
  {
    ParseIntToString(k);
  }

  /**
   * load_progress falls back to 1 when the checkpoint is missing, empty
   * after strip(), or holds a character int() does not accept.
   */
  lemma CheckpointDefaults(files: map<Path, string>)
    ensures Progress !in files ==> Checkpoint(files) == 1
    ensures Progress in files && Strip(files[Progress]) == [] ==> Checkpoint(files) == 1
    ensures Progress in files && (exists k: nat :: StrayChar(Strip(files[Progress]), k)) ==> Checkpoint(files) == 1
  {
    if Progress in files {
      ParseIntRejects(Strip(files[Progress]));
    }
  }

  /** A saved id surrounded by any whitespace (a trailing newline, say) still loads as that id. */
  lemma CheckpointReadsStripped(files: map<Path, string>, w1: string, k: int, w2: string)
    requires forall j :: 0 <= j < |w1| ==> IsSpace(w1[j])
    requires forall j :: 0 <= j < |w2| ==> IsSpace(w2[j])
    ensures Checkpoint(files[Progress := w1 + IntToString(k) + w2]) == k
  {
    StripPadded(w1, IntToString(k), w2);
    ParseIntToString(k);
  }

  /** The file store, updated in place as the crawler writes. */
  class Disk {
    var files: map<Path, string>

    constructor (initial: map<Path, string>)
      ensures files == initial
    {
      files := initial;
    }

    /** save_progress: overwrite the checkpoint with str(lastId). */
    method SaveProgress(lastId: int)
      modifies this
      ensures files == old(files)[Progress := IntToString(lastId)]
    {
      files := files[Progress := IntToString(lastId)];
    }

    /** load_progress */
    method LoadProgress() returns (id: int)
      ensures id == Checkpoint(files)
    {
      id := 1;
      if Progress in files {
        var parsed := ParseInt(Strip(files[Progress]));
        if parsed.Some? {
          id := parsed.value;
        }
      }
    }

    /** Write (or overwrite) the artifact of one anime id. */
    method WriteArtifact(id: int, payload: string)
      modifies this
      ensures files == old(files)[Artifact(id) := payload]
    {
      files := files[Artifact(id) := payload];
    }
  }
}
