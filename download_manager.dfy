/**
 * The sequential part of the download coordinator
 * (bot/services/download_manager.py): the in-flight counter bracketed around
 * each download, and the stage-then-move protocol with clean-up on failure.
 * The remote `get_file`, the transfer and `shutil.move` are steps whose
 * outcomes are parameters.
 */
module Downloads {
  import opened Common
  import opened Disk
  import opened FileCatalog
  import Security

  /** What the transfer into the staging file did: wrote the whole file, or failed after writing `partial` (if anything). */
  datatype Transfer = Written(entry: Entry) | Broken(partial: Option<Entry>)

  /** The step whose exception `_download_impl` re-raises. */
  datatype Failure = GetFileFailed | TransferFailed | MoveFailed

  /** The staging name of a final name: `<final>.part`. */
  function PartName(finalName: string): string
  {
    finalName + ".part"
  }

  /**
   * The effect of one `_download_impl` call on the two directories, given the
   * name `generate_filename` chose and the outcomes of the three remote steps.
   */
  ghost predicate Effect(shared0: Dir, tmp0: Dir, shared: Dir, tmp: Dir, sharedDir: Security.Path,
                         finalName: string, getFileOk: bool, transfer: Transfer, moveOk: bool,
                         r: Result<Security.Path, Failure>)
  {
    if !getFileOk then
      r == Err(GetFileFailed) && shared == shared0 && tmp == tmp0
    else if transfer.Written? && moveOk then
      && r == Ok(Security.JoinPath(sharedDir, finalName))
      && shared == shared0[finalName := transfer.entry]
      && tmp == tmp0 - {PartName(finalName)}
    else
      && r == Err(if transfer.Broken? then TransferFailed else MoveFailed)
      && shared == shared0
      && tmp == tmp0 - {PartName(finalName)}
  }

  /** `DownloadManager`: the counter of downloads in progress over the catalog's filesystem. */
  class DownloadManager {
    const fm: FileManager
    const fs: FileSystem
    const sharedDir: Security.Path
    const tmpDir: Security.Path
    var activeDownloads: int

    predicate Valid()
      reads this, fm
    {
      fm.fs == fs && fm.sharedDir == sharedDir
    }

    constructor (fm: FileManager, tmpDir: Security.Path)
      ensures Valid() && this.fm == fm && this.tmpDir == tmpDir
      ensures activeDownloads == 0
    {
      this.fm := fm;
      this.fs := fm.fs;
      this.sharedDir := fm.sharedDir;
      this.tmpDir := tmpDir;
      activeDownloads := 0;
    }

    /** `get_active_count`. */
    function GetActiveCount(): (n: int)
      reads this
      ensures n == activeDownloads
    {
      activeDownloads
    }

    /**
     * `download_video`: one more download in progress for the duration of the
     * call, whatever its outcome; the counter is back where it was afterwards.
     */
    method DownloadVideo(originalName: Option<string>, fileUniqueId: string, mimeType: Option<string>,
                         timestamp: string, getFileOk: bool, transfer: Transfer, moveOk: bool)
      returns (r: Result<Security.Path, Failure>, ghost finalName: string, ghost during: int)
      requires Valid()
      modifies this, fs
      ensures Valid()
      ensures activeDownloads == old(activeDownloads)
      ensures during == old(activeDownloads) + 1
      ensures Effect(old(fs.shared), old(fs.tmp), fs.shared, fs.tmp, sharedDir,
                     finalName, getFileOk, transfer, moveOk, r)
      ensures getFileOk ==>
        var (stem, ext) := NameParts(originalName, fileUniqueId, mimeType, timestamp);
        FreshName(finalName, stem, ext, old(fs.shared))
    {
      activeDownloads := activeDownloads + 1;
      during := activeDownloads;
      r, finalName := DownloadImpl(originalName, fileUniqueId, mimeType, timestamp, getFileOk, transfer, moveOk);
      activeDownloads := activeDownloads - 1;
    }

    /** The name `generate_filename` picks from `stem` and `ext`: the first candidate free in `shared`. */
    ghost predicate FreshName(finalName: string, stem: string, ext: string, shared: Dir)
    {
      exists n: nat :: n <= |shared|
        && finalName == Candidate(stem, n, ext)
        && finalName !in shared
        && forall k :: 0 <= k < n ==> Candidate(stem, k, ext) in shared
    }

    /**
     * `_download_impl`: name the file, stage it as `<name>.part` in the
     * temporary directory, move it into the shared directory, and on any
     * failure remove the staging file if it exists before reporting the step
     * that failed. A failing `get_file` comes before any path exists and
     * touches no file.
     */
    method DownloadImpl(originalName: Option<string>, fileUniqueId: string, mimeType: Option<string>,
                        timestamp: string, getFileOk: bool, transfer: Transfer, moveOk: bool)
      returns (r: Result<Security.Path, Failure>, ghost finalName: string)
      requires Valid()
      modifies fs
      ensures Effect(old(fs.shared), old(fs.tmp), fs.shared, fs.tmp, sharedDir,
                     finalName, getFileOk, transfer, moveOk, r)
      ensures getFileOk ==>
        var (stem, ext) := NameParts(originalName, fileUniqueId, mimeType, timestamp);
        FreshName(finalName, stem, ext, old(fs.shared))
    {
      finalName := "";
      if !getFileOk {
        r := Err(GetFileFailed);
        return;
      }
      var name, n := fm.GenerateFilename(originalName, fileUniqueId, mimeType, timestamp);
      finalName := name;
      var failure := StageAndMove(name, transfer, moveOk);
      if failure.Some? {
        r := Err(failure.value);
        return;
      }
      r := Ok(Security.JoinPath(sharedDir, name));
    }

    /**
     * The part of `_download_impl` after the name is chosen: write
     * `<name>.part` into the temporary directory, move it to `name` in the
     * shared directory, and on failure unlink the staging file if it exists.
     */
    method StageAndMove(name: string, transfer: Transfer, moveOk: bool) returns (failure: Option<Failure>)
      modifies fs
      ensures failure == (if transfer.Broken? then Some(TransferFailed) else if !moveOk then Some(MoveFailed) else None)
      ensures fs.tmp == old(fs.tmp) - {PartName(name)}
      ensures fs.shared == if failure.None? then old(fs.shared)[name := transfer.entry] else old(fs.shared)
    {
      var partName := PartName(name);
      ghost var tmp0 := fs.tmp;
      failure := None;
      match transfer {
        case Written(entry) =>
          fs.tmp := fs.tmp[partName := entry];
          if moveOk {
            fs.tmp := fs.tmp - {partName};
            fs.shared := fs.shared[name := entry];
            StageThenRemove(tmp0, partName, entry);
          } else {
            failure := Some(MoveFailed);
          }
        case Broken(partial) =>
          if partial.Some? {
            fs.tmp := fs.tmp[partName := partial.value];
          }
          failure := Some(TransferFailed);
      }

      if failure.Some? {
        if partName in fs.tmp {
          fs.tmp := fs.tmp - {partName};
        }
        assert fs.tmp == tmp0 - {partName};
      }
    }
  }

  /** Staging an entry and then removing it leaves the directory as if the name had been removed. */
  lemma StageThenRemove(tmp: Dir, part: string, e: Entry)
    ensures tmp[part := e] - {part} == tmp - {part}
  {
  }

  /**
   * Where a download lands: the staging file is a direct child of the
   * temporary directory, and the returned path is a direct child of the
   * shared directory that passes `is_safe_path`. `NamePartsArePlain` gives
   * the requirement on `stem` and `ext` for the parts `generate_filename` uses.
   */
  lemma DownloadPathsContained(sharedDir: Security.Path, tmpDir: Security.Path, stem: string, ext: string, n: nat)
    requires stem != "" && stem[0] != '.' && '/' !in stem && '/' !in ext
    ensures var finalName := Candidate(stem, n, ext);
      && Security.JoinPath(sharedDir, finalName) == sharedDir + [finalName]
      && Security.IsSafePath(sharedDir, Security.JoinPath(sharedDir, finalName))
      && Security.JoinPath(tmpDir, PartName(finalName)) == tmpDir + [PartName(finalName)]
  {
    var finalName := Candidate(stem, n, ext);
    CandidateIsChild(stem, n, ext);
    Security.JoinChild(sharedDir, finalName);
    Security.ChildIsSafe(sharedDir, finalName);
    var part := PartName(finalName);
    assert part[0] == finalName[0];
    assert '/' !in part;
    Security.JoinChild(tmpDir, part);
  }

  /**
   * A download that succeeds adds exactly one entry to the shared directory,
   * the written file under its final name, leaves every other entry as it was,
   * and leaves no staging file behind.
   */
  lemma SuccessAddsOneFile(shared0: Dir, tmp0: Dir, shared: Dir, tmp: Dir, sharedDir: Security.Path,
                           finalName: string, transfer: Transfer, r: Result<Security.Path, Failure>)
    requires Effect(shared0, tmp0, shared, tmp, sharedDir, finalName, true, transfer, true, r)
    requires finalName !in shared0 && r.Ok?
    ensures |shared.Keys| == |shared0.Keys| + 1
    ensures transfer.Written? && finalName in shared && shared[finalName] == transfer.entry
    ensures forall n :: n in shared0 ==> n in shared && shared[n] == shared0[n]
    ensures PartName(finalName) !in tmp
  {
    assert shared.Keys == shared0.Keys + {finalName};
  }
}
