/**
 * The file catalog (bot/services/file_manager.py): listing, pagination, the
 * id-to-name cache, lookup, deletion, collision-free name generation and the
 * folder statistics, over the shared directory of a `Disk.FileSystem`.
 */
module FileCatalog {
  import opened Common
  import opened Text
  import opened Disk
  import Security

  /** `FileInfo`: what the bot shows of one stored file. */
  datatype FileInfo = FileInfo(name: string, size: nat, mtime: int, fileId: string)

  /** The `FileInfo` built from a directory entry; `idOf` stands for the truncated md5 of the name. */
  function InfoOf(idOf: string -> string, name: string, e: Entry): (f: FileInfo)
    ensures f.name == name && f.fileId == idOf(name)
  {
    FileInfo(name, e.size, e.mtime, idOf(name))
  }

  /** Names of the regular files in a directory. */
  function RegularNames(dir: Dir): set<string>
  {
    set n | n in dir && dir[n].isFile
  }

  /** Ids of the regular files in a directory. */
  function RegularIds(dir: Dir, idOf: string -> string): set<string>
  {
    set n | n in dir && dir[n].isFile :: idOf(n)
  }

  /** The names occurring in a list of file infos. */
  function Names(files: seq<FileInfo>): set<string>
  {
    set f | f in files :: f.name
  }

  /** Newest modification time first. */
  predicate NewestFirst(files: seq<FileInfo>)
  {
    forall i, j :: 0 <= i < j < |files| ==> files[i].mtime >= files[j].mtime
  }

  /** Each element describes a regular file of `dir`, as read from its entry. */
  predicate DescribesRegularFiles(files: seq<FileInfo>, dir: Dir, idOf: string -> string)
  {
    forall f :: f in files ==> f.name in dir && dir[f.name].isFile && f == InfoOf(idOf, f.name, dir[f.name])
  }

  /** `all_files` after the scan and sort of `list_files`: every regular file once, newest first. */
  predicate IsListing(all: seq<FileInfo>, dir: Dir, idOf: string -> string)
  {
    && DescribesRegularFiles(all, dir, idOf)
    && Names(all) == RegularNames(dir)
    && |all| == |RegularNames(dir)|
    && NewestFirst(all)
  }

  // ---------------------------------------------------------------------------
  // scan and sort

  /** The directory scan of `list_files`: one `FileInfo` per regular file, in `iterdir` order. */
  method Scan(dir: Dir, idOf: string -> string) returns (files: seq<FileInfo>)
    ensures DescribesRegularFiles(files, dir, idOf)
    ensures Names(files) == RegularNames(dir)
    ensures |files| == |RegularNames(dir)|
  {
    files := [];
    var remaining := dir.Keys;
    while remaining != {}
      invariant remaining <= dir.Keys
      invariant ScannedSoFar(files, dir, idOf, remaining)
      decreases |remaining|
    {
      var n :| n in remaining;
      files := ScanStep(files, dir, idOf, remaining, n);
      remaining := remaining - {n};
    }
  }

  /** After visiting every entry except `remaining`: the regular files visited, each once. */
  predicate ScannedSoFar(files: seq<FileInfo>, dir: Dir, idOf: string -> string, remaining: set<string>)
  {
    && DescribesRegularFiles(files, dir, idOf)
    && Names(files) == RegularNames(dir) - remaining
    && |files| == |Names(files)|
  }

  /** Visiting one more entry of the scan: a regular file is appended, anything else is skipped. */
  function ScanStep(files: seq<FileInfo>, dir: Dir, idOf: string -> string, remaining: set<string>, n: string)
    : (r: seq<FileInfo>)
    requires remaining <= dir.Keys && n in remaining
    requires ScannedSoFar(files, dir, idOf, remaining)
    ensures ScannedSoFar(r, dir, idOf, remaining - {n})
  {
    VisitedNames(dir, remaining, n);
    if dir[n].isFile then
      var f := InfoOf(idOf, n, dir[n]);
      AppendDescribed(files, f, dir, idOf);
      files + [f]
    else files
  }

  /** Visiting one more entry adds its name to the visited regular names exactly when it is a regular file. */
  lemma VisitedNames(dir: Dir, remaining: set<string>, n: string)
    requires remaining <= dir.Keys && n in remaining
    ensures RegularNames(dir) - (remaining - {n})
      == (RegularNames(dir) - remaining) + (if dir[n].isFile then {n} else {})
    ensures n !in RegularNames(dir) - remaining
  {
  }

  /** Appending a description of a regular file keeps the list describing regular files and adds its name. */
  lemma AppendDescribed(files: seq<FileInfo>, f: FileInfo, dir: Dir, idOf: string -> string)
    requires DescribesRegularFiles(files, dir, idOf)
    requires f.name in dir && dir[f.name].isFile && f == InfoOf(idOf, f.name, dir[f.name])
    ensures DescribesRegularFiles(files + [f], dir, idOf)
    ensures Names(files + [f]) == Names(files) + {f.name}
  {
    assert forall g :: g in files + [f] ==> g in files || g == f;
  }

  /** Places `f` after every element at least as new, so equal times keep their scan order. */
  function InsertNewestFirst(sorted: seq<FileInfo>, f: FileInfo): (r: seq<FileInfo>)
    ensures |r| == |sorted| + 1 && f in r
    ensures forall g :: g in sorted ==> g in r
    decreases |sorted|
  {
    if sorted == [] || sorted[0].mtime < f.mtime then [f] + sorted
    else [sorted[0]] + InsertNewestFirst(sorted[1..], f)
  }

  /** The number of leading elements at least as new as `f`: where `f` belongs. */
  function InsertionPoint(sorted: seq<FileInfo>, f: FileInfo): (k: nat)
    ensures k <= |sorted|
    ensures forall i :: 0 <= i < k ==> sorted[i].mtime >= f.mtime
    ensures k < |sorted| ==> sorted[k].mtime < f.mtime
    decreases |sorted|
  {
    if sorted == [] || sorted[0].mtime < f.mtime then 0
    else 1 + InsertionPoint(sorted[1..], f)
  }

  /** `f` goes in at its insertion point; the other elements keep their order. */
  lemma {:induction false} InsertNewestFirstPosition(sorted: seq<FileInfo>, f: FileInfo)
    ensures InsertNewestFirst(sorted, f)
      == sorted[..InsertionPoint(sorted, f)] + [f] + sorted[InsertionPoint(sorted, f)..]
    decreases |sorted|
  {
    if sorted == [] || sorted[0].mtime < f.mtime {
      assert sorted[..0] == [] && sorted[0..] == sorted;
    } else {
      var tail := sorted[1..];
      var k := InsertionPoint(tail, f);
      assert InsertionPoint(sorted, f) == k + 1;
      assert InsertNewestFirst(sorted, f) == [sorted[0]] + InsertNewestFirst(tail, f);
      InsertNewestFirstPosition(tail, f);
      ConsInsert(sorted, k, f);
    }
  }

  /** Inserting behind the head of a sequence is inserting one position further into its tail. */
  lemma ConsInsert<T>(s: seq<T>, k: nat, x: T)
    requires 0 <= k < |s|
    ensures [s[0]] + (s[1..][..k] + [x] + s[1..][k..]) == s[..k + 1] + [x] + s[k + 1..]
  {
    assert s[..k + 1] == [s[0]] + s[1..][..k];
    assert s[k + 1..] == s[1..][k..];
  }

  /** Insertion adds exactly the one element. */
  lemma {:induction false} InsertNewestFirstAdds(sorted: seq<FileInfo>, f: FileInfo)
    ensures multiset(InsertNewestFirst(sorted, f)) == multiset(sorted) + multiset{f}
    decreases |sorted|
  {
    if sorted != [] && sorted[0].mtime >= f.mtime {
      InsertNewestFirstAdds(sorted[1..], f);
      assert sorted == [sorted[0]] + sorted[1..];
    }
  }

  /** Inserting keeps every modification time at most `b` when `f` and all of `sorted` are. */
  lemma {:induction false} InsertNewestFirstBounded(sorted: seq<FileInfo>, f: FileInfo, b: int)
    requires forall k :: 0 <= k < |sorted| ==> sorted[k].mtime <= b
    requires f.mtime <= b
    ensures forall k :: 0 <= k < |InsertNewestFirst(sorted, f)| ==> InsertNewestFirst(sorted, f)[k].mtime <= b
    decreases |sorted|
  {
    if sorted != [] && sorted[0].mtime >= f.mtime {
      InsertNewestFirstBounded(sorted[1..], f, b);
    }
  }

  /** Insertion into a newest-first list keeps it newest first. */
  lemma {:induction false} InsertNewestFirstSorted(sorted: seq<FileInfo>, f: FileInfo)
    requires NewestFirst(sorted)
    ensures NewestFirst(InsertNewestFirst(sorted, f))
    decreases |sorted|
  {
    if sorted != [] && sorted[0].mtime >= f.mtime {
      var tail := sorted[1..];
      var rest := InsertNewestFirst(tail, f);
      InsertNewestFirstSorted(tail, f);
      InsertNewestFirstBounded(tail, f, sorted[0].mtime);
      var r := [sorted[0]] + rest;
      forall i, j | 0 <= i < j < |r|
        ensures r[i].mtime >= r[j].mtime
      {
        assert r[j] == rest[j - 1];
        if i > 0 {
          assert r[i] == rest[i - 1];
        }
      }
    }
  }

  /** `all_files.sort(key=mtime, reverse=True)`: newest first, same elements. */
  method SortNewestFirst(files: seq<FileInfo>) returns (sorted: seq<FileInfo>)
    ensures NewestFirst(sorted)
    ensures multiset(sorted) == multiset(files)
  {
    sorted := [];
    for i := 0 to |files|
      invariant NewestFirst(sorted)
      invariant multiset(sorted) == multiset(files[..i])
    {
      InsertNewestFirstSorted(sorted, files[i]);
      InsertNewestFirstAdds(sorted, files[i]);
      sorted := InsertNewestFirst(sorted, files[i]);
      assert files[..i + 1] == files[..i] + [files[i]];
    }
    assert files[..|files|] == files;
  }

  /** Sorting a scan gives a listing. */
  lemma SortedScanIsListing(scanned: seq<FileInfo>, sorted: seq<FileInfo>, dir: Dir, idOf: string -> string)
    requires DescribesRegularFiles(scanned, dir, idOf)
    requires Names(scanned) == RegularNames(dir) && |scanned| == |RegularNames(dir)|
    requires NewestFirst(sorted) && multiset(sorted) == multiset(scanned)
    ensures IsListing(sorted, dir, idOf)
  {
    assert forall f :: f in sorted <==> f in scanned by {
      forall f ensures f in sorted <==> f in scanned {
        assert f in sorted <==> f in multiset(sorted);
        assert f in scanned <==> f in multiset(scanned);
      }
    }
    assert |sorted| == |multiset(sorted)| == |multiset(scanned)| == |scanned|;
  }

  // ---------------------------------------------------------------------------
  // pagination

  /** `total_pages`: the number of pages of `pageSize` entries, at least one. */
  function TotalPages(totalFiles: nat, pageSize: nat): (pages: nat)
    requires pageSize >= 1
    ensures pages >= 1
    ensures totalFiles > 0 ==> (pages - 1) * pageSize < totalFiles <= pages * pageSize
    ensures totalFiles == 0 ==> pages == 1
  {
    if totalFiles > 0 then
      var q, r := (totalFiles + pageSize - 1) / pageSize, (totalFiles + pageSize - 1) % pageSize;
      assert totalFiles + pageSize - 1 == q * pageSize + r;
      assert (q - 1) * pageSize == q * pageSize - pageSize;
      q
    else 1
  }

  /** Python's treatment of a slice bound: negative counts from the end, then clamp to the length. */
  function ClampIndex(i: int, len: nat): (k: nat)
    ensures k <= len
    ensures 0 <= i ==> k == Min(i, len)
    ensures i < 0 && i + len >= 0 ==> k == i + len
    ensures i + len < 0 ==> k == 0
  {
    if i < 0 then (if len + i < 0 then 0 else len + i)
    else if i > len then len
    else i
  }

  /**
   * Python's `s[start:stop]`: at most all of `s`; empty when `stop <= start`
   * and the bounds have the same sign (a negative stop may still be past a
   * non-negative start); the clamped slice when both bounds are non-negative.
   */
  function PySlice<T>(s: seq<T>, start: int, stop: int): (r: seq<T>)
    ensures |r| <= |s|
    ensures 0 <= stop <= start ==> r == []
    ensures stop <= start < 0 ==> r == []
    ensures 0 <= start <= stop ==> r == s[Min(start, |s|)..Min(stop, |s|)]
  {
    var a, b := ClampIndex(start, |s|), ClampIndex(stop, |s|);
    if a < b then s[a..b] else []
  }

  /** The page slice of `list_files`: `all_files[page*size : page*size + size]`. */
  function PageOf(all: seq<FileInfo>, page: int, pageSize: nat): (r: seq<FileInfo>)
    requires pageSize >= 1
    ensures |r| <= pageSize
    ensures forall f :: f in r ==> f in all
  {
    var start := page * pageSize;
    PySlice(all, start, start + pageSize)
  }

  function Min(a: int, b: int): int { if a <= b then a else b }

  /**
   * For a non-negative page, the page is exactly the entries from page*size on,
   * at most `pageSize` of them, and is empty once the page is past the end.
   */
  lemma PageOfNonNegative(all: seq<FileInfo>, page: nat, pageSize: nat)
    requires pageSize >= 1
    ensures var lo := Min(page * pageSize, |all|);
      var hi := Min(page * pageSize + pageSize, |all|);
      PageOf(all, page, pageSize) == all[lo..hi]
    ensures page >= TotalPages(|all|, pageSize) ==> PageOf(all, page, pageSize) == []
  {
    var start: nat := page * pageSize;
    var t := TotalPages(|all|, pageSize);
    if page >= t {
      MulMonotone(page, t, pageSize);
    }
  }

  lemma MulMonotone(a: nat, b: nat, c: nat)
    requires a >= b
    ensures a * c >= b * c
  {
    assert a * c == b * c + (a - b) * c;
  }

  /** Page -1 is always empty: its stop bound is 0. */
  lemma PageMinusOneEmpty(all: seq<FileInfo>, pageSize: nat)
    requires pageSize >= 1
    ensures PageOf(all, -1, pageSize) == []
  {
  }

  /**
   * A page index below -1 is not empty in general: with 15 files and pages of
   * 10, page -2 is Python's `all_files[-20:-10]`, the five newest files.
   */
  lemma PageMinusTwoWraps(all: seq<FileInfo>)
    requires |all| == 15
    ensures PageOf(all, -2, 10) == all[0..5]
  {
  }

  /** The first `k` pages, one after the other. */
  function FirstPages(all: seq<FileInfo>, pageSize: nat, k: nat): seq<FileInfo>
    requires pageSize >= 1
  {
    if k == 0 then [] else FirstPages(all, pageSize, k - 1) + PageOf(all, k - 1, pageSize)
  }

  lemma {:induction false} FirstPagesPrefix(all: seq<FileInfo>, pageSize: nat, k: nat)
    requires pageSize >= 1
    ensures FirstPages(all, pageSize, k) == all[..Min(k * pageSize, |all|)]
  {
    if k > 0 {
      FirstPagesPrefix(all, pageSize, k - 1);
      PageOfNonNegative(all, k - 1, pageSize);
      assert (k - 1) * pageSize + pageSize == k * pageSize;
      var a, b := Min((k - 1) * pageSize, |all|), Min(k * pageSize, |all|);
      assert all[..a] + all[a..b] == all[..b];
    }
  }

  /** Pages 0 .. total_pages-1 together are the whole listing, so their lengths add up to the file count. */
  lemma PagesCoverListing(all: seq<FileInfo>, pageSize: nat)
    requires pageSize >= 1
    ensures FirstPages(all, pageSize, TotalPages(|all|, pageSize)) == all
    ensures |FirstPages(all, pageSize, TotalPages(|all|, pageSize))| == |all|
  {
    var t := TotalPages(|all|, pageSize);
    FirstPagesPrefix(all, pageSize, t);
    if |all| == 0 {
    } else {
      assert t * pageSize >= |all|;
    }
  }

  /** Twelve files in pages of ten: two pages, of ten and two entries. */
  lemma TwelveFilesInPagesOfTen(all: seq<FileInfo>)
    requires |all| == 12
    ensures TotalPages(12, 10) == 2
    ensures |PageOf(all, 0, 10)| == 10 && |PageOf(all, 1, 10)| == 2
  {
    PageOfNonNegative(all, 0, 10);
    PageOfNonNegative(all, 1, 10);
  }

  // ---------------------------------------------------------------------------
  // names and extensions

  /** The MIME-type table of `_extension_from_mime`. */
  const MimeExtensions: map<string, string> := map[
    "video/mp4" := "mp4",
    "video/mpeg" := "mpeg",
    "video/quicktime" := "mov",
    "video/x-msvideo" := "avi",
    "video/x-matroska" := "mkv",
    "video/webm" := "webm"
  ]

  /** `_extension_from_mime`: the table's extension, "mp4" for a missing, empty or unknown type. */
  function ExtensionFromMime(mimeType: Option<string>): (ext: string)
    ensures ext in MimeExtensions.Values
    ensures mimeType.None? || mimeType.value !in MimeExtensions ==> ext == "mp4"
    ensures '.' !in ext && '/' !in ext && |ext| > 0
  {
    assert MimeExtensions["video/mp4"] == "mp4";
    if mimeType.None? || mimeType.value == "" then "mp4"
    else if mimeType.value in MimeExtensions then
      assert forall k :: k in MimeExtensions ==> '.' !in MimeExtensions[k] && '/' !in MimeExtensions[k];
      MimeExtensions[mimeType.value]
    else "mp4"
  }

  /** The six listed types map to their extensions. */
  lemma ExtensionTable()
    ensures ExtensionFromMime(Some("video/mp4")) == "mp4"
    ensures ExtensionFromMime(Some("video/mpeg")) == "mpeg"
    ensures ExtensionFromMime(Some("video/quicktime")) == "mov"
    ensures ExtensionFromMime(Some("video/x-msvideo")) == "avi"
    ensures ExtensionFromMime(Some("video/x-matroska")) == "mkv"
    ensures ExtensionFromMime(Some("video/webm")) == "webm"
  {
  }

  /** Index of the last occurrence of `c` in `s`, if any. */
  function LastIndexOf(s: string, c: char): (i: Option<nat>)
    ensures i.Some? ==> i.value < |s| && s[i.value] == c && c !in s[i.value + 1..]
    ensures i.None? ==> c !in s
    decreases |s|
  {
    if s == [] then None
    else if s[|s| - 1] == c then Some(|s| - 1)
    else
      var i := LastIndexOf(s[..|s| - 1], c);
      assert i.Some? ==> s[i.value + 1..] == s[..|s| - 1][i.value + 1..] + [s[|s| - 1]];
      assert i.None? ==> s == s[..|s| - 1] + [s[|s| - 1]];
      i
  }

  /** `s.rsplit('.', 1)` on a name containing a dot: the text before and after its last dot. */
  function SplitExtension(s: string): (parts: (string, string))
    requires '.' in s
    ensures parts.0 + "." + parts.1 == s
    ensures '.' !in parts.1
  {
    var i := LastIndexOf(s, '.');
    var stem, ext := s[..i.value], s[i.value + 1..];
    assert s == stem + [s[i.value]] + ext;
    (stem, ext)
  }

  /** Python's `s[:8]`: the first eight characters, or all of a shorter text. */
  function Prefix8(s: string): (r: string)
    ensures |r| == if |s| <= 8 then |s| else 8
    ensures r <= s
  {
    if |s| <= 8 then s else s[..8]
  }

  /**
   * The base name and extension `generate_filename` settles on: those of the
   * sanitised original name, or a `<timestamp>_<first 8 of the unique id>` stem;
   * the extension is the text after the last dot or else comes from the MIME type.
   */
  function NameParts(originalName: Option<string>, fileUniqueId: string, mimeType: Option<string>, timestamp: string): (parts: (string, string))
    ensures originalName.Some? && originalName.value != "" && '.' in Security.SanitizeFilename(originalName.value) ==>
      && parts.0 + "." + parts.1 == Security.SanitizeFilename(originalName.value)
      && '.' !in parts.1
    ensures originalName.Some? && originalName.value != "" && '.' !in Security.SanitizeFilename(originalName.value) ==>
      parts == (Security.SanitizeFilename(originalName.value), ExtensionFromMime(mimeType))
    ensures !(originalName.Some? && originalName.value != "") ==>
      && parts.1 == ExtensionFromMime(mimeType)
      && |parts.0| == |timestamp| + 1 + (if |fileUniqueId| <= 8 then |fileUniqueId| else 8)
      && parts.0[..|timestamp| + 1] == timestamp + "_"
      && parts.0[|timestamp| + 1..] <= fileUniqueId
  {
    if originalName.Some? && originalName.value != "" then
      var base := Security.SanitizeFilename(originalName.value);
      if '.' in base then SplitExtension(base)
      else (base, ExtensionFromMime(mimeType))
    else
      (timestamp + "_" + Prefix8(fileUniqueId), ExtensionFromMime(mimeType))
  }

  /** The n-th name tried: `base.ext`, then `base (n).ext`. */
  function Candidate(stem: string, n: nat, ext: string): string
  {
    if n == 0 then stem + "." + ext
    else stem + " (" + NatToString(n) + ")." + ext
  }

  /** An original name with an extension is kept as sanitised when it is free. */
  lemma FirstCandidateKeepsName(originalName: string, fileUniqueId: string, mimeType: Option<string>, timestamp: string)
    requires originalName != "" && '.' in Security.SanitizeFilename(originalName)
    ensures var (stem, ext) := NameParts(Some(originalName), fileUniqueId, mimeType, timestamp);
      Candidate(stem, 0, ext) == Security.SanitizeFilename(originalName)
  {
  }

  /** Different counters give different names, so the collision loop never retries a name. */
  lemma CandidatesDistinct(stem: string, ext: string, i: nat, j: nat)
    requires i != j
    ensures Candidate(stem, i, ext) != Candidate(stem, j, ext)
  {
    var ci, cj := Candidate(stem, i, ext), Candidate(stem, j, ext);
    if i == 0 || j == 0 {
      assert |ci| != |cj|;
    } else {
      var a := |stem| + 2;
      var x, y := NatToString(i), NatToString(j);
      assert ci == stem + " (" + x + ")." + ext;
      assert cj == stem + " (" + y + ")." + ext;
      if |x| == |y| {
        NatToStringInjective(i, j);
        var k :| 0 <= k < |x| && x[k] != y[k];
        assert ci[a + k] == x[k] && cj[a + k] == y[k];
      } else if |x| < |y| {
        assert ci[a + |x|] == ')' && cj[a + |x|] == y[|x|];
        assert IsDigit(y[|x|]);
      } else {
        assert cj[a + |y|] == ')' && ci[a + |y|] == x[|y|];
        assert IsDigit(x[|y|]);
      }
    }
  }

  /** A stem that is a plain name gives candidates that are plain child names. */
  lemma CandidateIsChild(stem: string, n: nat, ext: string)
    requires stem != "" && stem[0] != '.' && '/' !in stem && '/' !in ext
    ensures var c := Candidate(stem, n, ext);
      Security.IsChildName(c) && '/' !in c
  {
    var c := Candidate(stem, n, ext);
    assert c[0] == stem[0];
    assert c != "." && c != ".." by { assert |c| >= 2 ==> c[1..] != [] ; }
    if n > 0 {
      assert forall k :: 0 <= k < |NatToString(n)| ==> NatToString(n)[k] != '/';
    }
  }

  /**
   * The stem and extension chosen for an upload make plain child names: always
   * when an original name is given, and in the timestamp branch when neither the
   * timestamp nor the unique id holds '/' and the timestamp does not start with a dot.
   */
  lemma NamePartsArePlain(originalName: Option<string>, fileUniqueId: string, mimeType: Option<string>, timestamp: string)
    requires (originalName.Some? && originalName.value != "")
      || ('/' !in timestamp && '/' !in fileUniqueId && timestamp != "" && timestamp[0] != '.')
    ensures var (stem, ext) := NameParts(originalName, fileUniqueId, mimeType, timestamp);
      stem != "" && stem[0] != '.' && '/' !in stem && '/' !in ext
  {
    if originalName.Some? && originalName.value != "" {
      var base := Security.SanitizeFilename(originalName.value);
      Security.SanitizeIsSafe(originalName.value);
      if '.' in base {
        var (stem, ext) := SplitExtension(base);
        assert base == stem + "." + ext;
        assert stem != "";
        assert base[0] == stem[0];
        assert forall ch :: ch in stem || ch in ext ==> ch in base;
      }
    } else {
      var id8 := Prefix8(fileUniqueId);
      assert forall ch :: ch in id8 ==> ch in fileUniqueId;
    }
  }

  /** The first `n` candidate names. */
  function CandidateSet(stem: string, ext: string, n: nat): set<string>
  {
    set k | 0 <= k < n :: Candidate(stem, k, ext)
  }

  lemma {:induction false} CandidateSetSize(stem: string, ext: string, n: nat)
    ensures |CandidateSet(stem, ext, n)| == n
  {
    if n > 0 {
      CandidateSetSize(stem, ext, n - 1);
      forall k | 0 <= k < n - 1
        ensures Candidate(stem, k, ext) != Candidate(stem, n - 1, ext)
      {
        CandidatesDistinct(stem, ext, k, n - 1);
      }
      assert CandidateSet(stem, ext, n) == CandidateSet(stem, ext, n - 1) + {Candidate(stem, n - 1, ext)};
    }
  }

  /** If the first `n` candidates all exist, the directory has at least `n` entries: the loop is bounded. */
  lemma CandidatesFillDirectory(stem: string, ext: string, n: nat, dir: Dir)
    requires forall k :: 0 <= k < n ==> Candidate(stem, k, ext) in dir
    ensures n <= |dir|
  {
    CandidateSetSize(stem, ext, n);
    SubsetSize(CandidateSet(stem, ext, n), dir.Keys);
    assert |dir.Keys| == |dir|;
  }

  lemma {:induction false} SubsetSize<T>(a: set<T>, b: set<T>)
    requires a <= b
    ensures |a| <= |b|
    decreases a
  {
    if a != {} {
      var x :| x in a;
      SubsetSize(a - {x}, b - {x});
    }
  }

  // ---------------------------------------------------------------------------
  // folder statistics

  /** Sum of the sizes of the named entries. */
  ghost function SizeOf(dir: Dir, names: set<string>): nat
    requires names <= dir.Keys
    decreases names
  {
    if names == {} then 0
    else
      var n :| n in names;
      dir[n].size + SizeOf(dir, names - {n})
  }

  /** The sum does not depend on which name is taken first. */
  lemma {:induction false} SizeOfRemove(dir: Dir, names: set<string>, x: string)
    requires names <= dir.Keys && x in names
    ensures SizeOf(dir, names) == dir[x].size + SizeOf(dir, names - {x})
    decreases names
  {
    var n :| n in names && SizeOf(dir, names) == dir[n].size + SizeOf(dir, names - {n});
    if n != x {
      SizeOfRemove(dir, names - {n}, x);
      SizeOfRemove(dir, names - {x}, n);
      assert names - {n} - {x} == names - {x} - {n};
    }
  }

  /** Visiting one more entry adds one to the count and its size to the total exactly when it is a regular file. */
  lemma TallyStep(dir: Dir, remaining: set<string>, n: string)
    requires remaining <= dir.Keys && n in remaining
    ensures var before, after := RegularNames(dir) - remaining, RegularNames(dir) - (remaining - {n});
      && |after| == |before| + (if dir[n].isFile then 1 else 0)
      && SizeOf(dir, after) == SizeOf(dir, before) + (if dir[n].isFile then dir[n].size else 0)
  {
    VisitedNames(dir, remaining, n);
    if dir[n].isFile {
      var after := RegularNames(dir) - (remaining - {n});
      SizeOfRemove(dir, after, n);
      assert after - {n} == RegularNames(dir) - remaining;
    }
  }

  // ---------------------------------------------------------------------------
  // the manager

  /** The name cached for an id; the empty name counts as missing, as `if not filename` does. */
  function CachedName(cache: map<string, string>, fileId: string): (name: Option<string>)
    ensures name.Some? ==> fileId in cache && name.value == cache[fileId] && name.value != ""
    ensures name.None? ==> fileId !in cache || cache[fileId] == ""
  {
    if fileId in cache && cache[fileId] != "" then Some(cache[fileId]) else None
  }

  /** The cache right after a listing: exactly the ids of the regular files, each mapped to a file with that id. */
  ghost predicate CacheReflects(cache: map<string, string>, dir: Dir, idOf: string -> string)
  {
    && cache.Keys == RegularIds(dir, idOf)
    && forall id :: id in cache ==> cache[id] in dir && dir[cache[id]].isFile && idOf(cache[id]) == id
  }

  /** The ids occurring in a list of file infos. */
  function Ids(files: seq<FileInfo>): set<string>
  {
    set f | f in files :: f.fileId
  }

  /** The cache part-way through its rebuild: the ids of `files` so far, each mapped to a regular file with that id. */
  ghost predicate CacheCovers(cache: map<string, string>, files: seq<FileInfo>, dir: Dir, idOf: string -> string)
  {
    && cache.Keys == Ids(files)
    && forall id :: id in cache ==> cache[id] in dir && dir[cache[id]].isFile && idOf(cache[id]) == id
  }

  /** Entering one more listed file into the cache covers one more element of the listing. */
  lemma CacheCoversAppend(cache: map<string, string>, files: seq<FileInfo>, f: FileInfo, dir: Dir, idOf: string -> string)
    requires CacheCovers(cache, files, dir, idOf)
    requires f.name in dir && dir[f.name].isFile && f.fileId == idOf(f.name)
    ensures CacheCovers(cache[f.fileId := f.name], files + [f], dir, idOf)
  {
    assert forall g :: g in files + [f] <==> g in files || g == f;
  }

  /** The ids of a listing are exactly the ids of the directory's regular files. */
  lemma ListingIds(all: seq<FileInfo>, dir: Dir, idOf: string -> string)
    requires IsListing(all, dir, idOf)
    ensures Ids(all) == RegularIds(dir, idOf)
  {
    forall id | id in RegularIds(dir, idOf)
      ensures id in Ids(all)
    {
      var n :| n in dir && dir[n].isFile && idOf(n) == id;
      assert n in Names(all);
      var f :| f in all && f.name == n;
    }
  }

  /** `FileManager`: the catalog over the shared directory, with its id-to-name cache. */
  class FileManager {
    const fs: FileSystem
    const sharedDir: Security.Path
    const pageSize: nat
    /** The short id of a name (the first 8 hex digits of its md5). */
    const idOf: string -> string
    var cache: map<string, string>

    ghost predicate Valid()
      reads this
    {
      && 1 <= pageSize <= 50
      && (forall n :: |idOf(n)| == 8)
      && forall id :: id in cache ==> idOf(cache[id]) == id
    }

    constructor (fs: FileSystem, sharedDir: Security.Path, pageSize: nat, idOf: string -> string)
      requires 1 <= pageSize <= 50
      requires forall n :: |idOf(n)| == 8
      ensures Valid()
      ensures this.fs == fs && this.sharedDir == sharedDir && this.pageSize == pageSize && this.idOf == idOf
      ensures cache == map[]
    {
      this.fs := fs;
      this.sharedDir := sharedDir;
      this.pageSize := pageSize;
      this.idOf := idOf;
      cache := map[];
    }

    /**
     * `list_files`: scan, sort newest first, rebuild the cache from scratch,
     * then cut out the requested page.
     */
    method ListFiles(page: int := 0) returns (onPage: seq<FileInfo>, totalFiles: nat, totalPages: nat, ghost all: seq<FileInfo>)
      requires Valid()
      modifies this
      ensures Valid()
      ensures IsListing(all, fs.shared, idOf)
      ensures CacheReflects(cache, fs.shared, idOf)
      ensures totalFiles == |all| == |RegularNames(fs.shared)|
      ensures totalPages == TotalPages(totalFiles, pageSize)
      ensures onPage == PageOf(all, page, pageSize)
    {
      var dir := fs.shared;
      var scanned := Scan(dir, idOf);
      var sorted := SortNewestFirst(scanned);
      SortedScanIsListing(scanned, sorted, dir, idOf);
      all := sorted;

      cache := map[];
      for i := 0 to |sorted|
        invariant CacheCovers(cache, sorted[..i], dir, idOf)
      {
        var f := sorted[i];
        assert f in sorted;
        assert sorted[..i + 1] == sorted[..i] + [f];
        CacheCoversAppend(cache, sorted[..i], f, dir, idOf);
        cache := cache[f.fileId := f.name];
      }
      assert sorted[..|sorted|] == sorted;
      ListingIds(sorted, dir, idOf);

      totalFiles := |sorted|;
      totalPages := if totalFiles > 0 then (totalFiles + pageSize - 1) / pageSize else 1;
      var start := page * pageSize;
      var end := start + pageSize;
      onPage := PySlice(sorted, start, end);
    }

    /**
     * `get_file_by_id`: look the id up in the cache, rebuilding it once on a
     * miss; answer only for a name that exists and passes `is_safe_path`.
     */
    method GetFileById(fileId: string) returns (info: Option<FileInfo>)
      requires Valid()
      modifies this
      ensures Valid()
      ensures CachedName(old(cache), fileId).Some? ==> cache == old(cache)
      ensures CachedName(old(cache), fileId).None? ==> CacheReflects(cache, fs.shared, idOf)
      ensures info.Some? <==>
        var name := CachedName(cache, fileId);
        name.Some? && name.value in fs.shared
        && Security.IsSafePath(sharedDir, Security.JoinPath(sharedDir, name.value))
      ensures info.Some? ==>
        && info.value.name == cache[fileId]
        && info.value == InfoOf(idOf, info.value.name, fs.shared[info.value.name])
        && info.value.fileId == fileId
    {
      var filename := CachedName(cache, fileId);
      if filename.None? {
        var _, _, _, _ := ListFiles();
        filename := CachedName(cache, fileId);
      }
      info := None;
      if filename.Some? {
        var name := filename.value;
        var path := Security.JoinPath(sharedDir, name);
        if name in fs.shared && Security.IsSafePath(sharedDir, path) {
          info := Some(InfoOf(idOf, name, fs.shared[name]));
        }
      }
    }

    /**
     * `delete_file`: look the file up, re-check containment, unlink it and drop
     * its id from the cache. `lookedUp` is the cache the lookup ended with (the
     * old one on a hit, the rebuilt one on a miss) and `removed` the name it
     * gives for the id. Unlinking fails on a directory and on any other I/O
     * error (`ioError`); a failure changes no file.
     */
    method DeleteFile(fileId: string, ioError: bool) returns (ok: bool, ghost lookedUp: map<string, string>, ghost removed: string)
      requires Valid()
      modifies this, fs
      ensures Valid()
      ensures CachedName(old(cache), fileId).Some? ==> lookedUp == old(cache)
      ensures CachedName(old(cache), fileId).None? ==> CacheReflects(lookedUp, old(fs.shared), idOf)
      ensures fs.tmp == old(fs.tmp)
      ensures ok <==>
        && !ioError
        && CachedName(lookedUp, fileId).Some?
        && lookedUp[fileId] in old(fs.shared)
        && Security.IsSafePath(sharedDir, Security.JoinPath(sharedDir, lookedUp[fileId]))
        && old(fs.shared)[lookedUp[fileId]].kind != Directory
      ensures !ok ==> fs.shared == old(fs.shared) && cache == lookedUp
      ensures ok ==>
        && removed == lookedUp[fileId] && idOf(removed) == fileId
        && fs.shared == old(fs.shared) - {removed}
        && cache == lookedUp - {fileId}
    {
      removed := "";
      var info := GetFileById(fileId);
      lookedUp := cache;
      if info.None? {
        return false, lookedUp, removed;
      }
      var name := info.value.name;
      var path := Security.JoinPath(sharedDir, name);
      if !Security.IsSafePath(sharedDir, path) {
        return false, lookedUp, removed;
      }
      if fs.shared[name].kind == Directory || ioError {
        return false, lookedUp, removed;
      }
      removed := name;
      fs.shared := fs.shared - {name};
      cache := cache - {fileId};
      ok := true;
    }

    /**
     * `generate_filename`: the first of `base.ext`, `base (1).ext`, `base (2).ext`, ...
     * that does not exist in the shared directory. The timestamp of the
     * unnamed-upload branch is passed in.
     */
    method GenerateFilename(originalName: Option<string>, fileUniqueId: string, mimeType: Option<string>, timestamp: string)
      returns (filename: string, ghost n: nat)
      ensures var (stem, ext) := NameParts(originalName, fileUniqueId, mimeType, timestamp);
        && filename == Candidate(stem, n, ext)
        && filename !in fs.shared
        && (forall k :: 0 <= k < n ==> Candidate(stem, k, ext) in fs.shared)
        && n <= |fs.shared|
    {
      var (stem, ext) := NameParts(originalName, fileUniqueId, mimeType, timestamp);
      filename, n := FirstFreeCandidate(stem, ext, fs.shared);
    }

    /** The `while target_path.exists()` loop: try `stem.ext`, then `stem (1).ext`, `stem (2).ext`, ... */
    static method FirstFreeCandidate(stem: string, ext: string, dir: Dir) returns (filename: string, ghost n: nat)
      ensures filename == Candidate(stem, n, ext)
      ensures filename !in dir
      ensures forall k :: 0 <= k < n ==> Candidate(stem, k, ext) in dir
      ensures n <= |dir|
    {
      filename := stem + "." + ext;
      var counter := 1;
      while filename in dir
        invariant counter >= 1
        invariant filename == Candidate(stem, counter - 1, ext)
        invariant forall k :: 0 <= k < counter - 1 ==> Candidate(stem, k, ext) in dir
        invariant counter - 1 <= |dir|
        decreases |dir| - (counter - 1)
      {
        CandidatesFillDirectory(stem, ext, counter, dir);
        filename := stem + " (" + NatToString(counter) + ")." + ext;
        counter := counter + 1;
      }
      n := counter - 1;
    }

    /** `get_folder_stats`: the number of regular files and the sum of their sizes. */
    method GetFolderStats() returns (totalFiles: nat, totalSize: nat)
      ensures totalFiles == |RegularNames(fs.shared)|
      ensures totalSize == SizeOf(fs.shared, RegularNames(fs.shared))
    {
      var dir := fs.shared;
      totalFiles, totalSize := 0, 0;
      var remaining := dir.Keys;
      while remaining != {}
        invariant remaining <= dir.Keys
        invariant totalFiles == |RegularNames(dir) - remaining|
        invariant totalSize == SizeOf(dir, RegularNames(dir) - remaining)
        decreases |remaining|
      {
        var n :| n in remaining;
        TallyStep(dir, remaining, n);
        if dir[n].isFile {
          totalFiles := totalFiles + 1;
          totalSize := totalSize + dir[n].size;
        }
        remaining := remaining - {n};
      }
    }
  }
}
