/**
  The local side of the Drive mirror: metadata defaults, the re-download
  decision, the download plan with its byte total, and the effect of a run on
  the local filesystem.
 */
module DriveSync {
  import opened Wrappers
  import opened DriveTree

  // ---------------------------------------------------------------------------
  // Metadata
  // ---------------------------------------------------------------------------

  /** The metadata fields as the Drive API returns them; any may be absent. */
  datatype RawMetadata = RawMetadata(size: Option<nat>, md5Checksum: Option<string>, modifiedTime: Option<string>)

  /** `(size, md5, modified_time)` after defaults are applied. */
  datatype Metadata = Metadata(size: nat, md5: string, modifiedTime: string)

  /**
    `_get_file_metadata`: an absent size reads as 0, an absent checksum or
    timestamp as the empty string.
   */
  function GetFileMetadata(raw: RawMetadata): (m: Metadata)
    ensures raw.size.Some? ==> m.size == raw.size.value
    ensures raw.size.None? ==> m.size == 0
    ensures raw.md5Checksum.Some? ==> m.md5 == raw.md5Checksum.value
    ensures raw.md5Checksum.None? ==> m.md5 == ""
    ensures raw.modifiedTime.Some? ==> m.modifiedTime == raw.modifiedTime.value
    ensures raw.modifiedTime.None? ==> m.modifiedTime == ""
  {
    Metadata(raw.size.GetOr(0), raw.md5Checksum.GetOr(""), raw.modifiedTime.GetOr(""))
  }

  /**
    An absent field is indistinguishable from a present default, and fields
    Drive does send come back unchanged.
   */
  lemma MetadataDefaults(raw: RawMetadata, m: Metadata)
    ensures GetFileMetadata(raw.(size := None)) == GetFileMetadata(raw.(size := Some(0)))
    ensures GetFileMetadata(raw.(md5Checksum := None)) == GetFileMetadata(raw.(md5Checksum := Some("")))
    ensures GetFileMetadata(raw.(modifiedTime := None)) == GetFileMetadata(raw.(modifiedTime := Some("")))
    ensures GetFileMetadata(RawMetadata(Some(m.size), Some(m.md5), Some(m.modifiedTime))) == m
  {
  }

  /** The metadata service: a fixed function of the file id during a run. */
  type MetadataService = string -> RawMetadata

  function MetaOf(meta: MetadataService, x: Item): Metadata {
    GetFileMetadata(meta(x.id))
  }

  // ---------------------------------------------------------------------------
  // Local filesystem and the re-download decision
  // ---------------------------------------------------------------------------

  /** A local file as the decision sees it: its size and the MD5 digest of its content. */
  datatype LocalFile = LocalFile(size: nat, digest: string)

  /** The local filesystem: the directories that exist and the files by full path. */
  datatype LocalFs = LocalFs(dirs: set<Path>, files: map<Path, LocalFile>)

  /** `local_folder / path / name`, composed explicitly. */
  function LocalPath(root: Path, x: Item): Path {
    root + x.path + [x.name]
  }

  /** Why a file is (or is not) fetched again. */
  datatype Verdict = Missing | SizeMismatch | HashMismatch | UpToDate

  /**
    The checks of `_needs_download`, in their order: existence, then size,
    then (only with a non-empty remote checksum) the digest.
   */
  function Check(files: map<Path, LocalFile>, full: Path, m: Metadata): (v: Verdict)
    ensures v == Missing <==> full !in files
    ensures v == SizeMismatch <==> full in files && files[full].size != m.size
    ensures v == HashMismatch <==> full in files && files[full].size == m.size && m.md5 != "" && files[full].digest != m.md5
    ensures v == UpToDate <==> full in files && files[full].size == m.size && (m.md5 != "" ==> files[full].digest == m.md5)
  {
    if full !in files then Missing
    else if files[full].size != m.size then SizeMismatch
    else if m.md5 != "" && files[full].digest != m.md5 then HashMismatch
    else UpToDate
  }

  /** `_needs_download` */
  function NeedsDownload(root: Path, fs: LocalFs, meta: MetadataService, x: Item): (r: bool)
    ensures !r <==>
              && LocalPath(root, x) in fs.files
              && fs.files[LocalPath(root, x)].size == MetaOf(meta, x).size
              && (MetaOf(meta, x).md5 != "" ==> fs.files[LocalPath(root, x)].digest == MetaOf(meta, x).md5)
  {
    Check(fs.files, LocalPath(root, x), MetaOf(meta, x)) != UpToDate
  }

  /**
    The local digest decides nothing unless the file has the remote size and
    the remote reports a checksum: a size mismatch, or an absent checksum,
    never needs the file's content.
   */
  lemma DigestIgnoredUnlessCompared(files: map<Path, LocalFile>, full: Path, m: Metadata, size: nat, d1: string, d2: string)
    requires size != m.size || m.md5 == ""
    ensures Check(files[full := LocalFile(size, d1)], full, m) == Check(files[full := LocalFile(size, d2)], full, m)
    ensures Check(files[full := LocalFile(size, d1)], full, m) != HashMismatch
  {
  }

  // ---------------------------------------------------------------------------
  // Planning
  // ---------------------------------------------------------------------------

  /** `a` is `b` with some elements left out, order kept. */
  predicate IsSubsequence<T(==)>(a: seq<T>, b: seq<T>)
    decreases |b|
  {
    if |a| == 0 then true
    else if |b| == 0 then false
    else if a[0] == b[0] then IsSubsequence(a[1..], b[1..])
    else IsSubsequence(a, b[1..])
  }

  /** The remote sizes of `files`, summed. */
  function TotalSize(files: seq<Item>, meta: MetadataService): nat {
    if |files| == 0 then 0 else MetaOf(meta, files[0]).size + TotalSize(files[1..], meta)
  }

  lemma TotalSizeOfTwo(a: Item, b: Item, meta: MetadataService)
    ensures TotalSize([a, b], meta) == MetaOf(meta, a).size + MetaOf(meta, b).size
  {
    assert [a, b][1..] == [b];
    assert TotalSize([b], meta) == MetaOf(meta, b).size + TotalSize([], meta) by {
      assert [b][1..] == [];
    }
  }

  /** `files_to_download` and `total_size_to_download`. */
  datatype Plan = Plan(files: seq<Item>, totalBytes: nat)

  /**
    The planning part of `download_from_folder`: folders are filtered out, each
    remaining file is checked, and the ones that need a download are kept in
    order while their remote sizes are added up.
   */
  function MakePlan(items: seq<Item>, root: Path, fs: LocalFs, meta: MetadataService): (p: Plan)
    ensures IsSubsequence(p.files, items)
    ensures forall x :: x in p.files <==> x in items && !IsFolderItem(x) && NeedsDownload(root, fs, meta, x)
    ensures forall x :: multiset(p.files)[x] ==
              if !IsFolderItem(x) && NeedsDownload(root, fs, meta, x) then multiset(items)[x] else 0
    ensures p.totalBytes == TotalSize(p.files, meta)
  {
    if |items| == 0 then Plan([], 0)
    else
      var rest := MakePlan(items[1..], root, fs, meta);
      var x := items[0];
      assert items == [x] + items[1..];
      if !IsFolderItem(x) && NeedsDownload(root, fs, meta, x) then
        Plan([x] + rest.files, MetaOf(meta, x).size + rest.totalBytes)
      else
        rest
  }

  // ---------------------------------------------------------------------------
  // The run and its effect on the local filesystem
  // ---------------------------------------------------------------------------

  /** `os.makedirs(p, exist_ok=True)`: `p` and all of its ancestors exist afterwards. */
  function MakeDirs(dirs: set<Path>, p: Path): (r: set<Path>)
    ensures dirs <= r
    ensures |p| > 0 ==> p in r
    ensures forall k :: 0 < k <= |p| ==> p[..k] in r
    ensures forall d :: d in r && d !in dirs ==> |d| > 0 && d <= p
  {
    assert |p| > 0 ==> p[..|p|] == p;
    dirs + set k | 0 < k <= |p| :: p[..k]
  }

  /**
    What one download leaves at the local path: a file of the remote size
    whose digest is the remote checksum (when the remote reports one, the
    content Drive serves hashes to it).
   */
  function Downloaded(meta: MetadataService, x: Item): LocalFile {
    LocalFile(MetaOf(meta, x).size, MetaOf(meta, x).md5)
  }

  /** The local paths a list of downloads writes. */
  function WrittenPaths(root: Path, files: seq<Item>): set<Path> {
    set x | x in files :: LocalPath(root, x)
  }

  /** `p` holds the same thing (or nothing) in both maps. */
  predicate SameAt(a: map<Path, LocalFile>, b: map<Path, LocalFile>, p: Path) {
    (p in a <==> p in b) && (p in a ==> a[p] == b[p])
  }

  /** One download: the file's directory is created and the file written at its local path. */
  function DownloadOne(fs: LocalFs, root: Path, x: Item, meta: MetadataService): LocalFs {
    LocalFs(MakeDirs(fs.dirs, root + x.path), fs.files[LocalPath(root, x) := Downloaded(meta, x)])
  }

  /**
    The download loop of `download_from_folder` with `_download_single_file`:
    the planned files, downloaded one after another in plan order.
   */
  function DownloadAll(fs: LocalFs, root: Path, files: seq<Item>, meta: MetadataService): (r: LocalFs)
    ensures fs.dirs <= r.dirs
    ensures r.files.Keys == fs.files.Keys + WrittenPaths(root, files)
    decreases |files|
  {
    if |files| == 0 then fs
    else
      assert WrittenPaths(root, files) == {LocalPath(root, files[0])} + WrittenPaths(root, files[1..]) by {
        assert forall y :: y in files <==> y == files[0] || y in files[1..];
      }
      DownloadAll(DownloadOne(fs, root, files[0], meta), root, files[1..], meta)
  }

  /** Downloading creates the directory of every planned file. */
  lemma {:induction false} DownloadAllMakesDirs(fs: LocalFs, root: Path, files: seq<Item>, meta: MetadataService)
    ensures forall x :: x in files && |root + x.path| > 0 ==> root + x.path in DownloadAll(fs, root, files, meta).dirs
    decreases |files|
  {
    if |files| > 0 {
      DownloadAllMakesDirs(DownloadOne(fs, root, files[0], meta), root, files[1..], meta);
      assert forall y :: y in files ==> y == files[0] || y in files[1..];
    }
  }

  /** Downloading leaves alone every path that no planned file maps to. */
  lemma {:induction false} DownloadAllFrame(fs: LocalFs, root: Path, files: seq<Item>, meta: MetadataService, p: Path)
    requires p !in WrittenPaths(root, files)
    ensures SameAt(DownloadAll(fs, root, files, meta).files, fs.files, p)
    decreases |files|
  {
    if |files| > 0 {
      assert files[0] in files;
      assert forall y :: y in files[1..] ==> y in files;
      DownloadAllFrame(DownloadOne(fs, root, files[0], meta), root, files[1..], meta, p);
    }
  }

  /**
    After downloading, every planned path holds what was downloaded for one of
    the planned files that map to it.
   */
  lemma {:induction false} DownloadAllWrites(fs: LocalFs, root: Path, files: seq<Item>, meta: MetadataService, x: Item)
    requires x in files
    ensures LocalPath(root, x) in DownloadAll(fs, root, files, meta).files
    ensures exists z :: z in files && LocalPath(root, z) == LocalPath(root, x) &&
                        DownloadAll(fs, root, files, meta).files[LocalPath(root, x)] == Downloaded(meta, z)
    decreases |files|
  {
    var y := files[0];
    var fs1 := DownloadOne(fs, root, y, meta);
    var rest := files[1..];
    var r := DownloadAll(fs1, root, rest, meta);
    var p := LocalPath(root, x);
    if p in WrittenPaths(root, rest) {
      var w :| w in rest && LocalPath(root, w) == p;
      DownloadAllWrites(fs1, root, rest, meta, w);
      var z :| z in rest && LocalPath(root, z) == p && r.files[p] == Downloaded(meta, z);
      assert z in files;
    } else {
      DownloadAllFrame(fs1, root, rest, meta, p);
      assert x in rest ==> p in WrittenPaths(root, rest);
      assert x == y;
      assert r.files[p] == Downloaded(meta, y);
    }
  }

  /**
    Every planned path holds what was downloaded for one of the planned files
    that map to it.
   */
  predicate HoldsDownloads(root: Path, files: seq<Item>, meta: MetadataService, after: map<Path, LocalFile>) {
    forall x :: x in files ==> HoldsDownloadOf(root, files, meta, after, x)
  }

  /** `x`'s local path holds what was downloaded for one of the planned files that map to it. */
  predicate HoldsDownloadOf(root: Path, files: seq<Item>, meta: MetadataService, after: map<Path, LocalFile>, x: Item) {
    && LocalPath(root, x) in after
    && exists z :: z in files && LocalPath(root, z) == LocalPath(root, x) && after[LocalPath(root, x)] == Downloaded(meta, z)
  }

  /** Every path no planned file maps to is as it was. */
  ghost predicate KeepsUnwritten(root: Path, files: seq<Item>, before: map<Path, LocalFile>, after: map<Path, LocalFile>) {
    forall p :: p !in WrittenPaths(root, files) ==> SameAt(after, before, p)
  }

  /** The downloads, taken together: planned paths written, all others untouched. */
  lemma DownloadAllEffect(fs: LocalFs, root: Path, files: seq<Item>, meta: MetadataService)
    ensures HoldsDownloads(root, files, meta, DownloadAll(fs, root, files, meta).files)
    ensures KeepsUnwritten(root, files, fs.files, DownloadAll(fs, root, files, meta).files)
  {
    var r := DownloadAll(fs, root, files, meta);
    forall x | x in files
      ensures HoldsDownloadOf(root, files, meta, r.files, x)
    {
      DownloadAllWrites(fs, root, files, meta, x);
    }
    forall p | p !in WrittenPaths(root, files)
      ensures SameAt(r.files, fs.files, p)
    {
      DownloadAllFrame(fs, root, files, meta, p);
    }
  }

  /** What a run reports. */
  datatype Report = AlreadySynced | Synced(files: seq<Item>, totalBytes: nat)

  datatype Outcome = Outcome(report: Report, fs: LocalFs)

  /**
    `download_from_folder` from the flattened tree on: plan, return early
    when nothing is planned, otherwise create the local root and download the
    planned files in order.
   */
  function Sync(tree: seq<Node>, root: Path, fs: LocalFs, meta: MetadataService): (o: Outcome)
    ensures var plan := MakePlan(FlattenAll(tree, []), root, fs, meta);
            && (o.report == AlreadySynced <==> plan.files == [])
            && (o.report == AlreadySynced ==> o.fs == fs)
            && (o.report.Synced? ==> o.report.files == plan.files && o.report.totalBytes == TotalSize(plan.files, meta))
            && (o.report.Synced? && |root| > 0 ==> root in o.fs.dirs)
            && (forall x :: x in plan.files ==> LocalPath(root, x) in o.fs.files)
            && HoldsDownloads(root, plan.files, meta, o.fs.files)
            && KeepsUnwritten(root, plan.files, fs.files, o.fs.files)
  {
    var plan := MakePlan(FlattenAll(tree, []), root, fs, meta);
    if plan.files == [] then Outcome(AlreadySynced, fs)
    else
      var fs1 := LocalFs(MakeDirs(fs.dirs, root), fs.files);
      var r := DownloadAll(fs1, root, plan.files, meta);
      DownloadAllEffect(fs1, root, plan.files, meta);
      Outcome(Synced(plan.files, plan.totalBytes), r)
  }

  /** A run that plans something reports the plan and its byte total. */
  lemma SyncReport(tree: seq<Node>, root: Path, fs: LocalFs, meta: MetadataService)
    requires MakePlan(FlattenAll(tree, []), root, fs, meta).files != []
    ensures var plan := MakePlan(FlattenAll(tree, []), root, fs, meta);
            Sync(tree, root, fs, meta).report == Synced(plan.files, TotalSize(plan.files, meta))
  {
  }

  /** A run that plans something leaves what the downloads leave after the local root is created. */
  lemma SyncFiles(tree: seq<Node>, root: Path, fs: LocalFs, meta: MetadataService)
    requires MakePlan(FlattenAll(tree, []), root, fs, meta).files != []
    ensures var plan := MakePlan(FlattenAll(tree, []), root, fs, meta);
            Sync(tree, root, fs, meta).fs == DownloadAll(LocalFs(MakeDirs(fs.dirs, root), fs.files), root, plan.files, meta)
  {
  }

  /** No two files of the flattened tree share a local path. */
  predicate DistinctLocalPaths(root: Path, items: seq<Item>) {
    forall a, b :: a in items && b in items && !IsFolderItem(a) && !IsFolderItem(b) && LocalPath(root, a) == LocalPath(root, b) ==> a == b
  }

  /**
    After the planned downloads, no file of the tree needs a download: a
    planned file now holds what was downloaded for it, and an unplanned one
    was up to date and its path was not written.
   */
  lemma {:induction false} DownloadedFilesAreCurrent(items: seq<Item>, root: Path, fs: LocalFs, fs1: LocalFs, meta: MetadataService, x: Item)
    requires DistinctLocalPaths(root, items)
    requires fs1.files == fs.files
    requires x in items && !IsFolderItem(x)
    ensures !NeedsDownload(root, DownloadAll(fs1, root, MakePlan(items, root, fs, meta).files, meta), meta, x)
  {
    var plan := MakePlan(items, root, fs, meta).files;
    var fs' := DownloadAll(fs1, root, plan, meta);
    var p := LocalPath(root, x);
    if x in plan {
      DownloadAllWrites(fs1, root, plan, meta, x);
      var z :| z in plan && LocalPath(root, z) == p && fs'.files[p] == Downloaded(meta, z);
      assert z in items && !IsFolderItem(z);
      assert z == x;
    } else {
      assert !NeedsDownload(root, fs, meta, x);
      forall y | y in plan
        ensures LocalPath(root, y) != p
      {
        assert y in items && !IsFolderItem(y) && y != x;
      }
      assert p !in WrittenPaths(root, plan);
      DownloadAllFrame(fs1, root, plan, meta, p);
      assert SameAt(fs'.files, fs1.files, p);
    }
  }

  /** A plan in which no file needs a download is empty. */
  lemma PlanEmptyWhenAllCurrent(items: seq<Item>, root: Path, fs: LocalFs, meta: MetadataService)
    requires forall x :: x in items && !IsFolderItem(x) ==> !NeedsDownload(root, fs, meta, x)
    ensures MakePlan(items, root, fs, meta).files == []
  {
  }

  /**
    Idempotence: with the remote tree unchanged, a second run plans nothing,
    provided no two remote files map to the same local path.
   */
  lemma {:induction false} SyncIsIdempotent(tree: seq<Node>, root: Path, fs: LocalFs, meta: MetadataService)
    requires DistinctLocalPaths(root, FlattenAll(tree, []))
    ensures Sync(tree, root, Sync(tree, root, fs, meta).fs, meta).report == AlreadySynced
  {
    var items := FlattenAll(tree, []);
    var plan := MakePlan(items, root, fs, meta);
    var fs' := Sync(tree, root, fs, meta).fs;
    if plan.files != [] {
      var fs1 := LocalFs(MakeDirs(fs.dirs, root), fs.files);
      assert fs' == DownloadAll(fs1, root, plan.files, meta);
      forall x | x in items && !IsFolderItem(x)
        ensures !NeedsDownload(root, fs', meta, x)
      {
        DownloadedFilesAreCurrent(items, root, fs, fs1, meta, x);
      }
    }
    PlanEmptyWhenAllCurrent(items, root, fs', meta);
  }

  /** Downloading one file is one `DownloadOne`. */
  lemma SingleDownload(fs: LocalFs, root: Path, x: Item, meta: MetadataService)
    ensures DownloadAll(fs, root, [x], meta) == DownloadOne(fs, root, x, meta)
  {
    assert [x][1..] == [];
  }

  /** Of two downloads to one local path, the later one is what stays. */
  lemma {:induction false} LaterDownloadWins(fs: LocalFs, root: Path, a: Item, b: Item, meta: MetadataService)
    requires LocalPath(root, a) == LocalPath(root, b)
    ensures DownloadAll(fs, root, [a, b], meta).files == fs.files[LocalPath(root, b) := Downloaded(meta, b)]
  {
    var fsA := DownloadOne(fs, root, a, meta);
    assert [a, b][1..] == [b];
    assert DownloadAll(fs, root, [a, b], meta) == DownloadAll(fsA, root, [b], meta);
    SingleDownload(fsA, root, b, meta);
  }

  /** The plan for a listing of two files keeps each one that needs a download. */
  lemma PlanOfTwoFiles(a: Item, b: Item, root: Path, fs: LocalFs, meta: MetadataService)
    requires !IsFolderItem(a) && !IsFolderItem(b)
    ensures MakePlan([a, b], root, fs, meta).files ==
              (if NeedsDownload(root, fs, meta, a) then [a] else []) + (if NeedsDownload(root, fs, meta, b) then [b] else [])
  {
    assert [b][1..] == [];
    assert MakePlan([b], root, fs, meta).files == (if NeedsDownload(root, fs, meta, b) then [b] else []);
    assert [a, b][1..] == [b];
  }

  /** Two copies of `r.pdf`, of 10 and 20 bytes, listed in one folder. */
  const FirstCopy := Item("id1", "r.pdf", "application/pdf", [])
  const SecondCopy := Item("id2", "r.pdf", "application/pdf", [])
  const SameNameFolder := [Node(Entry("id1", "r.pdf", "application/pdf"), []), Node(Entry("id2", "r.pdf", "application/pdf"), [])]

  predicate SameNameSizes(meta: MetadataService) {
    meta("id1") == RawMetadata(Some(10), None, None) && meta("id2") == RawMetadata(Some(20), None, None)
  }

  lemma SameNameFlattens()
    ensures FlattenAll(SameNameFolder, []) == [FirstCopy, SecondCopy]
    ensures LocalPath(["L"], FirstCopy) == LocalPath(["L"], SecondCopy) == ["L", "r.pdf"]
  {
  }

  /**
    A run whose plan is two files with one local path downloads both and
    leaves the later one there.
   */
  lemma SyncOfTwoSharing(tree: seq<Node>, root: Path, fs: LocalFs, meta: MetadataService, a: Item, b: Item, after: map<Path, LocalFile>)
    requires MakePlan(FlattenAll(tree, []), root, fs, meta).files == [a, b]
    requires LocalPath(root, a) == LocalPath(root, b)
    requires after == fs.files[LocalPath(root, b) := Downloaded(meta, b)]
    ensures Sync(tree, root, fs, meta).report == Synced([a, b], MetaOf(meta, a).size + MetaOf(meta, b).size)
    ensures Sync(tree, root, fs, meta).fs.files == after
  {
    var plan := MakePlan(FlattenAll(tree, []), root, fs, meta);
    SyncReport(tree, root, fs, meta);
    ReportOfTwo(Sync(tree, root, fs, meta).report, plan.files, a, b, meta);
    SyncFiles(tree, root, fs, meta);
    LaterDownloadWins(LocalFs(MakeDirs(fs.dirs, root), fs.files), root, a, b, meta);
  }

  /** A report over a two-file plan adds up the two remote sizes. */
  lemma ReportOfTwo(r: Report, files: seq<Item>, a: Item, b: Item, meta: MetadataService)
    requires files == [a, b]
    requires r == Synced(files, TotalSize(files, meta))
    ensures r == Synced([a, b], MetaOf(meta, a).size + MetaOf(meta, b).size)
  {
    TotalSizeOfTwo(a, b, meta);
  }

  /** The first run over an empty folder downloads both copies; the second one stays. */
  lemma {:induction false} SameNameFirstRun(meta: MetadataService)
    requires SameNameSizes(meta)
    ensures var o := Sync(SameNameFolder, ["L"], LocalFs({}, map[]), meta);
            o.report == Synced([FirstCopy, SecondCopy], 30) && o.fs.files == map[["L", "r.pdf"] := LocalFile(20, "")]
  {
    var root: Path := ["L"];
    var fs0 := LocalFs({}, map[]);
    SameNameFlattens();
    PlanOfTwoFiles(FirstCopy, SecondCopy, root, fs0, meta);
    assert Downloaded(meta, SecondCopy) == LocalFile(20, "");
    SyncOfTwoSharing(SameNameFolder, root, fs0, meta, FirstCopy, SecondCopy, map[["L", "r.pdf"] := LocalFile(20, "")]);
  }

  /** A run whose plan is one file downloads that file to its local path and writes nothing else. */
  lemma SyncOfOne(tree: seq<Node>, root: Path, fs: LocalFs, meta: MetadataService, x: Item, after: map<Path, LocalFile>)
    requires MakePlan(FlattenAll(tree, []), root, fs, meta).files == [x]
    requires after == fs.files[LocalPath(root, x) := Downloaded(meta, x)]
    ensures Sync(tree, root, fs, meta).report == Synced([x], MetaOf(meta, x).size)
    ensures Sync(tree, root, fs, meta).fs.files == after
  {
    assert [x][1..] == [];
    assert TotalSize([x], meta) == MetaOf(meta, x).size;
    SingleDownload(LocalFs(MakeDirs(fs.dirs, root), fs.files), root, x, meta);
  }

  /** Writing over the only file of a folder leaves just the new file. */
  lemma Overwrite(files: map<Path, LocalFile>, p: Path, before: LocalFile, after: LocalFile)
    requires files == map[p := before]
    ensures files[p := after] == map[p := after]
  {
  }

  /** The run after the first finds the first copy's size wrong and fetches it again. */
  lemma {:induction false} SameNameSecondRun(meta: MetadataService, fs: LocalFs)
    requires SameNameSizes(meta)
    requires fs.files == map[["L", "r.pdf"] := LocalFile(20, "")]
    ensures var o := Sync(SameNameFolder, ["L"], fs, meta);
            o.report == Synced([FirstCopy], 10) && o.fs.files == map[["L", "r.pdf"] := LocalFile(10, "")]
  {
    var root: Path := ["L"];
    SameNameFlattens();
    assert MetaOf(meta, FirstCopy) == Metadata(10, "", "");
    assert MetaOf(meta, SecondCopy) == Metadata(20, "", "");
    assert NeedsDownload(root, fs, meta, FirstCopy) && !NeedsDownload(root, fs, meta, SecondCopy);
    PlanOfTwoFiles(FirstCopy, SecondCopy, root, fs, meta);
    Overwrite(fs.files, ["L", "r.pdf"], LocalFile(20, ""), LocalFile(10, ""));
    SyncOfOne(SameNameFolder, root, fs, meta, FirstCopy, map[["L", "r.pdf"] := LocalFile(10, "")]);
  }

  /** The run after that finds the second copy's size wrong and fetches it again. */
  lemma {:induction false} SameNameThirdRun(meta: MetadataService, fs: LocalFs)
    requires SameNameSizes(meta)
    requires fs.files == map[["L", "r.pdf"] := LocalFile(10, "")]
    ensures var o := Sync(SameNameFolder, ["L"], fs, meta);
            o.report == Synced([SecondCopy], 20) && o.fs.files == map[["L", "r.pdf"] := LocalFile(20, "")]
  {
    var root: Path := ["L"];
    SameNameFlattens();
    assert MetaOf(meta, FirstCopy) == Metadata(10, "", "");
    assert MetaOf(meta, SecondCopy) == Metadata(20, "", "");
    assert !NeedsDownload(root, fs, meta, FirstCopy) && NeedsDownload(root, fs, meta, SecondCopy);
    PlanOfTwoFiles(FirstCopy, SecondCopy, root, fs, meta);
    Overwrite(fs.files, ["L", "r.pdf"], LocalFile(10, ""), LocalFile(20, ""));
    SyncOfOne(SameNameFolder, root, fs, meta, SecondCopy, map[["L", "r.pdf"] := LocalFile(20, "")]);
  }

  /**
    Without distinct local paths a run is not idempotent: the two copies share
    one local path, the second download overwrites the first, and the next run
    fetches the first copy again.
   */
  lemma {:induction false} SharedLocalPathRedownloads(meta: MetadataService)
    requires SameNameSizes(meta)
    ensures !DistinctLocalPaths(["L"], FlattenAll(SameNameFolder, []))
    ensures var once := Sync(SameNameFolder, ["L"], LocalFs({}, map[]), meta);
            once.report.Synced? && Sync(SameNameFolder, ["L"], once.fs, meta).report == Synced([FirstCopy], 10)
  {
    SameNameFlattens();
    assert FirstCopy in FlattenAll(SameNameFolder, []) && SecondCopy in FlattenAll(SameNameFolder, []);
    SameNameFirstRun(meta);
    SameNameSecondRun(meta, Sync(SameNameFolder, ["L"], LocalFs({}, map[]), meta).fs);
  }

  /** The local file after a run that wrote the 10-byte or the 20-byte copy last. */
  predicate HoldsOneCopy(files: map<Path, LocalFile>) {
    files == map[["L", "r.pdf"] := LocalFile(10, "")] || files == map[["L", "r.pdf"] := LocalFile(20, "")]
  }

  /**
    Once one copy is on disk, every run downloads the other one and leaves
    one copy on disk again: the runs alternate and never report the folder
    as synchronised.
   */
  lemma {:induction false} SameNameNeverSettles(meta: MetadataService, fs: LocalFs)
    requires SameNameSizes(meta)
    requires HoldsOneCopy(fs.files)
    ensures var o := Sync(SameNameFolder, ["L"], fs, meta);
            o.report.Synced? && |o.report.files| == 1 && HoldsOneCopy(o.fs.files) && o.fs.files != fs.files
  {
    if fs.files == map[["L", "r.pdf"] := LocalFile(20, "")] {
      SameNameSecondRun(meta, fs);
    } else {
      SameNameThirdRun(meta, fs);
    }
  }
}
