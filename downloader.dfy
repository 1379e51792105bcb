/**
 * The `SharePointDownloader` object: it holds the bearer headers, the
 * cached site and library ids and the file index, discovers the remote tree
 * into the index, and synchronises local files with the remote ones, one
 * file at a time (look up, fetch, compare, archive, write), counting the
 * files that succeed. The remote service's answers, the local file system,
 * the clock and the table reader are inputs.
 */
module Downloader {
  import opened Wrappers
  import opened Paths
  import opened Utf8
  import opened Versions
  import opened RemoteTree
  import opened Compare

  /** One entry of the site's drive list. */
  datatype Drive = Drive(name: string, id: string)

  /**
   * The remote service's answers. `site` is the site lookup (None when it
   * fails), `drives` the site's drive list (None when the request fails),
   * `root` the library root folder, `folders` the folder paths that resolve,
   * and `content` the items whose download answers 200, with their bytes.
   */
  datatype Remote = Remote(
    site: Option<string>,
    drives: Option<seq<Drive>>,
    root: Option<Node>,
    folders: map<Path, Node>,
    content: map<string, Bytes>)

  /** The token endpoint's answer: a failure (raised), or a JSON body whose `access_token` may be missing. */
  datatype TokenReply = Rejected | Issued(accessToken: Option<string>)

  /** Where and how files are written: `output_dir`, `versioning_enabled`, `versions_dir`, and the working directory. */
  datatype SyncOptions = SyncOptions(outputDir: Path, versioning: bool, versionsDir: Option<Path>, cwd: Path)

  /** How one file's synchronisation ends. `download_single_file` returns true for the two successes. */
  datatype Outcome = NotIndexed | DownloadFailed | Unchanged | Saved | WriteFailed
  {
    predicate Succeeded()
    {
      Unchanged? || Saved?
    }
  }

  datatype Step = Step(outcome: Outcome, fs: FileSystem)

  /** A batch's success count and the file system after it. */
  datatype Tally = Tally(succeeded: nat, fs: FileSystem)

  /** `next(d['id'] for d in drives if d['name'] == library)`: the id of the first drive so named. */
  function FirstDriveId(drives: seq<Drive>, library: string): (r: Option<string>)
    ensures r.None? <==> forall i :: 0 <= i < |drives| ==> drives[i].name != library
    ensures r.Some? ==> exists i :: 0 <= i < |drives| && drives[i].name == library && r.value == drives[i].id
                                    && forall j :: 0 <= j < i ==> drives[j].name != library
  {
    if drives == [] then None
    else if drives[0].name == library then Some(drives[0].id)
    else
      var r := FirstDriveId(drives[1..], library);
      if r.Some? then
        var i :| 0 <= i < |drives[1..]| && drives[1..][i].name == library && r.value == drives[1..][i].id
                 && forall j :: 0 <= j < i ==> drives[1..][j].name != library;
        assert drives[i + 1].name == library && forall j :: 0 <= j < i + 1 ==> drives[j].name != library;
        r
      else
        assert forall i :: 1 <= i < |drives| ==> drives[i].name != library by {
          forall i | 1 <= i < |drives| ensures drives[i].name != library { assert drives[i] == drives[1..][i - 1]; }
        }
        r
  }

  /** The site id `_get_site_id` stores: "" stands for a failed lookup, which stores nothing. */
  function SiteLookup(remote: Remote): string
  {
    match remote.site
    case Some(id) => id
    case None => ""
  }

  /** The library id `_get_library_id` leaves behind: "" for a failed request or no matching drive. */
  function LibraryLookup(drives: Option<seq<Drive>>, library: string): (id: string)
    ensures id != "" ==> drives.Some? && FirstDriveId(drives.value, library) == Some(id)
  {
    match drives
    case None => ""
    case Some(ds) =>
      match FirstDriveId(ds, library)
      case Some(id) => id
      case None => ""
  }

  /** The folder `discover_files` starts from: a named folder path, or the library root. */
  function StartFolder(remote: Remote, folderPath: Path): Option<Node>
  {
    if folderPath != [] then
      if folderPath in remote.folders then Some(remote.folders[folderPath]) else None
    else remote.root
  }

  /** `download_file_content`: the bytes of a 200 answer, None otherwise. */
  function DownloadFileContent(content: map<string, Bytes>, itemId: string): (r: Option<Bytes>)
    ensures r.Some? <==> itemId in content
    ensures r.Some? ==> r.value == content[itemId]
  {
    if itemId in content then Some(content[itemId]) else None
  }

  /** `os.path.join(output_dir, file_path)`. */
  function TargetOf(opts: SyncOptions, filePath: Path): Path
  {
    Join(opts.outputDir, filePath)
  }

  /** Where the target's previous version is archived at time `now`. */
  function ArchiveOf(opts: SyncOptions, filePath: Path, now: Timestamp): Path
  {
    VersionPath(TargetOf(opts, filePath), opts.versionsDir, opts.cwd, now)
  }

  /** The file is indexed and its download answers 200 with non-empty content. */
  predicate Fetched(index: map<Path, string>, filePath: Path, content: map<string, Bytes>)
  {
    filePath in index && index[filePath] in content && content[index[filePath]] != []
  }

  /**
   * `download_single_file` on the file system `fs`, with the item downloads
   * `content` and the clock reading `now` at archiving time.
   */
  function SyncFile<T(==)>(index: map<Path, string>, filePath: Path, opts: SyncOptions, content: map<string, Bytes>,
                           readTable: (TableFormat, Bytes) -> Option<T>, now: Timestamp, fs: FileSystem): (r: Step)
    // Not indexed, download failed, or empty content: false, nothing written.
    ensures filePath !in index ==> r == Step(NotIndexed, fs)
    ensures filePath in index && !Fetched(index, filePath, content) ==> r == Step(DownloadFailed, fs)
    ensures r.outcome.Succeeded() ==> Fetched(index, filePath, content)
    // With versioning, an existing target judged unchanged is a success and is left alone.
    ensures r.outcome == Unchanged <==>
              Fetched(index, filePath, content) && opts.versioning && TargetOf(opts, filePath) in fs
              && !CompareFiles(content[index[filePath]], TargetOf(opts, filePath), fs, readTable)
    ensures r.outcome == Unchanged ==> r.fs == fs
    // Otherwise the write succeeds unless the target has no directory part.
    ensures Fetched(index, filePath, content) && r.outcome != Unchanged ==>
              (r.outcome == Saved <==> !HasNoDirectory(TargetOf(opts, filePath)))
    ensures Fetched(index, filePath, content) && r.outcome != Unchanged && r.outcome != Saved ==>
              r.outcome == WriteFailed
    ensures r.outcome == Saved ==> TargetOf(opts, filePath) in r.fs && r.fs[TargetOf(opts, filePath)] == content[index[filePath]]
    // The previous version is archived when versioning is on and the target existed.
    ensures Fetched(index, filePath, content) && r.outcome != Unchanged && opts.versioning
            && TargetOf(opts, filePath) in fs && ArchiveDir(opts.versionsDir, opts.cwd) != [] ==>
              ArchiveOf(opts, filePath, now) in r.fs && r.fs[ArchiveOf(opts, filePath, now)] == fs[TargetOf(opts, filePath)]
    // Nothing else changes; when nothing is archived, not even the archive path.
    ensures forall p :: p != TargetOf(opts, filePath) && p != ArchiveOf(opts, filePath, now) ==>
              (p in r.fs <==> p in fs) && (p in fs ==> r.fs[p] == fs[p])
    ensures !(opts.versioning && TargetOf(opts, filePath) in fs && ArchiveDir(opts.versionsDir, opts.cwd) != []) ==>
              forall p :: p != TargetOf(opts, filePath) ==> (p in r.fs <==> p in fs) && (p in fs ==> r.fs[p] == fs[p])
    // A failed write leaves the target as it was.
    ensures r.outcome == WriteFailed ==>
              (TargetOf(opts, filePath) in r.fs <==> TargetOf(opts, filePath) in fs)
              && (TargetOf(opts, filePath) in fs ==> r.fs[TargetOf(opts, filePath)] == fs[TargetOf(opts, filePath)])
  {
    if filePath !in index then Step(NotIndexed, fs)
    else match DownloadFileContent(content, index[filePath])
      case None => Step(DownloadFailed, fs)
      case Some(data) =>
        if data == [] then Step(DownloadFailed, fs)
        else
          var target := TargetOf(opts, filePath);
          if opts.versioning && target in fs && !CompareFiles(data, target, fs, readTable) then Step(Unchanged, fs)
          else Overwrite(filePath, data, opts, now, fs)
  }

  /**
   * The part of `download_single_file` after the comparison: archive the
   * target when versioning, then write the new bytes.
   */
  function Overwrite(filePath: Path, data: Bytes, opts: SyncOptions, now: Timestamp, fs: FileSystem): (r: Step)
    ensures r.outcome == Saved <==> !HasNoDirectory(TargetOf(opts, filePath))
    ensures r.outcome != Saved ==> r.outcome == WriteFailed
    ensures r.outcome == Saved ==> TargetOf(opts, filePath) in r.fs && r.fs[TargetOf(opts, filePath)] == data
    ensures opts.versioning && TargetOf(opts, filePath) in fs && ArchiveDir(opts.versionsDir, opts.cwd) != [] ==>
              ArchiveOf(opts, filePath, now) in r.fs && r.fs[ArchiveOf(opts, filePath, now)] == fs[TargetOf(opts, filePath)]
    ensures forall p :: p != TargetOf(opts, filePath) && p != ArchiveOf(opts, filePath, now) ==>
              (p in r.fs <==> p in fs) && (p in fs ==> r.fs[p] == fs[p])
    ensures !(opts.versioning && TargetOf(opts, filePath) in fs && ArchiveDir(opts.versionsDir, opts.cwd) != []) ==>
              forall p :: p != TargetOf(opts, filePath) ==> (p in r.fs <==> p in fs) && (p in fs ==> r.fs[p] == fs[p])
    // A failed write leaves the target as it was.
    ensures r.outcome == WriteFailed ==>
              (TargetOf(opts, filePath) in r.fs <==> TargetOf(opts, filePath) in fs)
              && (TargetOf(opts, filePath) in fs ==> r.fs[TargetOf(opts, filePath)] == fs[TargetOf(opts, filePath)])
  {
    var target := TargetOf(opts, filePath);
    VersionPathIsNotTarget(target, opts.versionsDir, opts.cwd, now);
    var archived := if opts.versioning then CreateVersion(fs, target, opts.versionsDir, opts.cwd, now).fs else fs;
    if HasNoDirectory(target) then Step(WriteFailed, archived)
    else Step(Saved, archived[target := data])
  }

  /** `p` is neither the target nor the archive path of any key of a batch over `keys`. */
  predicate Untouched(p: Path, keys: seq<Path>, opts: SyncOptions, clock: nat -> Timestamp)
  {
    forall i :: 0 <= i < |keys| ==> p != TargetOf(opts, keys[i]) && p != ArchiveOf(opts, keys[i], clock(i))
  }

  /**
   * The loop of `download_all_files` and `download_specific_files`: one
   * `download_single_file` per key, in order, the i-th archiving at
   * `clock(i)`, counting the successes.
   */
  function SyncAll<T(==)>(index: map<Path, string>, keys: seq<Path>, opts: SyncOptions, content: map<string, Bytes>,
                          readTable: (TableFormat, Bytes) -> Option<T>, clock: nat -> Timestamp, fs: FileSystem): (r: Tally)
    ensures r.succeeded <= |keys|
    ensures (forall i :: 0 <= i < |keys| ==> keys[i] !in index) ==> r == Tally(0, fs)
    decreases |keys|
  {
    if keys == [] then Tally(0, fs)
    else
      var n := |keys| - 1;
      var before := SyncAll(index, keys[..n], opts, content, readTable, clock, fs);
      var step := SyncFile(index, keys[n], opts, content, readTable, clock(n), before.fs);
      Tally(before.succeeded + (if step.outcome.Succeeded() then 1 else 0), step.fs)
  }

  /** A batch writes no path other than its keys' targets and archive paths. */
  lemma {:induction false} SyncAllFrame<T>(index: map<Path, string>, keys: seq<Path>, opts: SyncOptions,
                                              content: map<string, Bytes>, readTable: (TableFormat, Bytes) -> Option<T>,
                                              clock: nat -> Timestamp, fs: FileSystem, p: Path)
    requires Untouched(p, keys, opts, clock)
    ensures var r := SyncAll(index, keys, opts, content, readTable, clock, fs);
            (p in r.fs <==> p in fs) && (p in fs ==> r.fs[p] == fs[p])
    decreases |keys|
  {
    if keys != [] {
      var n := |keys| - 1;
      UntouchedPrefix(p, keys, opts, clock);
      SyncAllFrame(index, keys[..n], opts, content, readTable, clock, fs, p);
      var before := SyncAll(index, keys[..n], opts, content, readTable, clock, fs).fs;
      var step := SyncFile(index, keys[n], opts, content, readTable, clock(n), before);
      assert p != TargetOf(opts, keys[n]) && p != ArchiveOf(opts, keys[n], clock(n));
      assert (p in step.fs <==> p in before) && (p in before ==> step.fs[p] == before[p]);
    }
  }

  lemma UntouchedPrefix(p: Path, keys: seq<Path>, opts: SyncOptions, clock: nat -> Timestamp)
    requires keys != [] && Untouched(p, keys, opts, clock)
    ensures Untouched(p, keys[..|keys| - 1], opts, clock)
  {
    var init := keys[..|keys| - 1];
    forall i | 0 <= i < |init|
      ensures p != TargetOf(opts, init[i]) && p != ArchiveOf(opts, init[i], clock(i))
    {
      assert init[i] == keys[i];
    }
  }

  /** A distinct key list as long as the map it lists. */
  lemma {:induction false} ConsistentSize(m: map<Path, string>, ks: seq<Path>)
    requires Consistent(m, ks)
    ensures |m| == |ks|
  {
    if ks != [] {
      DropLast(m, ks);
      ConsistentSize(m - {ks[|ks| - 1]}, ks[..|ks| - 1]);
    } else {
      assert m.Keys == {};
    }
  }

  /** Removing the last listed key from both sides keeps them consistent and shrinks the map by one. */
  lemma DropLast(m: map<Path, string>, ks: seq<Path>)
    requires ks != [] && Consistent(m, ks)
    ensures Consistent(m - {ks[|ks| - 1]}, ks[..|ks| - 1])
    ensures |m - {ks[|ks| - 1]}| + 1 == |m|
  {
    var last := ks[|ks| - 1];
    var init := ks[..|ks| - 1];
    var rest := m - {last};
    assert forall i :: 0 <= i < |init| ==> init[i] == ks[i];
    forall k | k in init ensures k in rest {
      var i :| 0 <= i < |init| && init[i] == k;
      assert ks[i] == k;
    }
    forall k | k in rest ensures k in init {
      assert k in ks;
      var i :| 0 <= i < |ks| && ks[i] == k;
      assert init[i] == k;
    }
    RemoveSize(m, last);
  }

  lemma RemoveSize(m: map<Path, string>, k: Path)
    requires k in m
    ensures |m - {k}| + 1 == |m|
  {
    var rest := m - {k};
    assert rest.Keys == m.Keys - {k};
    assert m.Keys == rest.Keys + {k};
  }

  class SharePointDownloader {
    const documentLibrary: string
    var accessToken: string     // "" while no token was obtained
    var headers: Option<string> // the bearer token of the Authorization header, once authenticated
    var siteId: string          // "" while unknown
    var libraryId: string       // "" while unknown
    var fileIndex: map<Path, string>
    var fileOrder: seq<Path>    // the index's keys in insertion order, as a Python dict keeps them

    ghost predicate Valid()
      reads this`fileIndex, this`fileOrder
    {
      Consistent(fileIndex, fileOrder)
    }

    constructor (documentLibrary: string)
      ensures Valid()
      ensures this.documentLibrary == documentLibrary
      ensures accessToken == "" && headers == None && siteId == "" && libraryId == ""
      ensures fileIndex == map[] && fileOrder == []
    {
      this.documentLibrary := documentLibrary;
      accessToken := "";
      headers := None;
      siteId := "";
      libraryId := "";
      fileIndex := map[];
      fileOrder := [];
    }

    /**
     * `authenticate`: a raised failure changes nothing; a reply without a
     * (non-empty) token clears the token but keeps any earlier headers.
     */
    method Authenticate(reply: TokenReply) returns (ok: bool)
      modifies this`accessToken, this`headers
      ensures ok <==> reply.Issued? && reply.accessToken.Some? && reply.accessToken.value != ""
      ensures accessToken == (match reply
                              case Rejected => old(accessToken)
                              case Issued(t) => if t.Some? then t.value else "")
      ensures headers == if ok then Some(accessToken) else old(headers)
    {
      match reply
      case Rejected =>
        ok := false;
      case Issued(t) =>
        accessToken := if t.Some? then t.value else "";
        if accessToken == "" {
          ok := false;
        } else {
          headers := Some(accessToken);
          ok := true;
        }
    }

    /** The site step of `discover_files` succeeds: a cached id, or a lookup that answers. */
    predicate SiteResolves(remote: Remote)
      reads this
    {
      siteId != "" || remote.site.Some?
    }

    /** The library step succeeds: a cached id, or a drive of that name with a non-empty id. */
    predicate LibraryResolves(remote: Remote)
      reads this
    {
      libraryId != "" || LibraryLookup(remote.drives, documentLibrary) != ""
    }

    /** Every step of `discover_files` before the walk succeeds. */
    predicate DiscoveryStarts(remote: Remote, folderPath: Path)
      reads this
    {
      headers.Some? && SiteResolves(remote) && LibraryResolves(remote) && StartFolder(remote, folderPath).Some?
    }

    /** `_get_site_id`. */
    method GetSiteId(remote: Remote) returns (ok: bool)
      modifies this`siteId
      ensures ok <==> remote.site.Some?
      ensures siteId == if ok then remote.site.value else old(siteId)
    {
      match remote.site
      case None =>
        ok := false;
      case Some(id) =>
        siteId := id;
        ok := true;
    }

    /** `_get_library_id`: the first drive named like the library, if its id is non-empty. */
    method GetLibraryId(remote: Remote) returns (ok: bool)
      modifies this`libraryId
      ensures remote.drives.Some? ==> libraryId == LibraryLookup(remote.drives, documentLibrary)
      ensures remote.drives.None? ==> libraryId == old(libraryId)
      ensures ok <==> remote.drives.Some? && libraryId != ""
    {
      match remote.drives
      case None =>
        ok := false;
      case Some(ds) =>
        var found := FirstDriveId(ds, documentLibrary);
        libraryId := if found.Some? then found.value else "";
        ok := libraryId != "";
    }

    /**
     * `discover_files`: without headers, or when the site, the library or
     * the start folder cannot be resolved, it fails and the index is left as
     * it was; otherwise the index is emptied and rebuilt by the walk from
     * the start folder, so it holds exactly what this pass found.
     */
    method DiscoverFiles(structured: bool, folderPath: Path, remote: Remote) returns (ok: bool)
      requires Valid()
      modifies this`siteId, this`libraryId, this`fileIndex, this`fileOrder
      ensures Valid()
      ensures ok == old(DiscoveryStarts(remote, folderPath))
      ensures !ok ==> fileIndex == old(fileIndex) && fileOrder == old(fileOrder)
      ensures ok ==> fileIndex == Discovered(StartFolder(remote, folderPath).value, structured)
                     && fileOrder == Order([], FolderRecords(StartFolder(remote, folderPath).value, "", structured))
      ensures siteId == if old(headers).Some? && old(siteId) == "" then SiteLookup(remote) else old(siteId)
      ensures libraryId == if old(headers).Some? && old(SiteResolves(remote)) && old(libraryId) == ""
                           then LibraryLookup(remote.drives, documentLibrary) else old(libraryId)
    {
      if headers.None? {
        return false;
      }
      if siteId == "" {
        var found := GetSiteId(remote);
        if !found {
          return false;
        }
      }
      if libraryId == "" {
        var found := GetLibraryId(remote);
        if !found {
          return false;
        }
      }
      var start := StartFolder(remote, folderPath);
      if start.None? {
        return false;
      }
      fileIndex := map[];
      fileOrder := [];
      RecurseItems(start.value, "", structured);
      ok := true;
    }

    /**
     * `_recurse_items(parent, current_path, structured)`: walks the listing
     * of `parent`, recording files in the index and descending into
     * folders; a failed listing records nothing.
     */
    method RecurseItems(parent: Node, currentPath: Path, structured: bool)
      requires Valid()
      modifies this`fileIndex, this`fileOrder
      ensures Valid()
      ensures fileIndex == Store(old(fileIndex), FolderRecords(parent, currentPath, structured))
      ensures fileOrder == Order(old(fileOrder), FolderRecords(parent, currentPath, structured))
      decreases parent
    {
      if !(parent.Folder? && parent.listingOk) {
        return;
      }
      ghost var index0, order0 := fileIndex, fileOrder;
      var items := parent.children;
      for i := 0 to |items|
        invariant Valid()
        invariant fileIndex == Store(index0, ListingRecords(parent, currentPath, structured, i))
        invariant fileOrder == Order(order0, ListingRecords(parent, currentPath, structured, i))
      {
        ghost var done := ListingRecords(parent, currentPath, structured, i);
        var item := items[i];
        if item.Folder? {
          RecurseItems(item, SubfolderPath(currentPath, item.name, structured), structured);
        } else {
          var fullPath := FileKey(currentPath, item.name, structured);
          OrderTracksStore(fileIndex, fileOrder, [Entry(fullPath, item.id)]);
          if fullPath !in fileIndex {
            fileOrder := fileOrder + [fullPath];
          }
          fileIndex := fileIndex[fullPath := item.id];
        }
        StoreAppend(index0, done, ItemRecords(item, currentPath, structured));
        OrderAppend(order0, done, ItemRecords(item, currentPath, structured));
      }
    }

    /**
     * `download_single_file`: look the key up, download, and with versioning
     * compare and archive before writing the target.
     */
    method DownloadSingleFile<T(==)>(filePath: Path, opts: SyncOptions, remote: Remote,
                                     readTable: (TableFormat, Bytes) -> Option<T>, now: Timestamp, fs: FileSystem)
      returns (ok: bool, fs': FileSystem)
      ensures ok == SyncFile(fileIndex, filePath, opts, remote.content, readTable, now, fs).outcome.Succeeded()
      ensures fs' == SyncFile(fileIndex, filePath, opts, remote.content, readTable, now, fs).fs
    {
      fs' := fs;
      if filePath !in fileIndex {
        return false, fs';
      }
      var itemId := fileIndex[filePath];
      var downloaded := DownloadFileContent(remote.content, itemId);
      if downloaded.None? || downloaded.value == [] {
        return false, fs';
      }
      var data := downloaded.value;
      var target := Join(opts.outputDir, filePath);
      if opts.versioning {
        if target in fs' {
          if !CompareFiles(data, target, fs', readTable) {
            return true, fs';
          }
        }
        var archived := CreateVersion(fs', target, opts.versionsDir, opts.cwd, now);
        fs' := archived.fs;
      }
      if HasNoDirectory(target) {
        return false, fs';
      }
      fs' := fs'[target := data];
      ok := true;
    }

    /** The per-key loop shared by the two batch operations. */
    method DownloadEach<T(==)>(keys: seq<Path>, opts: SyncOptions, remote: Remote,
                               readTable: (TableFormat, Bytes) -> Option<T>, clock: nat -> Timestamp, fs: FileSystem)
      returns (succeeded: nat, fs': FileSystem)
      ensures Tally(succeeded, fs') == SyncAll(fileIndex, keys, opts, remote.content, readTable, clock, fs)
    {
      succeeded, fs' := 0, fs;
      for i := 0 to |keys|
        invariant Tally(succeeded, fs') == SyncAll(fileIndex, keys[..i], opts, remote.content, readTable, clock, fs)
      {
        var ok;
        ok, fs' := DownloadSingleFile(keys[i], opts, remote, readTable, clock(i), fs');
        if ok {
          succeeded := succeeded + 1;
        }
        assert keys[..i + 1][..i] == keys[..i];
      }
      assert keys[..|keys|] == keys;
    }

    /**
     * `download_all_files`: an empty index is first filled by discovery
     * (failing the call when discovery fails); a non-empty one is reused as
     * it is, whatever `structured` and `folderPath` say. Then every indexed
     * key is synchronised once, in insertion order.
     */
    method DownloadAllFiles<T(==)>(opts: SyncOptions, structured: bool, folderPath: Path, remote: Remote,
                                   readTable: (TableFormat, Bytes) -> Option<T>, clock: nat -> Timestamp, fs: FileSystem)
      returns (ok: bool, succeeded: nat, total: nat, fs': FileSystem)
      requires Valid()
      modifies this`siteId, this`libraryId, this`fileIndex, this`fileOrder
      ensures Valid()
      ensures old(fileIndex) != map[] ==>
                ok && fileIndex == old(fileIndex) && fileOrder == old(fileOrder)
                && siteId == old(siteId) && libraryId == old(libraryId)
      ensures old(fileIndex) == map[] ==> ok == old(DiscoveryStarts(remote, folderPath))
      ensures old(fileIndex) == map[] && ok ==>
                fileIndex == Discovered(StartFolder(remote, folderPath).value, structured)
                && fileOrder == Order([], FolderRecords(StartFolder(remote, folderPath).value, "", structured))
      ensures old(fileIndex) == map[] ==>
                siteId == (if old(headers).Some? && old(siteId) == "" then SiteLookup(remote) else old(siteId))
                && libraryId == (if old(headers).Some? && old(SiteResolves(remote)) && old(libraryId) == ""
                                 then LibraryLookup(remote.drives, documentLibrary) else old(libraryId))
      ensures !ok ==> succeeded == 0 && total == 0 && fs' == fs && fileIndex == old(fileIndex) && fileOrder == old(fileOrder)
      ensures ok ==> total == |fileIndex| && succeeded <= total
                     && Tally(succeeded, fs') == SyncAll(fileIndex, fileOrder, opts, remote.content, readTable, clock, fs)
    {
      if fileIndex == map[] {
        var found := DiscoverFiles(structured, folderPath, remote);
        if !found {
          return false, 0, 0, fs;
        }
      }
      total := |fileIndex|;
      ConsistentSize(fileIndex, fileOrder);
      succeeded, fs' := DownloadEach(fileOrder, opts, remote, readTable, clock, fs);
      ok := true;
    }

    /**
     * `download_specific_files`: refuses to run on an empty index; otherwise
     * synchronises the listed keys in order (unknown keys just fail), and at
     * most all of them succeed.
     */
    method DownloadSpecificFiles<T(==)>(fileList: seq<Path>, opts: SyncOptions, remote: Remote,
                                        readTable: (TableFormat, Bytes) -> Option<T>, clock: nat -> Timestamp, fs: FileSystem)
      returns (ok: bool, succeeded: nat, fs': FileSystem)
      ensures fileIndex == map[] ==> !ok && succeeded == 0 && fs' == fs
      ensures fileIndex != map[] ==> ok && Tally(succeeded, fs') == SyncAll(fileIndex, fileList, opts, remote.content, readTable, clock, fs)
      ensures succeeded <= |fileList|
    {
      if fileIndex == map[] {
        return false, 0, fs;
      }
      succeeded, fs' := DownloadEach(fileList, opts, remote, readTable, clock, fs);
      ok := true;
    }

    /** `list_files`: every indexed key once, in insertion order. */
    function ListFiles(): (keys: seq<Path>)
      reads this
      requires Valid()
      ensures forall k :: k in keys <==> k in fileIndex
      ensures forall i, j :: 0 <= i < j < |keys| ==> keys[i] != keys[j]
    {
      fileOrder
    }

    /** `get_file_count`: the number of indexed keys, which is the length of `list_files()`. */
    function FileCount(): (n: nat)
      reads this
      requires Valid()
      ensures n == |ListFiles()|
    {
      ConsistentSize(fileIndex, fileOrder);
      |fileIndex|
    }
  }
}
