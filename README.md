# SharePoint downloader — a Dafny model

This project models the core of `SharePointDownloader`, a class that mirrors
the files of one SharePoint document library onto a local directory:

- **Discovery** resolves the site and the library (the first drive whose name
  equals the configured library name). It then walks the library's folder tree
  from the root or from a named folder, and builds the *file index*. The index
  maps a key to a remote item id. A key is either *structured* (the enclosing
  folders plus the file name, joined by `/`) or *flat* (the bare file name,
  where the last file visited under a name wins).
- **Comparison** decides whether a downloaded file differs from its local copy:
  - `.xlsx` and `.csv` compare as tables;
  - `.txt` compares as UTF-8 text;
  - anything else, a missing local file, or any error counts as "different".
- **Versioning** copies the previous local file to
  `versions_dir/<stem>_<YYYYMMDD_HHMMSS><ext>` before it is overwritten.
- **Download** of one key has three failure paths: the key is not indexed, the
  download fails or is empty, or the write fails. It has two success paths:
  the local copy is judged unchanged and left alone, or the new bytes are
  saved. The batch operations (all files, or a given list) count successes.

The model is split into modules:

| file | module | what it holds |
|---|---|---|
| `wrappers.dfy` | `Wrappers` | `Option` |
| `paths.dfy` | `Paths` | POSIX `os.path.join`, `basename`, `splitext` |
| `utf8.dfy` | `Utf8` | strict UTF-8 decoding, its inverse and its injectivity |
| `versions.dfy` | `Versions` | the local file system as a map, the timestamp format, `create_version` |
| `remote_tree.dfy` | `RemoteTree` | the library's folder tree, the walk that builds the index, and an independent definition of what the walk visits |
| `compare.dfy` | `Compare` | `compare_files` and its per-format rules |
| `downloader.dfy` | `Downloader` | the `SharePointDownloader` class, the per-file step and the batch loop |
| `scenarios.dfy` | `Scenarios` | two complete runs over a two-key index |

The remote side (Microsoft Graph) is a value of type `Downloader.Remote`:

- the site lookup's answer;
- the drive listing;
- the library root and the folders reachable by path;
- the content of every item that downloads with status 200.

Inside a folder, a child folder whose own listing fails has `listingOk == false`.

The local file system is a map from path to bytes. It is not part of the
downloader's state: the download methods take it and return the new one. Only
`DownloadAllFiles` changes the downloader, when it runs discovery. The
result of `pandas.read_excel` / `read_csv` is a `readTable` parameter: `None`
stands for a reader that raises, and equality of two results stands for
`DataFrame.equals`. The clock is a parameter too: `now` for a single file,
and `clock(i)` for the i-th file of a batch.

## Model

| member | source | states |
|---|---|---|
| `Downloader.SharePointDownloader.constructor` | SharePoint_downloader.py:18-35 | a new downloader has no token, no headers, no site or library id, and an empty index |
| `Downloader.SharePointDownloader.Authenticate` | SharePoint_downloader.py:37-60 | succeeds exactly when a token reply carries a non-empty token, and then sets the headers from it; a raised failure changes nothing; a reply without a token clears the token and keeps any earlier headers |
| `Downloader.SharePointDownloader.GetSiteId` | SharePoint_downloader.py:62-73 | succeeds exactly when the site lookup answers, storing its id; a failure leaves the site id as it was |
| `Downloader.FirstDriveId` | SharePoint_downloader.py:84-87 | no result exactly when no drive has the library's name; otherwise the id of a drive with that name that no earlier drive shares |
| `Downloader.LibraryLookup` | SharePoint_downloader.py:77-91 | a non-empty library id only comes from a drive listing, as the first matching drive's id |
| `Downloader.SharePointDownloader.GetLibraryId` | SharePoint_downloader.py:75-96 | a failed request keeps the old id; otherwise the id becomes the first matching drive's id ("" when none matches), and the call succeeds exactly when that id is non-empty |
| `Downloader.SharePointDownloader.DiscoverFiles` | SharePoint_downloader.py:98-136 | succeeds exactly when there are headers and the site, the library and the start folder all resolve; on failure the index is exactly the old one; on success it is replaced by the walk from the start folder alone, so no key of an earlier pass survives unless found again; cached site and library ids are used as they are |
| `Downloader.SharePointDownloader.RecurseItems` | SharePoint_downloader.py:138-163 | the index after the walk is the old index updated, in visiting order, with the records of `RemoteTree.FolderRecords`; the key order mirrors the dict's insertion order; a failed listing adds nothing |
| `RemoteTree.FolderRecordsAreVisits` | SharePoint_downloader.py:138-163 | the recursive walk records exactly the files of an independent preorder enumeration of the tree, each under the key `KeyOf` gives it |
| `RemoteTree.ListingRecordsAreVisits` | SharePoint_downloader.py:148-160 | after the first k items of a listing, the records are those of the first k items' enumeration |
| `RemoteTree.ItemRecordsAreVisits` | SharePoint_downloader.py:152-160 | one item contributes its own visit (a file) or, under its name, its folder's visits |
| `RemoteTree.StructuredKeys` | SharePoint_downloader.py:152-157 | in structured mode every visited file is recorded under its enclosing folder names plus its own name joined by `/`; a file directly in the start folder gets its bare name; for non-empty names without `/` |
| `RemoteTree.FlatKeys` | SharePoint_downloader.py:153-159 | in flat mode every record is a visited file's bare name and id |
| `RemoteTree.FlatLaterVisitWins` | SharePoint_downloader.py:153-160 | in flat mode a file's name maps to its id whenever no later visited file has the same name |
| `RemoteTree.DiscoveredSize` | SharePoint_downloader.py:127-160 | the rebuilt index has at most as many keys as the walk visited files |
| `RemoteTree.DiscoveredKeys` | SharePoint_downloader.py:127-160 | a key is in the rebuilt index exactly when some visited file has that key |
| `RemoteTree.FailedListingAddsNothing` | SharePoint_downloader.py:144-146 | removing a subfolder whose listing fails does not change the records of the walk |
| `RemoteTree.StoreKeys` | SharePoint_downloader.py:160 | after a sequence of dict assignments, a key is present exactly when it was before or was assigned; a key never assigned keeps its value |
| `RemoteTree.StoreLastWins` | SharePoint_downloader.py:160 | the last assignment to a key determines its value |
| `RemoteTree.StoreSize` | SharePoint_downloader.py:160 | assignments add at most one key each |
| `RemoteTree.OrderTracksStore` | SharePoint_downloader.py:160 | the insertion-order key list stays duplicate-free and holds exactly the dict's keys, and earlier keys keep their positions |
| `RemoteTree.StoreAppend` | SharePoint_downloader.py:148-160 | assigning two runs of records one after the other is assigning their concatenation |
| `RemoteTree.OrderAppend` | SharePoint_downloader.py:148-160 | the same for the insertion order |
| `Paths.JoinAllValid` | SharePoint_downloader.py:153-157 | joining non-empty separator-free names one after another from "" gives them separated by single `/` |
| `Paths.SlashedEndsWithLast` | SharePoint_downloader.py:153-157 | such a joined path is non-empty and does not end in `/` |
| `Paths.SplitExtParts` | SharePoint_downloader.py:242 | `splitext` gives a stem and an extension that concatenate to the name; the extension is empty or one dot followed by no further dot or separator; a non-empty extension leaves a stem with a character other than a dot |
| `Compare.RuleFor` | SharePoint_downloader.py:187-195 | the suffix test, in order: `.xlsx` and then `.csv` as tables, `.txt` as text, anything else unsupported |
| `Compare.TableDiffers` | SharePoint_downloader.py:201-219 | a table is unchanged exactly when the local file reads and both reads give equal tables; a reader failure counts as a change |
| `Compare.TextDiffers` | SharePoint_downloader.py:221-230 | text is unchanged exactly when both sides decode as UTF-8 and their bytes are equal (the corrected comparison; see Findings) |
| `Compare.TranslateNewlines` | SharePoint_downloader.py:224-225 | text-mode reading leaves no carriage return, and changes nothing in text without one |
| `Compare.CompareFiles` | SharePoint_downloader.py:181-199 | a missing target and an unsupported suffix count as changed; `.txt` is unchanged exactly when the local file decodes and equals the download (the corrected text comparison, see Findings); `.xlsx` / `.csv` as in `TableDiffers` |
| `Compare.SameBytesUnchanged` | SharePoint_downloader.py:181-230 | re-downloading a readable local file's exact bytes is judged unchanged exactly when its suffix is supported |
| `Compare.CrlfTextDiffersAsWritten` | SharePoint_downloader.py:221-230 | the source's text comparison calls the byte-identical file `a\r\n` changed, while the corrected one does not |
| `Compare.LfOverCrlfUnchangedAsWritten` | SharePoint_downloader.py:221-230 | the source's text comparison calls a download `a\n` over a local `a\r\n` unchanged, while the corrected one calls it changed |
| `Compare.SmallTexts` | SharePoint_downloader.py:224-226 | `61 0D 0A` decodes to `a\r\n`, `61 0A` to `a\n`, and text-mode reading turns `a\r\n` into `a\n` |
| `Compare.TextAsWrittenAgreesWithoutCr` | SharePoint_downloader.py:221-230 | the source's comparison and the corrected one agree whenever the local text has no carriage return |
| `Utf8.EncodeDecode` | SharePoint_downloader.py:224-226 | strict UTF-8 decoding loses nothing: encoding what decoded gives back the bytes |
| `Utf8.DecodeInjective` | SharePoint_downloader.py:226-227 | two decodable byte strings decode to the same text exactly when they are equal |
| `Versions.FormatRoundTrip` | SharePoint_downloader.py:240 | `%Y%m%d_%H%M%S` of a date-time is 15 characters: 8 digits, `_`, 6 digits; it parses back to the same date-time |
| `Versions.FormatInjective` | SharePoint_downloader.py:240 | two date-times format alike exactly when they are equal |
| `Versions.VersionNameHasNoSeparator` | SharePoint_downloader.py:241-245 | the archive name of a base name holds no separator, so the archive lands directly in the versions directory |
| `Versions.VersionNameKeepsExtension` | SharePoint_downloader.py:241-244 | the archive name splits into the original stem plus `_` plus the timestamp, and the original extension |
| `Versions.VersionNameLength` | SharePoint_downloader.py:240-244 | the archive name is the file name plus 16 characters (`_` and the 15-character timestamp) |
| `Versions.VersionPathIsNotTarget` | SharePoint_downloader.py:241-245 | the archive path is never the target itself: their base names differ in length |
| `Paths.BasenameOfJoin` | SharePoint_downloader.py:241-245 | the base name of a directory joined with a separator-free name is that name |
| `Versions.VersionNameInjective` | SharePoint_downloader.py:240-245 | two archive names are equal exactly when they come from the same file name at the same second |
| `Versions.CreateVersion` | SharePoint_downloader.py:232-253 | succeeds exactly when the target exists and the versions directory is not empty; on success exactly one path changes, the archive path, which receives the target's bytes; on failure nothing changes |
| `Downloader.SyncFile` | SharePoint_downloader.py:255-291 | not indexed, and download failed or empty, are false and change nothing; with versioning, an existing target judged unchanged is a success and changes nothing; otherwise the write succeeds exactly when the target has a directory part, after which the target holds exactly the downloaded bytes, and a failed write leaves the target as it was; a versioned overwrite of an existing target archives the old bytes first when the versions directory is not empty; no path other than the target and the archive changes, and when nothing is archived only the target may change |
| `Downloader.Overwrite` | SharePoint_downloader.py:277-291 | after a changed comparison: the save succeeds exactly when the target has a directory part, and the target then holds exactly the new bytes; a failed save leaves the target as it was; with versioning, an existing target and a non-empty versions directory the old bytes are archived first; no path other than the target and the archive changes, and when nothing is archived only the target may change |
| `Downloader.SharePointDownloader.DownloadSingleFile` | SharePoint_downloader.py:255-291 | the method's verdict and file system are those of `SyncFile` |
| `Downloader.SyncAll` | SharePoint_downloader.py:303-308 | the success count is at most the number of keys; a batch of unindexed keys succeeds nowhere and changes nothing |
| `Downloader.SyncAllFrame` | SharePoint_downloader.py:303-327 | a batch changes no path other than its keys' targets and archive paths |
| `Downloader.SharePointDownloader.DownloadEach` | SharePoint_downloader.py:321-325 | the loop's count and file system are those of `SyncAll` over the keys in order |
| `Downloader.SharePointDownloader.DownloadAllFiles` | SharePoint_downloader.py:293-311 | an empty index is filled by discovery first, with the same index, insertion order and cached site and library ids as `DiscoverFiles`, and when discovery fails the call fails, downloading nothing and keeping the index and its order; a non-empty index, its order and the ids are reused unchanged; then every indexed key is synchronised once in insertion order, the total is the index size, and successes are at most the total |
| `Downloader.SharePointDownloader.DownloadSpecificFiles` | SharePoint_downloader.py:313-328 | an empty index fails the call and nothing is downloaded; otherwise the listed keys are synchronised in order and at most all of them succeed |
| `Downloader.ConsistentSize` | SharePoint_downloader.py:304 | the insertion-order key list is as long as the index |
| `Downloader.SharePointDownloader.ListFiles` | SharePoint_downloader.py:330-331 | every indexed key exactly once |
| `Downloader.SharePointDownloader.FileCount` | SharePoint_downloader.py:333-334 | the number of indexed keys equals the length of `list_files()` |
| `Scenarios.ChangedFileIsArchivedThenOverwritten` | SharePoint_downloader.py:255-308 | with `a/b.txt` stored locally with different content, a versioned batch over `a/b.txt` and an undownloadable `c.txt` archives the old bytes as `versions/b_<timestamp>.txt`, writes the new bytes and counts one success |
| `Scenarios.IdenticalFileIsSkipped` | SharePoint_downloader.py:255-308 | with an identical local `a/b.txt`, the same batch counts one success and changes no file |

## Left out

- HTTP, the OAuth client-credentials request, the secret store and Spark are not modelled. Their answers are parameters: a `TokenReply`, and the `Remote` value with its site, drives, folders and item contents.
- Status codes are reduced to "answered or not". A `raise_for_status` failure, a non-200 answer and a missing `id` field are all the same "no answer".
- A malformed item in a children listing is left out: one without `name` or `id` would raise mid-loop and stop that folder's walk after the items before it. Every item in the model has both fields.
- Python's recursion limit on deep folder trees is not modelled.
- Console output (`print`) is left out.
- The fixed tenant host in the site URL and the site name are left out; only the lookup's answer is modelled.
- `pandas` parsing is the `readTable` parameter, as described above. Whether two spreadsheets are equal tables is not modelled.
- `shutil.copy2` copies bytes only; file metadata and times are not modelled.
- Directories are implicit: `os.makedirs` is modelled only by its failure on an empty name.
- `os.path.exists` on a directory, permission errors and full disks are not modelled. A write fails only when the target has no directory part; an archive fails only when the target is absent or the versions directory is "".
- `Downloader.SyncFile`: the source calls `create_version` even when versioning is on and no local copy exists. The model does this too and lets that call fail harmlessly.
- `Downloader.SyncFile`: `versioning_enabled == True` is a bool here; truthy values other than `True` are not modelled.
- `RemoteTree.StructuredKeys` assumes every remote name is non-empty and holds no `/`; for other names `os.path.join` can drop or merge folder parts and the lemma says nothing.
- `Versions.FormatRoundTrip` covers years 1000 to 9999. `strftime` pads other years differently by platform.
- `Downloader.SharePointDownloader.DownloadAllFiles` returns `ok` to separate the source's explicit `False` from reaching the loop. The source returns `None` after the loop, and returns no counts; `succeeded` and `total` are the two numbers it prints.
- `Downloader.SharePointDownloader.DownloadSpecificFiles` likewise returns `ok`, which is false only for the empty-index refusal; the source returns `None` after the loop.
- Downloads within one batch are a fixed map, so the same item gives the same bytes for the whole batch. A remote file changing during a batch is not modelled.
- `Compare.CompareFiles`: its `.txt` branch is the corrected comparison `Compare.TextDiffers`, not the text-mode read of the source; the two differ exactly when the local text holds a carriage return (`Compare.TextAsWrittenAgreesWithoutCr`).
- `Downloader.SyncFile`, `Downloader.SyncAll`, `Downloader.SharePointDownloader.DownloadSingleFile`, `Downloader.SharePointDownloader.DownloadAllFiles` and `Downloader.SharePointDownloader.DownloadSpecificFiles` use the corrected text comparison `Compare.TextDiffers`. The comparison as written is `Compare.TextDiffersAsWritten`; see Findings.

Three behaviours of the code are kept as written:

- an existing non-empty index is reused by `download_all_files` rather than rebuilt;
- "unchanged" counts as a success;
- the batch operations report only a success count.

## Findings

| source | as written | input that shows it | evidently intended | confidence | as-written member | corrected member |
|---|---|---|---|---|---|---|
| SharePoint_downloader.py:224-227 | the local file is read in text mode, which turns `\r\n` into `\n`, while the download is decoded raw; the two strings are then compared | local file and download both the bytes `61 0D 0A` (`a\r\n`) | a byte-identical text file is judged unchanged and is neither archived nor rewritten | high that the strings differ; not executed | `Compare.TextDiffersAsWritten`, counterexample `Compare.CrlfTextDiffersAsWritten` | `Compare.TextDiffers` |
| SharePoint_downloader.py:224-227 | the same translation hides a real change | local file `61 0D 0A` (`a\r\n`), download `61 0A` (`a\n`) | a download whose bytes differ from the local file is judged changed and is written | high that the strings are equal; not executed | `Compare.TextDiffersAsWritten`, counterexample `Compare.LfOverCrlfUnchangedAsWritten` | `Compare.TextDiffers` |
