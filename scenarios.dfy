/**
 * Two end-to-end runs of the synchronisation over the index
 * {"a/b.txt": "id1", "c.txt": "id2"} with versioning on, where only "id1"
 * downloads: once with a changed local "a/b.txt", once with an identical one.
 */
module Scenarios {
  import opened Wrappers
  import opened Paths
  import opened Utf8
  import opened Versions
  import opened Compare
  import opened Downloader

  const Index: map<Path, string> := map["a/b.txt" := "id1", "c.txt" := "id2"]
  const Keys: seq<Path> := ["a/b.txt", "c.txt"]
  const Old: Bytes := [0x6F, 0x6C, 0x64]  // "old"
  const New: Bytes := [0x6E, 0x65, 0x77]  // "new"

  function Options(cwd: Path): SyncOptions
  {
    SyncOptions("out", true, Some("versions"), cwd)
  }

  lemma AsciiDecodes(b: Bytes)
    requires |b| == 3 && forall i :: 0 <= i < 3 ==> b[i] < 0x80
    ensures Decode(b).Some?
  {
    assert b[1..][1..][1..] == [];
    assert Decode(b[1..][1..][1..]).Some?;
    assert Decode(b[1..][1..]).Some?;
    assert Decode(b[1..]).Some?;
  }

  lemma TargetBasename()
    ensures Basename("out/a/b.txt") == "b.txt"
  {
    var target: Path := "out/a/b.txt";
    assert target[5] == '/' && forall j :: 5 < j < |target| ==> target[j] != '/';
    assert LastIndexOf(target, '/') == 5;
    assert target[6..] == "b.txt";
  }

  lemma NameSplit()
    ensures SplitExt("b.txt") == ("b", ".txt")
  {
    var name: string := "b.txt";
    assert LastIndexOf(name, '/') == -1;
    assert name[1] == '.' && forall j :: 1 < j < |name| ==> name[j] != '.';
    assert LastIndexOf(name, '.') == 1;
    assert name[0] != '.';
    assert !AllDots(name, 0, 1);
    assert name[..1] == "b" && name[1..] == ".txt";
  }

  lemma TargetFacts(cwd: Path)
    ensures TargetOf(Options(cwd), "a/b.txt") == "out/a/b.txt"
    ensures RuleFor("out/a/b.txt") == Text
    ensures !HasNoDirectory("out/a/b.txt")
  {
    var target: Path := "out/a/b.txt";
    assert Join("out", "a/b.txt") == target;
    assert target[|target| - 4..] == ".txt";
    assert target[3] == '/';
  }

  lemma NameVersion(t: Timestamp)
    ensures VersionName("b.txt", t) == "b_" + Format(t) + ".txt"
  {
    NameSplit();
  }

  lemma ArchiveFacts(cwd: Path, t: Timestamp)
    ensures ArchiveOf(Options(cwd), "a/b.txt", t) == "versions/b_" + Format(t) + ".txt"
  {
    var opts := Options(cwd);
    var target := TargetOf(opts, "a/b.txt");
    TargetFacts(cwd);
    assert target == "out/a/b.txt";
    TargetBasename();
    var name := Basename(target);
    assert name == "b.txt";
    NameVersion(t);
    var v := "b_" + Format(t) + ".txt";
    assert VersionName(name, t) == v;
    assert ArchiveDir(opts.versionsDir, opts.cwd) == "versions";
    assert v[0] == 'b';
    assert ArchiveOf(opts, "a/b.txt", t) == Join("versions", v);
    assert Join("versions", v) == "versions" + "/" + v;
    assert "versions" + "/" == "versions/" && "versions/" + "b_" == "versions/b_";
    Regroup("versions" + "/", "b_", Format(t), ".txt");
  }

  lemma Regroup(a: string, b: string, c: string, d: string)
    ensures a + (b + c + d) == a + b + c + d
  {
  }

  lemma TargetAndArchive(cwd: Path, t: Timestamp)
    ensures TargetOf(Options(cwd), "a/b.txt") == "out/a/b.txt"
    ensures RuleFor("out/a/b.txt") == Text
    ensures !HasNoDirectory("out/a/b.txt")
    ensures ArchiveOf(Options(cwd), "a/b.txt", t) == "versions/b_" + Format(t) + ".txt"
    ensures "out/a/b.txt" != "versions/b_" + Format(t) + ".txt"
  {
    TargetFacts(cwd);
    ArchiveFacts(cwd, t);
    var a := "versions/b_" + Format(t) + ".txt";
    assert a[0] == 'v';
  }

  /** The comparator's verdict on "out/a/b.txt" holding `local` against a download of "new". */
  lemma Verdict<T>(local: Bytes, readTable: (TableFormat, Bytes) -> Option<T>)
    requires local == Old || local == New
    ensures CompareFiles(New, "out/a/b.txt", map["out/a/b.txt" := local], readTable) <==> local == Old
  {
    TargetFacts("");
    AsciiDecodes(local);
    assert Old != New by { assert Old[0] != New[0]; }
  }

  lemma Fetches()
    ensures Fetched(Index, "a/b.txt", map["id1" := New])
    ensures !Fetched(Index, "c.txt", map["id1" := New])
  {
    assert Index["a/b.txt"] == "id1" && Index["c.txt"] == "id2";
    assert "id2" != "id1";
  }

  /** "a/b.txt" whose local copy differs from the download is archived and overwritten. */
  lemma ChangedStep<T>(readTable: (TableFormat, Bytes) -> Option<T>, cwd: Path, t: Timestamp)
    ensures var fs := map["out/a/b.txt" := Old];
            SyncFile(Index, "a/b.txt", Options(cwd), map["id1" := New], readTable, t, fs)
              == Step(Saved, fs["versions/b_" + Format(t) + ".txt" := Old]["out/a/b.txt" := New])
  {
    var fs := map["out/a/b.txt" := Old];
    TargetAndArchive(cwd, t);
    Verdict(Old, readTable);
    Fetches();
  }

  /** "a/b.txt" whose local copy equals the download is left alone. */
  lemma UnchangedStep<T>(readTable: (TableFormat, Bytes) -> Option<T>, cwd: Path, t: Timestamp)
    ensures var fs := map["out/a/b.txt" := New];
            SyncFile(Index, "a/b.txt", Options(cwd), map["id1" := New], readTable, t, fs) == Step(Unchanged, fs)
  {
    TargetFacts(cwd);
    Verdict(New, readTable);
    Fetches();
  }

  /** "c.txt" is indexed but its download fails, whatever the file system. */
  lemma SecondFails<T>(opts: SyncOptions, readTable: (TableFormat, Bytes) -> Option<T>, t: Timestamp, fs: FileSystem)
    ensures SyncFile(Index, "c.txt", opts, map["id1" := New], readTable, t, fs) == Step(DownloadFailed, fs)
  {
    Fetches();
  }

  /** Two keys in a row: the result of the second step after the first. */
  lemma TwoKeys<T>(keys: seq<Path>, opts: SyncOptions, content: map<string, Bytes>,
                   readTable: (TableFormat, Bytes) -> Option<T>, clock: nat -> Timestamp, fs: FileSystem)
    requires |keys| == 2
    ensures var first := SyncFile(Index, keys[0], opts, content, readTable, clock(0), fs);
            var second := SyncFile(Index, keys[1], opts, content, readTable, clock(1), first.fs);
            SyncAll(Index, keys, opts, content, readTable, clock, fs)
              == Tally((if first.outcome.Succeeded() then 1 else 0) + (if second.outcome.Succeeded() then 1 else 0), second.fs)
  {
    var once := keys[..1];
    assert once[..0] == [] && once[0] == keys[0];
    OneKey(once, opts, content, readTable, clock, fs);
  }

  /** A batch of one key is that key's step. */
  lemma OneKey<T>(keys: seq<Path>, opts: SyncOptions, content: map<string, Bytes>,
                  readTable: (TableFormat, Bytes) -> Option<T>, clock: nat -> Timestamp, fs: FileSystem)
    requires |keys| == 1
    ensures var first := SyncFile(Index, keys[0], opts, content, readTable, clock(0), fs);
            SyncAll(Index, keys, opts, content, readTable, clock, fs)
              == Tally(if first.outcome.Succeeded() then 1 else 0, first.fs)
  {
    assert keys[..0] == [];
  }

  /**
   * A changed local file is archived and then overwritten: afterwards
   * "out/a/b.txt" holds the new bytes, "versions/b_<timestamp>.txt" the old
   * ones, and one file succeeded ("c.txt" fails to download).
   */
  lemma ChangedFileIsArchivedThenOverwritten<T>(readTable: (TableFormat, Bytes) -> Option<T>, cwd: Path, clock: nat -> Timestamp)
    ensures var fs := map["out/a/b.txt" := Old];
            SyncAll(Index, Keys, Options(cwd), map["id1" := New], readTable, clock, fs)
              == Tally(1, fs["versions/b_" + Format(clock(0)) + ".txt" := Old]["out/a/b.txt" := New])
  {
    var fs := map["out/a/b.txt" := Old];
    var content := map["id1" := New];
    ChangedStep(readTable, cwd, clock(0));
    var after := fs["versions/b_" + Format(clock(0)) + ".txt" := Old]["out/a/b.txt" := New];
    SecondFails(Options(cwd), readTable, clock(1), after);
    TwoKeys(Keys, Options(cwd), content, readTable, clock, fs);
  }

  /**
   * An identical local file counts as a success and is left untouched; no
   * archive is written, so the file system does not change at all.
   */
  lemma IdenticalFileIsSkipped<T>(readTable: (TableFormat, Bytes) -> Option<T>, cwd: Path, clock: nat -> Timestamp)
    ensures var fs := map["out/a/b.txt" := New];
            SyncAll(Index, Keys, Options(cwd), map["id1" := New], readTable, clock, fs) == Tally(1, fs)
  {
    var fs := map["out/a/b.txt" := New];
    var content := map["id1" := New];
    UnchangedStep(readTable, cwd, clock(0));
    SecondFails(Options(cwd), readTable, clock(1), fs);
    TwoKeys(Keys, Options(cwd), content, readTable, clock, fs);
  }
}
