/**
 * Version archiving (`create_version`): the archive name is the file's stem,
 * an underscore, the `%Y%m%d_%H%M%S` timestamp and the file's extension, in
 * the given versions directory or `versions` under the working directory;
 * the archive holds a copy of the file's bytes. The clock is an input.
 */
module Versions {
  import opened Wrappers
  import opened Paths
  import opened Utf8

  /** The local file system: the bytes of every existing file, by path. */
  type FileSystem = map<Path, Bytes>

  /** A wall-clock reading with second resolution. */
  datatype Moment = Moment(year: nat, month: nat, day: nat, hour: nat, minute: nat, second: nat)

  predicate IsDateTime(m: Moment)
  {
    1000 <= m.year <= 9999 && 1 <= m.month <= 12 && 1 <= m.day <= 31
    && m.hour < 24 && m.minute < 60 && m.second < 60
  }

  /** The readings `datetime.now()` produces (four-digit years). */
  type Timestamp = m: Moment | IsDateTime(m) witness Moment(2000, 1, 1, 0, 0, 0)

  function Pow10(n: nat): nat
  {
    if n == 0 then 1 else 10 * Pow10(n - 1)
  }

  function DigitChar(d: nat): char
    requires d < 10
  {
    "0123456789"[d]
  }

  predicate IsDigit(c: char)
  {
    '0' <= c <= '9'
  }

  /** `n` in decimal, zero-padded to `width` digits (`%02d`, `%04d`). */
  function Digits(n: nat, width: nat): (s: string)
    ensures |s| == width
    ensures forall i :: 0 <= i < |s| ==> IsDigit(s[i])
  {
    if width == 0 then "" else Digits(n / 10, width - 1) + [DigitChar(n % 10)]
  }

  /** The value of a string of decimal digits. */
  function DigitsValue(s: string): nat
    requires forall i :: 0 <= i < |s| ==> IsDigit(s[i])
  {
    if s == [] then 0
    else
      assert IsDigit(s[|s| - 1]);
      10 * DigitsValue(s[..|s| - 1]) + (s[|s| - 1] as int - '0' as int)
  }

  lemma {:induction false} DigitsRoundTrip(n: nat, width: nat)
    requires n < Pow10(width)
    ensures DigitsValue(Digits(n, width)) == n
  {
    if width > 0 {
      DigitsRoundTrip(n / 10, width - 1);
      var s := Digits(n, width);
      assert s[..|s| - 1] == Digits(n / 10, width - 1);
      assert "0123456789"[n % 10] as int - '0' as int == n % 10;
    }
  }

  /** `strftime('%Y%m%d_%H%M%S')`. */
  function Format(t: Timestamp): string
  {
    Digits(t.year, 4) + Digits(t.month, 2) + Digits(t.day, 2) + "_"
    + Digits(t.hour, 2) + Digits(t.minute, 2) + Digits(t.second, 2)
  }

  /** Reads a `YYYYMMDD_HHMMSS` string back, if it is one. */
  function ParseStamp(s: string): Option<Timestamp>
  {
    if |s| == 15 && s[8] == '_'
       && (forall i :: 0 <= i < 15 && i != 8 ==> IsDigit(s[i]))
    then
      var m := Moment(DigitsValue(s[0..4]), DigitsValue(s[4..6]), DigitsValue(s[6..8]),
                      DigitsValue(s[9..11]), DigitsValue(s[11..13]), DigitsValue(s[13..15]));
      if IsDateTime(m) then Some(m) else None
    else None
  }

  /** The timestamp text is 15 characters, digits around one underscore, and it determines the reading. */
  lemma FormatRoundTrip(t: Timestamp)
    ensures |Format(t)| == 15 && Format(t)[8] == '_'
    ensures forall i :: 0 <= i < 15 && i != 8 ==> IsDigit(Format(t)[i])
    ensures ParseStamp(Format(t)) == Some(t)
  {
    var s := Format(t);
    assert s[0..4] == Digits(t.year, 4);
    assert s[4..6] == Digits(t.month, 2);
    assert s[6..8] == Digits(t.day, 2);
    assert s[9..11] == Digits(t.hour, 2);
    assert s[11..13] == Digits(t.minute, 2);
    assert s[13..15] == Digits(t.second, 2);
    assert Pow10(2) == 100 && Pow10(4) == 10000;
    DigitsRoundTrip(t.year, 4);
    DigitsRoundTrip(t.month, 2);
    DigitsRoundTrip(t.day, 2);
    DigitsRoundTrip(t.hour, 2);
    DigitsRoundTrip(t.minute, 2);
    DigitsRoundTrip(t.second, 2);
  }

  /** Distinct readings give distinct timestamp texts. */
  lemma FormatInjective(t: Timestamp, u: Timestamp)
    ensures Format(t) == Format(u) <==> t == u
  {
    FormatRoundTrip(t);
    FormatRoundTrip(u);
  }

  /** `f"{name}_{timestamp}{ext}"` for `name, ext = os.path.splitext(filename)`. */
  function VersionName(filename: string, t: Timestamp): string
  {
    var (stem, ext) := SplitExt(filename);
    stem + "_" + Format(t) + ext
  }

  /** The directory archives go to: the one given, or `versions` under the working directory. */
  function ArchiveDir(versionsDir: Option<Path>, cwd: Path): Path
  {
    match versionsDir
    case Some(d) => d
    case None => Join(cwd, "versions")
  }

  /** Where `create_version(target, versions_dir)` copies `target` at time `t`. */
  function VersionPath(target: Path, versionsDir: Option<Path>, cwd: Path, t: Timestamp): Path
  {
    Join(ArchiveDir(versionsDir, cwd), VersionName(Basename(target), t))
  }

  /** An archive name is its file name plus `_` and the 15-character timestamp. */
  lemma VersionNameLength(filename: string, t: Timestamp)
    ensures |VersionName(filename, t)| == |filename| + 16
  {
    SplitExtParts(filename);
    FormatRoundTrip(t);
  }

  /**
   * A file is never archived onto itself: the archive's basename is the
   * target's basename lengthened by the timestamp suffix.
   */
  lemma VersionPathIsNotTarget(target: Path, versionsDir: Option<Path>, cwd: Path, t: Timestamp)
    ensures VersionPath(target, versionsDir, cwd, t) != target
  {
    var name := Basename(target);
    var v := VersionName(name, t);
    VersionNameLength(name, t);
    VersionNameHasNoSeparator(name, t);
    BasenameOfJoin(ArchiveDir(versionsDir, cwd), v);
    assert Basename(VersionPath(target, versionsDir, cwd, t)) == v;
    assert |v| != |name|;
  }

  /** The result of `create_version`: whether it reported success, and the file system after it. */
  datatype Archived = Archived(ok: bool, fs: FileSystem)

  /**
   * `create_version`: `os.makedirs` of an empty directory name fails, and
   * `shutil.copy2` fails when the target does not exist; either way nothing
   * is written. Otherwise the version path receives the target's bytes.
   */
  function CreateVersion(fs: FileSystem, target: Path, versionsDir: Option<Path>, cwd: Path, t: Timestamp): (r: Archived)
    ensures r.ok <==> target in fs && ArchiveDir(versionsDir, cwd) != []
    ensures !r.ok ==> r.fs == fs
    ensures r.ok ==> r.fs == fs[VersionPath(target, versionsDir, cwd, t) := fs[target]]
  {
    if ArchiveDir(versionsDir, cwd) == [] || target !in fs then Archived(false, fs)
    else Archived(true, fs[VersionPath(target, versionsDir, cwd, t) := fs[target]])
  }

  /** An archive name never contains a separator. */
  lemma VersionNameHasNoSeparator(filename: string, t: Timestamp)
    requires '/' !in filename
    ensures '/' !in VersionName(filename, t)
  {
    var (stem, ext) := SplitExt(filename);
    SplitExtParts(filename);
    assert filename == stem + ext;
    FormatRoundTrip(t);
    var s := Format(t);
    forall i | 0 <= i < |s| ensures s[i] != '/' {
      if i != 8 { assert IsDigit(s[i]); }
    }
    var v := VersionName(filename, t);
    assert v == stem + "_" + s + ext;
    forall i | 0 <= i < |v| ensures v[i] != '/' {
      if i < |stem| {
        assert v[i] == filename[i];
      } else if i == |stem| {
      } else if i < |stem| + 1 + |s| {
        assert v[i] == s[i - |stem| - 1];
      } else {
        assert v[i] == filename[i - 16];
      }
    }
  }

  /** A name `splitext` gives no extension keeps none after a dot-free, separator-free suffix. */
  lemma NoExtensionStays(stem: string, tail: string)
    requires '/' !in stem && '/' !in tail && '.' !in tail
    requires SplitExt(stem) == (stem, "")
    ensures SplitExt(stem + tail) == (stem + tail, "")
  {
    var v := stem + tail;
    assert '/' !in v;
    assert forall i :: |stem| <= i < |v| ==> v[i] != '.' by {
      forall i | |stem| <= i < |v| ensures v[i] != '.' { assert v[i] == tail[i - |stem|]; }
    }
    var dot := LastIndexOf(v, '.');
    if dot >= 0 {
      assert dot < |stem|;
      assert stem[dot] == '.' by { assert v[dot] == stem[dot]; }
      assert forall j :: dot < j < |stem| ==> stem[j] != '.' by {
        forall j | dot < j < |stem| ensures stem[j] != '.' { assert v[j] == stem[j]; }
      }
      assert LastIndexOf(stem, '.') == dot;
      assert AllDots(stem, 0, dot);
      assert AllDots(v, 0, dot) by {
        forall j | 0 <= j < dot ensures v[j] == '.' { assert v[j] == stem[j]; }
      }
    }
  }

  /** An extension `splitext` found stays the extension when text is inserted before it. */
  lemma ExtensionMoves(stem: string, tail: string, ext: string)
    requires '/' !in stem && '/' !in tail && '/' !in ext
    requires ext != [] && ext[0] == '.' && '.' !in ext[1..]
    requires exists j :: 0 <= j < |stem| && stem[j] != '.'
    ensures SplitExt(stem + tail + ext) == (stem + tail, ext)
  {
    var head := stem + tail;
    var v := head + ext;
    assert '/' !in v;
    var d := |head|;
    assert v[d] == '.';
    assert forall j :: d < j < |v| ==> v[j] != '.' by {
      forall j | d < j < |v| ensures v[j] != '.' {
        assert v[j] == ext[1..][j - d - 1];
      }
    }
    assert LastIndexOf(v, '.') == d;
    var j :| 0 <= j < |stem| && stem[j] != '.';
    assert v[j] == stem[j];
    assert !AllDots(v, 0, d);
    assert v[..d] == head && v[d..] == ext;
  }

  /**
   * `splitext` of an archive name gives back the original extension and the
   * stem with the timestamp suffix: an archive keeps its file's type.
   */
  lemma VersionNameKeepsExtension(filename: string, t: Timestamp)
    requires '/' !in filename
    ensures SplitExt(VersionName(filename, t)) == (SplitExt(filename).0 + "_" + Format(t), SplitExt(filename).1)
  {
    var (stem, ext) := SplitExt(filename);
    SplitExtParts(filename);
    FormatRoundTrip(t);
    var ts := Format(t);
    var tail := "_" + ts;
    assert forall i :: 0 <= i < |tail| ==> tail[i] != '.' && tail[i] != '/' by {
      forall i | 0 <= i < |tail| ensures tail[i] != '.' && tail[i] != '/' {
        if i != 0 && i != 9 { assert tail[i] == ts[i - 1] && IsDigit(ts[i - 1]); }
      }
    }
    assert '/' !in stem by { assert forall i :: 0 <= i < |stem| ==> stem[i] == filename[i]; }
    assert '/' !in ext by { assert forall i :: 0 <= i < |ext| ==> ext[i] == filename[|stem| + i]; }
    assert stem + "_" + ts == stem + tail;
    if ext == [] {
      assert stem == filename;
      NoExtensionStays(stem, tail);
      assert VersionName(filename, t) == stem + tail;
    } else {
      ExtensionMoves(stem, tail, ext);
      assert VersionName(filename, t) == stem + tail + ext;
    }
  }

  /** Two strings ending in `_` and a tail of the same length agree exactly when both parts do. */
  lemma SplitTail(a: string, b: string, c: string, d: string)
    requires |b| == |d| && a + "_" + b == c + "_" + d
    ensures a == c && b == d
  {
    var s := a + "_" + b;
    assert a == s[..|s| - |b| - 1] && b == s[|s| - |b|..];
    assert c == s[..|s| - |d| - 1] && d == s[|s| - |d|..];
  }

  /**
   * Two archive names coincide only for the same file name at the same
   * second: two archives of one file within one second collide (the later
   * copy wins), and no other pair does.
   */
  lemma VersionNameInjective(f: string, g: string, t: Timestamp, u: Timestamp)
    requires '/' !in f && '/' !in g
    ensures VersionName(f, t) == VersionName(g, u) <==> f == g && t == u
  {
    if VersionName(f, t) == VersionName(g, u) {
      VersionNameKeepsExtension(f, t);
      VersionNameKeepsExtension(g, u);
      FormatRoundTrip(t);
      FormatRoundTrip(u);
      SplitTail(SplitExt(f).0, Format(t), SplitExt(g).0, Format(u));
      FormatInjective(t, u);
      SplitExtParts(f);
      SplitExtParts(g);
    }
  }
}
