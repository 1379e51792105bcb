/**
 * Change detection (`compare_files` and its per-format helpers): decides
 * whether freshly downloaded bytes differ from the local copy. Every doubt
 * counts as "differs": a missing local file, an extension without a
 * comparison rule, and any parsing or decoding error.
 */
module Compare {
  import opened Wrappers
  import opened Paths
  import opened Utf8
  import opened Versions

  /** The tabular formats compared through a table reader (pandas `read_excel`, `read_csv`). */
  datatype TableFormat = Xlsx | Csv

  /** The comparison rule chosen by the target's suffix, tested in this order. */
  datatype Rule = Table(format: TableFormat) | Text | Unsupported

  function RuleFor(target: Path): (r: Rule)
    ensures r == Table(Xlsx) <==> EndsWith(target, ".xlsx")
    ensures r == Table(Csv) <==> EndsWith(target, ".csv") && !EndsWith(target, ".xlsx")
    ensures r == Text <==> EndsWith(target, ".txt") && !EndsWith(target, ".csv") && !EndsWith(target, ".xlsx")
  {
    if EndsWith(target, ".xlsx") then Table(Xlsx)
    else if EndsWith(target, ".csv") then Table(Csv)
    else if EndsWith(target, ".txt") then Text
    else Unsupported
  }

  /**
   * `_compare_excel_files` / `_compare_csv_files`: `readTable` stands for
   * pandas' reader (None when it raises) and equality of its results for
   * `DataFrame.equals`; the local file is read first.
   */
  function TableDiffers<T(==)>(format: TableFormat, downloaded: Bytes, local: Bytes,
                               readTable: (TableFormat, Bytes) -> Option<T>): (differs: bool)
    ensures !differs <==> readTable(format, local).Some? && readTable(format, local) == readTable(format, downloaded)
  {
    match (readTable(format, local), readTable(format, downloaded))
    case (Some(current), Some(latest)) => current != latest
    case _ => true
  }

  /**
   * Python's universal-newline translation on text-mode reads: "\r\n" and a
   * lone "\r" both become "\n".
   */
  function TranslateNewlines(s: string): (r: string)
    ensures '\r' !in r
    ensures '\r' !in s ==> r == s
  {
    if s == [] then []
    else if s[0] == '\r' then "\n" + TranslateNewlines(if |s| > 1 && s[1] == '\n' then s[2..] else s[1..])
    else [s[0]] + TranslateNewlines(s[1..])
  }

  /**
   * `_compare_text_files` as written: the local file is opened in text mode,
   * so its line endings are translated, while the download is decoded as is.
   */
  function TextDiffersAsWritten(downloaded: Bytes, local: Bytes): bool
  {
    match (Decode(local), Decode(downloaded))
    case (Some(current), Some(latest)) => TranslateNewlines(current) != latest
    case _ => true
  }

  /**
   * `_compare_text_files` with both sides decoded alike (the local file read
   * without newline translation): strict UTF-8 decoding of both, then exact
   * string inequality; a decoding error counts as "differs". Because
   * decoding is injective this is "the bytes differ" for decodable files.
   */
  function TextDiffers(downloaded: Bytes, local: Bytes): (differs: bool)
    ensures differs <==> Decode(local).None? || Decode(downloaded).None? || local != downloaded
  {
    match (Decode(local), Decode(downloaded))
    case (Some(current), Some(latest)) =>
      DecodeInjective(local, downloaded);
      current != latest
    case _ => true
  }

  /**
   * `compare_files(downloaded, target)` against the local file system. A
   * missing target and an unsupported suffix count as different; `.txt`
   * compares decoded text, `.xlsx` and `.csv` compare read tables.
   */
  function CompareFiles<T(==)>(downloaded: Bytes, target: Path, fs: FileSystem,
                               readTable: (TableFormat, Bytes) -> Option<T>): (differs: bool)
    ensures target !in fs ==> differs
    ensures RuleFor(target) == Unsupported ==> differs
    ensures target in fs && RuleFor(target) == Text ==>
              (!differs <==> Decode(fs[target]).Some? && fs[target] == downloaded)
    ensures target in fs && RuleFor(target).Table? ==>
              (!differs <==> readTable(RuleFor(target).format, fs[target]).Some?
                             && readTable(RuleFor(target).format, fs[target]) == readTable(RuleFor(target).format, downloaded))
  {
    if target !in fs then true
    else match RuleFor(target)
      case Table(format) => TableDiffers(format, downloaded, fs[target], readTable)
      case Text => TextDiffers(downloaded, fs[target])
      case Unsupported => true
  }

  /**
   * Re-downloading the very bytes of a local file that can be read is never
   * a change, whatever its format rule (except an unsupported one).
   */
  lemma SameBytesUnchanged<T>(downloaded: Bytes, target: Path, fs: FileSystem,
                                  readTable: (TableFormat, Bytes) -> Option<T>)
    requires target in fs && fs[target] == downloaded
    requires RuleFor(target) == Text ==> Decode(downloaded).Some?
    requires RuleFor(target).Table? ==> readTable(RuleFor(target).format, downloaded).Some?
    ensures !CompareFiles(downloaded, target, fs, readTable) <==> RuleFor(target) != Unsupported
  {
  }

  /** The two small texts of the findings below, decoded and read back in text mode. */
  lemma SmallTexts()
    ensures Decode([0x61, 0x0D, 0x0A]) == Some("a\r\n")
    ensures Decode([0x61, 0x0A]) == Some("a\n")
    ensures TranslateNewlines("a\r\n") == "a\n"
  {
    var crlf: Bytes := [0x61, 0x0D, 0x0A];
    var lf: Bytes := [0x0A];
    var alf: Bytes := [0x61, 0x0A];
    assert lf[1..] == [];
    assert DecodeFirst(lf) == Some((10, 1));
    assert (10 as char) == '\n';
    assert Decode(lf[1..]) == Some([]);
    assert [10 as char] + [] == "\n";
    assert Decode(lf) == Some("\n");
    assert DecodeFirst(crlf[1..]) == Some((13, 1));
    assert (13 as char) == '\r';
    assert DecodeFirst(crlf) == Some((0x61, 1));
    assert (0x61 as char) == 'a';
    assert crlf[1..][1..] == lf;
    assert [13 as char] + "\n" == "\r\n";
    assert Decode(crlf[1..]) == Some("\r\n");
    assert [0x61 as char] + "\r\n" == "a\r\n";
    assert DecodeFirst(alf) == Some((0x61, 1));
    assert alf[1..] == lf;
    assert [0x61 as char] + "\n" == "a\n";
    var s := "a\r\n";
    assert s[1..] == "\r\n" && s[1..][2..] == [];
  }

  /**
   * As written, a byte-identical text file with Windows line endings counts
   * as changed: "a\r\n" read back from disk is "a\n".
   */
  lemma CrlfTextDiffersAsWritten()
    ensures var crlf: Bytes := [0x61, 0x0D, 0x0A];
            TextDiffersAsWritten(crlf, crlf) && !TextDiffers(crlf, crlf)
  {
    SmallTexts();
  }

  /**
   * The other way round: as written, a download "a\n" over a local
   * "a\r\n" counts as unchanged, so the local bytes are kept although
   * they differ.
   */
  lemma LfOverCrlfUnchangedAsWritten()
    ensures var crlf: Bytes := [0x61, 0x0D, 0x0A];
            var lf: Bytes := [0x61, 0x0A];
            !TextDiffersAsWritten(lf, crlf) && TextDiffers(lf, crlf)
  {
    SmallTexts();
  }

  /** Without carriage returns in the local text, the as-written comparison agrees with the corrected one. */
  lemma TextAsWrittenAgreesWithoutCr(downloaded: Bytes, local: Bytes)
    requires Decode(local).Some? ==> '\r' !in Decode(local).value
    ensures TextDiffersAsWritten(downloaded, local) == TextDiffers(downloaded, local)
  {
  }
}
