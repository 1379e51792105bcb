/**
 * The POSIX path operations the downloader relies on (Python's `posixpath`):
 * `join` of two components, `basename`, `dirname` being empty, `splitext`,
 * and `str.endswith`. Paths are strings with '/' as the separator.
 */
module Paths {

  type Path = string

  /** `a.endswith(suffix)`. */
  predicate EndsWith(a: string, suffix: string)
  {
    |suffix| <= |a| && a[|a| - |suffix|..] == suffix
  }

  /** `s.rfind(c)`: the index of the last occurrence of `c`, or -1. */
  function LastIndexOf(s: string, c: char): (i: int)
    ensures -1 <= i < |s|
    ensures i >= 0 ==> s[i] == c
    ensures forall j :: i < j < |s| ==> s[j] != c
    ensures i == -1 <==> c !in s
  {
    if s == [] then -1
    else if s[|s| - 1] == c then |s| - 1
    else LastIndexOf(s[..|s| - 1], c)
  }

  /**
   * `os.path.join(a, b)`: an absolute `b` replaces `a`; otherwise `b` is
   * appended, with a separator unless `a` is empty or already ends in one.
   */
  function Join(a: Path, b: Path): Path
  {
    if |b| > 0 && b[0] == '/' then b
    else if a == [] || a[|a| - 1] == '/' then a + b
    else a + "/" + b
  }

  /** `os.path.basename(p)`: everything after the last separator. */
  function Basename(p: Path): (name: string)
    ensures '/' !in name
    ensures EndsWith(p, name)
  {
    p[LastIndexOf(p, '/') + 1..]
  }

  /** Joining a non-empty name without separators onto any directory gives that name back as the basename. */
  lemma BasenameOfJoin(d: Path, name: string)
    requires name != [] && '/' !in name
    ensures Basename(Join(d, name)) == name
  {
    var j := Join(d, name);
    var pre := j[..|j| - |name|];
    assert j == pre + name && j[|pre|..] == name;
    assert pre == [] || pre[|pre| - 1] == '/';
    assert forall i :: |pre| <= i < |j| ==> j[i] != '/' by {
      forall i | |pre| <= i < |j| ensures j[i] != '/' { assert j[i] == name[i - |pre|]; }
    }
    if pre == [] {
      assert LastIndexOf(j, '/') == -1;
    } else {
      assert j[|pre| - 1] == '/';
      assert LastIndexOf(j, '/') == |pre| - 1;
    }
  }

  /**
   * The directory part of `p` is empty exactly when `p` holds no separator
   * (`os.path.dirname(p) == ''`); `os.makedirs('')` then fails.
   */
  predicate HasNoDirectory(p: Path)
  {
    '/' !in p
  }

  /** Every character of `s[lo..hi]` is a dot. */
  predicate AllDots(s: string, lo: int, hi: int)
    requires 0 <= lo <= hi <= |s|
  {
    forall j :: lo <= j < hi ==> s[j] == '.'
  }

  /**
   * `os.path.splitext(p)`: the extension runs from the last dot of the last
   * component; a dot that only dots precede within the component (a leading
   * dot, as in ".profile") does not start an extension.
   */
  function SplitExt(p: Path): (string, string)
  {
    var sep := LastIndexOf(p, '/');
    var dot := LastIndexOf(p, '.');
    if dot > sep && !AllDots(p, sep + 1, dot) then (p[..dot], p[dot..])
    else (p, "")
  }

  /**
   * The two halves of `splitext` put back together give the path, and an
   * extension is empty or one dot followed by neither a dot nor a separator.
   */
  lemma SplitExtParts(p: Path)
    ensures SplitExt(p).0 + SplitExt(p).1 == p
    ensures var ext := SplitExt(p).1;
            ext == [] || (ext[0] == '.' && '.' !in ext[1..] && '/' !in ext)
    ensures SplitExt(p).1 != [] ==> exists j :: 0 <= j < |SplitExt(p).0| && SplitExt(p).0[j] != '.'
  {
    var sep := LastIndexOf(p, '/');
    var dot := LastIndexOf(p, '.');
    if dot > sep && !AllDots(p, sep + 1, dot) {
      var ext := p[dot..];
      assert p[..dot] + ext == p;
      forall k | 0 <= k < |ext[1..]| ensures ext[1..][k] != '.' {
        assert ext[1..][k] == p[dot + 1 + k];
      }
      forall k | 0 <= k < |ext| ensures ext[k] != '/' {
        assert ext[k] == p[dot + k];
      }
      var j :| sep + 1 <= j < dot && p[j] != '.';
      assert p[..dot][j] != '.';
    }
  }

  /** A name as the remote library reports it: non-empty, no separator. */
  predicate ValidName(n: string)
  {
    n != [] && '/' !in n
  }

  /** The segments written one after another, separated by '/'. */
  function Slashed(segments: seq<string>): Path
  {
    if segments == [] then []
    else if |segments| == 1 then segments[0]
    else Slashed(segments[..|segments| - 1]) + "/" + segments[|segments| - 1]
  }

  /** Successive `os.path.join` of each segment onto `start`. */
  function JoinAll(start: Path, segments: seq<string>): Path
  {
    if segments == [] then start
    else Join(JoinAll(start, segments[..|segments| - 1]), segments[|segments| - 1])
  }

  /** Joining valid names from nothing spells them out separated by '/'. */
  lemma {:induction false} JoinAllValid(segments: seq<string>)
    requires forall i :: 0 <= i < |segments| ==> ValidName(segments[i])
    ensures JoinAll("", segments) == Slashed(segments)
    ensures segments != [] ==> JoinAll("", segments) != []
  {
    if segments != [] {
      var init := segments[..|segments| - 1];
      var last := segments[|segments| - 1];
      assert last[0] != '/' by { assert last[0] in last; }
      JoinAllValid(init);
      if init == [] {
        assert JoinAll("", init) == "";
      } else {
        assert JoinAll("", init) != [];
        assert Slashed(init) == JoinAll("", init);
        var p := JoinAll("", init);
        if p[|p| - 1] == '/' {
          SlashedEndsWithLast(init);
          assert false;
        }
      }
    }
  }

  /** A path spelled out of valid names ends with its last name, so never in '/'. */
  lemma {:induction false} SlashedEndsWithLast(segments: seq<string>)
    requires segments != []
    requires forall i :: 0 <= i < |segments| ==> ValidName(segments[i])
    ensures var p := Slashed(segments); p != [] && p[|p| - 1] != '/'
  {
    var last := segments[|segments| - 1];
    assert last[|last| - 1] in last;
    if |segments| > 1 {
      var p := Slashed(segments);
      assert p == Slashed(segments[..|segments| - 1]) + "/" + last;
      assert p[|p| - 1] == last[|last| - 1];
    }
  }
}
