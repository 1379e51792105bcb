/**
 * File discovery (`discover_files`, `_recurse_items`): the remote folder tree
 * is walked pre-order, children in listing order, and every file found is
 * recorded in the file index under a key: in structured mode its path below
 * the start folder, in flat mode its bare name. The index behaves like a
 * Python dict: a later record for a key replaces the earlier one's id, and
 * keys keep the order of their first insertion.
 */
module RemoteTree {
  import opened Paths

  /**
   * A remote item as the library lists it. `listingOk` is false for a folder
   * whose children listing answers with a status other than 200.
   */
  datatype Node =
    | Folder(name: string, id: string, listingOk: bool, children: seq<Node>)
    | File(name: string, id: string)

  /** One write into the file index: key and remote item id. */
  datatype Entry = Entry(key: Path, id: string)

  /** The key a file gets in the folder reached under `currentPath`. */
  function FileKey(currentPath: Path, name: string, structured: bool): Path
  {
    if structured then (if currentPath != [] then Join(currentPath, name) else name)
    else name
  }

  /** The `current_path` a subfolder is walked with. */
  function SubfolderPath(currentPath: Path, name: string, structured: bool): Path
  {
    if structured then Join(currentPath, name) else name
  }

  /**
   * The index writes `_recurse_items(folder, path, structured)` performs, in
   * order: nothing when the listing fails (or the item is not a folder).
   */
  function FolderRecords(folder: Node, path: Path, structured: bool): seq<Entry>
    decreases folder, 1
  {
    if folder.Folder? && folder.listingOk then ListingRecords(folder, path, structured, |folder.children|)
    else []
  }

  /** The writes for the first `k` items of a folder's listing. */
  function ListingRecords(folder: Node, path: Path, structured: bool, k: nat): seq<Entry>
    requires folder.Folder? && k <= |folder.children|
    decreases folder, 0, k
  {
    if k == 0 then []
    else ListingRecords(folder, path, structured, k - 1) + ItemRecords(folder.children[k - 1], path, structured)
  }

  /** The writes for one listed item: a file is recorded, a folder is walked. */
  function ItemRecords(item: Node, currentPath: Path, structured: bool): seq<Entry>
    decreases item, 2
  {
    match item
    case File(name, id) => [Entry(FileKey(currentPath, name, structured), id)]
    case Folder(name, _, _, _) => FolderRecords(item, SubfolderPath(currentPath, name, structured), structured)
  }

  // ----- An independent description of the files a walk visits -----

  /** A file reached by the walk: the folders from the start folder down to it, outermost first. */
  datatype Visit = Visit(folders: seq<string>, name: string, id: string)

  /** The files reachable from `n` through successful listings, in pre-order. */
  function Visits(n: Node): seq<Visit>
    decreases n, 1
  {
    if n.Folder? && n.listingOk then VisitsOf(n.children) else []
  }

  function VisitsOf(items: seq<Node>): seq<Visit>
    decreases items, 0
  {
    if items == [] then [] else ChildVisits(items[0]) + VisitsOf(items[1..])
  }

  function ChildVisits(c: Node): seq<Visit>
    decreases c, 2
  {
    match c
    case File(name, id) => [Visit([], name, id)]
    case Folder(name, _, _, _) => Under(name, Visits(c))
  }

  /** The visits of a subfolder, seen from its parent. */
  function Under(name: string, vs: seq<Visit>): (r: seq<Visit>)
    ensures |r| == |vs|
    ensures forall i :: 0 <= i < |vs| ==> r[i] == Visit([name] + vs[i].folders, vs[i].name, vs[i].id)
  {
    if vs == [] then [] else [Visit([name] + vs[0].folders, vs[0].name, vs[0].id)] + Under(name, vs[1..])
  }

  /** The key a visited file gets when the walk starts with `path`. */
  function KeyOf(path: Path, v: Visit, structured: bool): Path
  {
    if structured then JoinAll(path, v.folders + [v.name]) else v.name
  }

  function Keyed(vs: seq<Visit>, path: Path, structured: bool): (r: seq<Entry>)
    ensures |r| == |vs|
    ensures forall i :: 0 <= i < |vs| ==> r[i] == Entry(KeyOf(path, vs[i], structured), vs[i].id)
  {
    if vs == [] then [] else [Entry(KeyOf(path, vs[0], structured), vs[0].id)] + Keyed(vs[1..], path, structured)
  }

  lemma KeyedAppend(a: seq<Visit>, b: seq<Visit>, path: Path, structured: bool)
    ensures Keyed(a + b, path, structured) == Keyed(a, path, structured) + Keyed(b, path, structured)
  {
  }

  lemma {:induction false} VisitsOfAppend(a: seq<Node>, b: seq<Node>)
    ensures VisitsOf(a + b) == VisitsOf(a) + VisitsOf(b)
    decreases |a|
  {
    if a != [] {
      assert (a + b)[0] == a[0];
      assert (a + b)[1..] == a[1..] + b;
      VisitsOfAppend(a[1..], b);
    } else {
      assert a + b == b;
    }
  }

  lemma {:induction false} JoinAllCons(start: Path, first: string, rest: seq<string>)
    ensures JoinAll(start, [first] + rest) == JoinAll(Join(start, first), rest)
    decreases |rest|
  {
    if rest == [] {
      assert JoinAll(start, [first]) == Join(JoinAll(start, []), first);
    } else {
      var s := [first] + rest;
      assert s[..|s| - 1] == [first] + rest[..|rest| - 1];
      JoinAllCons(start, first, rest[..|rest| - 1]);
    }
  }

  /** Seen from the parent, the keys of a subfolder's files are those of the walk into it. */
  lemma KeyedUnder(name: string, vs: seq<Visit>, path: Path, structured: bool)
    ensures Keyed(Under(name, vs), path, structured) == Keyed(vs, SubfolderPath(path, name, structured), structured)
  {
    var l := Keyed(Under(name, vs), path, structured);
    var r := Keyed(vs, SubfolderPath(path, name, structured), structured);
    forall i | 0 <= i < |vs| ensures l[i] == r[i] {
      if structured {
        JoinAllCons(path, name, vs[i].folders + [vs[i].name]);
        assert [name] + vs[i].folders + [vs[i].name] == [name] + (vs[i].folders + [vs[i].name]);
      }
    }
  }

  /**
   * The walk records exactly the reachable files, in pre-order, each under
   * the key its folders and name give it.
   */
  lemma {:induction false} FolderRecordsAreVisits(folder: Node, path: Path, structured: bool)
    ensures FolderRecords(folder, path, structured) == Keyed(Visits(folder), path, structured)
    decreases folder, 1
  {
    if folder.Folder? && folder.listingOk {
      ListingRecordsAreVisits(folder, path, structured, |folder.children|);
      assert folder.children[..|folder.children|] == folder.children;
    }
  }

  lemma {:induction false} ListingRecordsAreVisits(folder: Node, path: Path, structured: bool, k: nat)
    requires folder.Folder? && k <= |folder.children|
    ensures ListingRecords(folder, path, structured, k) == Keyed(VisitsOf(folder.children[..k]), path, structured)
    decreases folder, 0, k
  {
    if k > 0 {
      ListingRecordsAreVisits(folder, path, structured, k - 1);
      ItemRecordsAreVisits(folder.children[k - 1], path, structured);
      ListingStep(folder, path, structured, k);
    }
  }

  /** One more listed item extends both the records and the enumeration by that item's part. */
  lemma ListingStep(folder: Node, path: Path, structured: bool, k: nat)
    requires folder.Folder? && 0 < k <= |folder.children|
    requires ListingRecords(folder, path, structured, k - 1)
             == Keyed(VisitsOf(folder.children[..k - 1]), path, structured)
    requires ItemRecords(folder.children[k - 1], path, structured)
             == Keyed(ChildVisits(folder.children[k - 1]), path, structured)
    ensures ListingRecords(folder, path, structured, k) == Keyed(VisitsOf(folder.children[..k]), path, structured)
  {
    var cs := folder.children;
    var pre, c := cs[..k - 1], cs[k - 1];
    KeyedAppend(VisitsOf(pre), ChildVisits(c), path, structured);
    VisitsOfAppend(pre, [c]);
    VisitsOfOne(c);
    assert cs[..k] == pre + [c];
    calc {
      ListingRecords(folder, path, structured, k);
      ListingRecords(folder, path, structured, k - 1) + ItemRecords(c, path, structured);
      Keyed(VisitsOf(pre), path, structured) + Keyed(ChildVisits(c), path, structured);
      Keyed(VisitsOf(pre) + ChildVisits(c), path, structured);
      Keyed(VisitsOf(pre + [c]), path, structured);
    }
  }

  lemma VisitsOfOne(c: Node)
    ensures VisitsOf([c]) == ChildVisits(c)
  {
    assert [c][1..] == [];
  }

  lemma {:induction false} ItemRecordsAreVisits(item: Node, currentPath: Path, structured: bool)
    ensures ItemRecords(item, currentPath, structured) == Keyed(ChildVisits(item), currentPath, structured)
    decreases item, 2
  {
    match item
    case File(name, id) =>
      assert [] + [name] == [name];
      assert JoinAll(currentPath, [name]) == Join(currentPath, name) by {
        assert [name][..0] == [];
      }
      assert Join("", name) == name;
    case Folder(name, _, _, _) =>
      FolderRecordsAreVisits(item, SubfolderPath(currentPath, name, structured), structured);
      KeyedUnder(name, Visits(item), currentPath, structured);
  }

  // ----- The file index as an insertion-ordered dict -----

  /** The index after the writes `es`, starting from `m`. */
  function Store(m: map<Path, string>, es: seq<Entry>): map<Path, string>
  {
    if es == [] then m
    else Store(m, es[..|es| - 1])[es[|es| - 1].key := es[|es| - 1].id]
  }

  /** The dict's key order after the writes `es`: a new key goes last, a known key stays put. */
  function Order(ks: seq<Path>, es: seq<Entry>): seq<Path>
  {
    if es == [] then ks
    else
      var before := Order(ks, es[..|es| - 1]);
      if es[|es| - 1].key in before then before else before + [es[|es| - 1].key]
  }

  /** The keys listed once each, and exactly the keys of the map. */
  predicate Consistent(m: map<Path, string>, ks: seq<Path>)
  {
    (forall i, j :: 0 <= i < j < |ks| ==> ks[i] != ks[j])
    && (forall k :: k in ks ==> k in m)
    && (forall k :: k in m ==> k in ks)
  }

  lemma {:induction false} StoreAppend(m: map<Path, string>, a: seq<Entry>, b: seq<Entry>)
    ensures Store(m, a + b) == Store(Store(m, a), b)
    decreases |b|
  {
    if b == [] {
      assert a + b == a;
    } else {
      assert (a + b)[..|a + b| - 1] == a + b[..|b| - 1];
      StoreAppend(m, a, b[..|b| - 1]);
    }
  }

  lemma {:induction false} OrderAppend(ks: seq<Path>, a: seq<Entry>, b: seq<Entry>)
    ensures Order(ks, a + b) == Order(Order(ks, a), b)
    decreases |b|
  {
    if b == [] {
      assert a + b == a;
    } else {
      assert (a + b)[..|a + b| - 1] == a + b[..|b| - 1];
      OrderAppend(ks, a, b[..|b| - 1]);
    }
  }

  /**
   * The key list tracks the map through any writes: keys stay distinct, list
   * exactly the map's keys, and the earlier keys keep their places.
   */
  lemma {:induction false} OrderTracksStore(m: map<Path, string>, ks: seq<Path>, es: seq<Entry>)
    requires Consistent(m, ks)
    ensures Consistent(Store(m, es), Order(ks, es))
    ensures |ks| <= |Order(ks, es)| && Order(ks, es)[..|ks|] == ks
  {
    if es != [] {
      OrderTracksStore(m, ks, es[..|es| - 1]);
      var before := Order(ks, es[..|es| - 1]);
      assert before[..|ks|] == ks;
      var e := es[|es| - 1];
      if e.key !in before {
        var after := before + [e.key];
        assert after[..|ks|] == before[..|ks|];
        forall i, j | 0 <= i < j < |after| ensures after[i] != after[j] {
          if j == |before| {
            assert after[i] == before[i];
            assert before[i] in before;
          }
        }
      }
    }
  }

  /** A key is in the index exactly when it was there before or some write used it. */
  lemma {:induction false} StoreKeys(m: map<Path, string>, es: seq<Entry>, k: Path)
    ensures k in Store(m, es) <==> k in m || exists i :: 0 <= i < |es| && es[i].key == k
    ensures (forall i :: 0 <= i < |es| ==> es[i].key != k) ==> k in m ==> Store(m, es)[k] == m[k]
  {
    if es != [] {
      var init := es[..|es| - 1];
      StoreKeys(m, init, k);
      if exists i :: 0 <= i < |init| && init[i].key == k {
        var i :| 0 <= i < |init| && init[i].key == k;
        assert es[i] == init[i];
      }
      if exists i :: 0 <= i < |es| && es[i].key == k {
        var i :| 0 <= i < |es| && es[i].key == k;
        if i < |init| { assert init[i] == es[i]; }
      }
      if forall i :: 0 <= i < |es| ==> es[i].key != k {
        assert forall i :: 0 <= i < |init| ==> init[i].key != k by {
          forall i | 0 <= i < |init| ensures init[i].key != k { assert init[i] == es[i]; }
        }
      }
    }
  }

  /** The last write to a key decides its id: later writes overwrite earlier ones. */
  lemma {:induction false} StoreLastWins(m: map<Path, string>, es: seq<Entry>, i: nat)
    requires i < |es|
    requires forall j :: i < j < |es| ==> es[j].key != es[i].key
    ensures es[i].key in Store(m, es) && Store(m, es)[es[i].key] == es[i].id
  {
    if i < |es| - 1 {
      var init := es[..|es| - 1];
      forall j | i < j < |init| ensures init[j].key != init[i].key {
        assert init[j] == es[j];
      }
      StoreLastWins(m, init, i);
      assert init[i] == es[i];
    }
  }

  /** Writes never add more keys than there are writes. */
  lemma {:induction false} StoreSize(m: map<Path, string>, es: seq<Entry>)
    ensures |Store(m, es)| <= |m| + |es|
  {
    if es != [] {
      StoreSize(m, es[..|es| - 1]);
      var before := Store(m, es[..|es| - 1]);
      var e := es[|es| - 1];
      if e.key in before {
        assert before[e.key := e.id].Keys == before.Keys;
      } else {
        assert before[e.key := e.id].Keys == before.Keys + {e.key};
      }
    }
  }

  // ----- Properties of discovery -----

  /** The index a walk from `start` builds into an emptied index. */
  function Discovered(start: Node, structured: bool): map<Path, string>
  {
    Store(map[], FolderRecords(start, "", structured))
  }

  /**
   * Structured mode: with names as the library reports them (non-empty, no
   * separator), a file's key is the names of its enclosing folders below the
   * start folder and its own name, joined by '/'; a file directly in the
   * start folder is keyed by its bare name.
   */
  lemma StructuredKeys(start: Node, v: Visit)
    requires v in Visits(start)
    requires ValidName(v.name) && forall i :: 0 <= i < |v.folders| ==> ValidName(v.folders[i])
    ensures Entry(Slashed(v.folders + [v.name]), v.id) in FolderRecords(start, "", true)
    ensures v.folders == [] ==> Slashed(v.folders + [v.name]) == v.name
  {
    FolderRecordsAreVisits(start, "", true);
    var vs := Visits(start);
    var i :| 0 <= i < |vs| && vs[i] == v;
    var segs := v.folders + [v.name];
    assert forall j :: 0 <= j < |segs| ==> ValidName(segs[j]) by {
      forall j | 0 <= j < |segs| ensures ValidName(segs[j]) {
        if j < |v.folders| { assert segs[j] == v.folders[j]; }
      }
    }
    JoinAllValid(segs);
    assert Keyed(vs, "", true)[i] == Entry(Slashed(segs), v.id);
  }

  /** Flat mode: every key is the bare name of a visited file. */
  lemma FlatKeys(start: Node, e: Entry)
    requires e in FolderRecords(start, "", false)
    ensures exists v :: v in Visits(start) && e == Entry(v.name, v.id)
  {
    FolderRecordsAreVisits(start, "", false);
    var vs := Visits(start);
    var i :| 0 <= i < |vs| && Keyed(vs, "", false)[i] == e;
    assert vs[i] in vs;
  }

  /**
   * Flat mode: when several visited files share a name, the index holds the
   * id of the one visited last.
   */
  lemma FlatLaterVisitWins(start: Node, j: nat)
    requires j < |Visits(start)|
    requires forall k :: j < k < |Visits(start)| ==> Visits(start)[k].name != Visits(start)[j].name
    ensures Visits(start)[j].name in Discovered(start, false)
    ensures Discovered(start, false)[Visits(start)[j].name] == Visits(start)[j].id
  {
    FolderRecordsAreVisits(start, "", false);
    StoreLastWins(map[], FolderRecords(start, "", false), j);
  }

  /** The index never holds more entries than files were visited. */
  lemma DiscoveredSize(start: Node, structured: bool)
    ensures |Discovered(start, structured)| <= |Visits(start)|
  {
    FolderRecordsAreVisits(start, "", structured);
    StoreSize(map[], FolderRecords(start, "", structured));
  }

  /** A key is indexed exactly when some visited file is recorded under it. */
  lemma DiscoveredKeys(start: Node, structured: bool, key: Path)
    ensures key in Discovered(start, structured)
            <==> exists v :: v in Visits(start) && KeyOf("", v, structured) == key
  {
    FolderRecordsAreVisits(start, "", structured);
    var es := FolderRecords(start, "", structured);
    var vs := Visits(start);
    StoreKeys(map[], es, key);
    if exists i :: 0 <= i < |es| && es[i].key == key {
      var i :| 0 <= i < |es| && es[i].key == key;
      assert vs[i] in vs;
    }
    if exists v :: v in vs && KeyOf("", v, structured) == key {
      var v :| v in vs && KeyOf("", v, structured) == key;
      var i :| 0 <= i < |vs| && vs[i] == v;
      assert es[i].key == key;
    }
  }

  /** Dropping an item that contributes no visits leaves the enumeration unchanged. */
  lemma {:induction false} VisitsOfWithout(pre: seq<Node>, c: Node, post: seq<Node>)
    requires ChildVisits(c) == []
    ensures VisitsOf(pre + [c] + post) == VisitsOf(pre + post)
    decreases |pre|
  {
    var whole, pruned := pre + [c] + post, pre + post;
    if pre == [] {
      assert whole[0] == c && whole[1..] == post && pruned == post;
      assert VisitsOf(whole) == [] + VisitsOf(post);
    } else {
      VisitsOfWithout(pre[1..], c, post);
      assert whole[0] == pre[0] && whole[1..] == pre[1..] + [c] + post;
      assert pruned[0] == pre[0] && pruned[1..] == pre[1..] + post;
    }
  }

  /**
   * A subfolder whose listing fails adds nothing: the walk records the same
   * writes as if it were absent, so files in earlier and later siblings'
   * subtrees are still recorded.
   */
  lemma FailedListingAddsNothing(folder: Node, j: nat, path: Path, structured: bool)
    requires folder.Folder? && j < |folder.children|
    requires folder.children[j].Folder? && !folder.children[j].listingOk
    ensures FolderRecords(folder, path, structured)
            == FolderRecords(folder.(children := folder.children[..j] + folder.children[j + 1..]), path, structured)
  {
    var cs := folder.children;
    var pruned := folder.(children := cs[..j] + cs[j + 1..]);
    FolderRecordsAreVisits(folder, path, structured);
    FolderRecordsAreVisits(pruned, path, structured);
    if folder.listingOk {
      assert ChildVisits(cs[j]) == [] by {
        assert Visits(cs[j]) == [];
      }
      assert cs == cs[..j] + [cs[j]] + cs[j + 1..];
      VisitsOfWithout(cs[..j], cs[j], cs[j + 1..]);
      assert Visits(folder) == Visits(pruned);
    }
  }
}
