/** The part of src/zotero_client.py that runs after the Zotero API has answered: the
    collection tree built from the collections discovered under a root, and the
    top-level items gathered from those collections, deduplicated and enriched with
    the collections they belong to. The API calls (`collections_sub`, `collection`,
    `collection_items`, `top`, `everything`) become parameters holding what they
    returned. */
module Zotero {
  import opened Wrappers
  import opened Text
  import opened Records

  // ---------------------------------------------------------------------------------
  // build_collection_tree

  /** An entry of `coll_lookup`; a missing parent (`None`) is `""`. */
  datatype Node = Node(name: string, parent: string)

  /** An entry of the returned tree. */
  datatype CollInfo = CollInfo(
    name: string,
    parentKey: string,
    path: seq<string>,
    archiveName: Option<string>,
    visitDate: Option<string>)

  /** `root_key or COLLECTION_KEY`. */
  function RootKey(rootKey: string, configKey: string): string {
    if rootKey != "" then rootKey else configKey
  }

  /** `coll_lookup` once the root has been added: the discovered collections, then the
      root with its own name and no parent. */
  function Lookup(discovered: map<string, Node>, root: string, rootName: string): (l: map<string, Node>)
    ensures root in l && l[root] == Node(rootName, "")
    ensures l.Keys == discovered.Keys + {root}
  {
    discovered[root := Node(rootName, "")]
  }

  /** Following parent links from `key` leaves the lookup within `n` steps. */
  predicate EndsWithin(l: map<string, Node>, key: string, n: nat)
    decreases n
  {
    key == "" || key !in l || (n > 0 && EndsWithin(l, l[key].parent, n - 1))
  }

  /** The parent links have no cycle, so every walk up the tree ends; otherwise the
      walks of `get_path` and of the archive lookup would not terminate. */
  predicate Acyclic(l: map<string, Node>) {
    forall k :: k in l ==> EndsWithin(l, k, |l|)
  }

  /** The names from the topmost reachable ancestor of `key` down to `key` itself. */
  function PathN(l: map<string, Node>, key: string, n: nat): seq<string>
    requires EndsWithin(l, key, n)
    decreases n
  {
    if key == "" || key !in l then [] else PathN(l, l[key].parent, n - 1) + [l[key].name]
  }

  /** The keys met walking up from `key`: the key itself, its parent, and so on. */
  function UpKeys(l: map<string, Node>, key: string, n: nat): seq<string>
    requires EndsWithin(l, key, n)
    decreases n
  {
    if key == "" || key !in l then [] else [key] + UpKeys(l, l[key].parent, n - 1)
  }

  /** What `get_path(key)` returns. */
  function Path(l: map<string, Node>, key: string): seq<string>
    requires Acyclic(l)
  {
    PathN(l, key, |l|)
  }

  function Reverse(s: seq<string>): (r: seq<string>)
    ensures |r| == |s|
  {
    if s == [] then [] else [s[|s| - 1]] + Reverse(s[..|s| - 1])
  }

  lemma ReverseSnoc(s: seq<string>, x: string)
    ensures Reverse(s + [x]) == [x] + Reverse(s)
  {
    assert (s + [x])[..|s|] == s;
  }

  /** `get_path(key)`: walk up collecting names, then reverse them. */
  method GetPath(l: map<string, Node>, key: string) returns (path: seq<string>)
    requires Acyclic(l)
    ensures path == Path(l, key)
  {
    path := [];
    var current := key;
    ghost var fuel: nat := |l|;
    while current != "" && current in l
      invariant EndsWithin(l, current, fuel)
      invariant PathN(l, key, |l|) == PathN(l, current, fuel) + Reverse(path)
      decreases fuel
    {
      assert fuel > 0 && EndsWithin(l, l[current].parent, fuel - 1);
      ReverseSnoc(path, l[current].name);
      path := path + [l[current].name];
      current := l[current].parent;
      fuel := fuel - 1;
    }
    path := Reverse(path);
  }

  /** The walks do not depend on the step allowance, once it is large enough. */
  lemma {:induction false} WalkFuel(l: map<string, Node>, key: string, n: nat, m: nat)
    requires EndsWithin(l, key, n) && n <= m
    ensures EndsWithin(l, key, m)
    ensures PathN(l, key, n) == PathN(l, key, m)
    ensures UpKeys(l, key, n) == UpKeys(l, key, m)
    decreases n
  {
    if key != "" && key in l {
      WalkFuel(l, l[key].parent, n - 1, m - 1);
    }
  }

  /** A collection's path is its parent's path followed by its own name. */
  lemma PathExtends(l: map<string, Node>, key: string)
    requires Acyclic(l) && key != "" && key in l
    ensures Path(l, key) == Path(l, l[key].parent) + [l[key].name]
  {
    var p := l[key].parent;
    assert EndsWithin(l, key, |l|);
    assert |l| > 0 && EndsWithin(l, p, |l| - 1);
    if p != "" && p in l {
      WalkFuel(l, p, |l| - 1, |l|);
    } else {
      assert PathN(l, p, |l| - 1) == [] && PathN(l, p, |l|) == [];
    }
  }

  /** The walk up from a collection starts at the collection, follows parent links,
      and stops at a collection whose parent is not in the lookup. */
  lemma {:induction false} UpKeysSpec(l: map<string, Node>, key: string, n: nat)
    requires EndsWithin(l, key, n) && key != "" && key in l
    ensures var u := UpKeys(l, key, n);
      && |u| >= 1 && u[0] == key
      && (forall i :: 0 <= i < |u| ==> u[i] in l)
      && (forall i :: 0 <= i < |u| - 1 ==> u[i + 1] == l[u[i]].parent)
      && (l[u[|u| - 1]].parent == "" || l[u[|u| - 1]].parent !in l)
    decreases n
  {
    var p := l[key].parent;
    var u := UpKeys(l, key, n);
    if p != "" && p in l {
      UpKeysSpec(l, p, n - 1);
      var v := UpKeys(l, p, n - 1);
      assert u == [key] + v;
      forall i | 0 <= i < |u| - 1 ensures u[i + 1] == l[u[i]].parent {
        if i > 0 { assert u[i] == v[i - 1] && u[i + 1] == v[i]; }
      }
    } else {
      assert UpKeys(l, p, n - 1) == [];
    }
  }

  /** `get_path` ends with the collection's own name and starts with the name of the
      topmost collection the walk reaches. */
  lemma {:induction false} PathEnds(l: map<string, Node>, key: string, n: nat)
    requires EndsWithin(l, key, n) && key != "" && key in l
    ensures var p := PathN(l, key, n);
      && |p| >= 1 && p[|p| - 1] == l[key].name
      && exists t :: t in UpKeys(l, key, n) && t in l && (l[t].parent == "" || l[t].parent !in l) && p[0] == l[t].name
    decreases n
  {
    var q := l[key].parent;
    if q != "" && q in l {
      PathEnds(l, q, n - 1);
      var t :| t in UpKeys(l, q, n - 1) && t in l && (l[t].parent == "" || l[t].parent !in l) && PathN(l, q, n - 1)[0] == l[t].name;
      assert UpKeys(l, key, n) == [key] + UpKeys(l, q, n - 1);
      assert t in UpKeys(l, key, n);
    } else {
      assert UpKeys(l, key, n) == [key];
      assert key in UpKeys(l, key, n);
    }
  }

  /** `v['parent_key'] == key` for some entry: the collection has a subcollection. */
  predicate HasChild(l: map<string, Node>, key: string) {
    exists k :: k in l && l[k].parent == key
  }

  /** `archive_keys`: the direct children of the root that have subcollections, each
      mapped to its name. */
  function Archives(l: map<string, Node>, root: string): map<string, string> {
    map k | k in l && l[k].parent == root && HasChild(l, k) :: l[k].name
  }

  /** The loop filling `archive_keys`. */
  method ArchiveKeys(l: map<string, Node>, root: string) returns (archives: map<string, string>)
    ensures archives == Archives(l, root)
  {
    archives := map[];
    var todo := l.Keys;
    while todo != {}
      invariant todo <= l.Keys
      invariant archives == map k | k in l && k !in todo && l[k].parent == root && HasChild(l, k) :: l[k].name
      decreases |todo|
    {
      var key :| key in todo;
      var hasChildren := exists k :: k in l && l[k].parent == key;
      if l[key].parent == root && hasChildren {
        archives := archives[key := l[key].name];
      }
      todo := todo - {key};
    }
  }

  /** The first key of `ks` that is an archive collection, by name. */
  function FirstArchive(ks: seq<string>, archives: map<string, string>): (r: Option<string>) {
    if ks == [] then None
    else if ks[0] in archives then Some(archives[ks[0]])
    else FirstArchive(ks[1..], archives)
  }

  lemma {:induction false} FirstArchiveSpec(ks: seq<string>, archives: map<string, string>)
    ensures FirstArchive(ks, archives).None? <==> forall i :: 0 <= i < |ks| ==> ks[i] !in archives
    ensures FirstArchive(ks, archives).Some? ==>
      exists i :: 0 <= i < |ks| && ks[i] in archives && FirstArchive(ks, archives).value == archives[ks[i]]
        && forall j :: 0 <= j < i ==> ks[j] !in archives
  {
    if ks != [] && ks[0] !in archives {
      FirstArchiveSpec(ks[1..], archives);
      if FirstArchive(ks, archives).Some? {
        var i :| 0 <= i < |ks[1..]| && ks[1..][i] in archives && FirstArchive(ks, archives).value == archives[ks[1..][i]]
          && forall j :: 0 <= j < i ==> ks[1..][j] !in archives;
        assert forall j :: 0 <= j < i + 1 ==> ks[j] !in archives by {
          forall j | 0 <= j < i + 1 ensures ks[j] !in archives {
            if j > 0 { assert ks[j] == ks[1..][j - 1]; }
          }
        }
        assert ks[i + 1] == ks[1..][i];
      } else {
        forall i | 0 <= i < |ks| ensures ks[i] !in archives {
          if i > 0 { assert ks[i] == ks[1..][i - 1]; }
        }
      }
    }
  }

  /** `archive_name` of a collection: the nearest archive collection among the
      collection itself and its ancestors. */
  function ArchiveOf(l: map<string, Node>, archives: map<string, string>, key: string): Option<string>
    requires Acyclic(l)
  {
    FirstArchive(UpKeys(l, key, |l|), archives)
  }

  /** The walk that looks for `archive_name`. */
  method FindArchive(l: map<string, Node>, archives: map<string, string>, key: string) returns (archiveName: Option<string>)
    requires Acyclic(l)
    ensures archiveName == ArchiveOf(l, archives, key)
  {
    archiveName := None;
    var current := key;
    ghost var fuel: nat := |l|;
    while current != "" && current in l
      invariant EndsWithin(l, current, fuel)
      invariant ArchiveOf(l, archives, key) == FirstArchive(UpKeys(l, current, fuel), archives)
      decreases fuel
    {
      assert fuel > 0 && EndsWithin(l, l[current].parent, fuel - 1);
      if current in archives {
        archiveName := Some(archives[current]);
        break;
      }
      current := l[current].parent;
      fuel := fuel - 1;
    }
  }

  /** An archive collection is its own archive. */
  lemma ArchiveOfSelf(l: map<string, Node>, archives: map<string, string>, key: string)
    requires Acyclic(l) && key != "" && key in l && key in archives
    ensures ArchiveOf(l, archives, key) == Some(archives[key])
  {
  }

  /** `\d{4}/\d{2}/\d{2}` matches at `i`. */
  predicate DateAt(s: string, i: nat) {
    && i + 10 <= |s|
    && IsDigit(s[i]) && IsDigit(s[i + 1]) && IsDigit(s[i + 2]) && IsDigit(s[i + 3])
    && s[i + 4] == '/' && IsDigit(s[i + 5]) && IsDigit(s[i + 6])
    && s[i + 7] == '/' && IsDigit(s[i + 8]) && IsDigit(s[i + 9])
  }

  /** The leftmost date at or after `i`. */
  function FindDate(s: string, i: nat): Option<string>
    decreases |s| - i
  {
    if i + 10 > |s| then None
    else if DateAt(s, i) then Some(s[i..i + 10])
    else FindDate(s, i + 1)
  }

  /** `visit_date`: the first `YYYY/MM/DD` in a collection name. */
  function VisitDate(name: string): Option<string> {
    FindDate(name, 0)
  }

  lemma {:induction false} FindDateNone(s: string, i: nat)
    ensures FindDate(s, i).None? <==> forall j: nat :: i <= j ==> !DateAt(s, j)
    decreases |s| - i
  {
    if i + 10 <= |s| && !DateAt(s, i) {
      FindDateNone(s, i + 1);
    }
  }

  lemma {:induction false} FindDateSome(s: string, i: nat)
    requires FindDate(s, i).Some?
    ensures exists j: nat ::
      && i <= j && DateAt(s, j) && FindDate(s, i).value == s[j..j + 10]
      && (forall k: nat :: i <= k < j ==> !DateAt(s, k))
    decreases |s| - i
  {
    if !DateAt(s, i) {
      FindDateSome(s, i + 1);
    }
  }

  /** The visit date is the leftmost `YYYY/MM/DD` in the name, and there is none
      exactly when no such substring exists. */
  lemma VisitDateSpec(name: string)
    ensures VisitDate(name).None? <==> forall j: nat :: !DateAt(name, j)
    ensures VisitDate(name).Some? ==>
      exists j: nat :: DateAt(name, j) && VisitDate(name).value == name[j..j + 10]
        && forall k: nat :: k < j ==> !DateAt(name, k)
  {
    FindDateNone(name, 0);
    if VisitDate(name).Some? {
      FindDateSome(name, 0);
    }
  }

  /** A name such as "DTRP: 2025/12/17" carries its date. */
  lemma VisitDateExample()
    ensures VisitDate("DTRP: 2025/12/17") == Some("2025/12/17")
  {
    var s := "DTRP: 2025/12/17";
    assert !DateAt(s, 0) && !DateAt(s, 1) && !DateAt(s, 2) && !DateAt(s, 3) && !DateAt(s, 4) && !DateAt(s, 5);
    assert DateAt(s, 6);
    assert s[6..16] == "2025/12/17";
  }

  /** The entry `build_collection_tree` returns for a key of the lookup. */
  function Entry(l: map<string, Node>, archives: map<string, string>, key: string): CollInfo
    requires Acyclic(l) && key in l
  {
    CollInfo(l[key].name, l[key].parent, Path(l, key), ArchiveOf(l, archives, key), VisitDate(l[key].name))
  }

  /** The loop filling `result`. */
  method BuildEntries(l: map<string, Node>, archives: map<string, string>) returns (result: map<string, CollInfo>)
    requires Acyclic(l)
    ensures result == map k | k in l :: Entry(l, archives, k)
  {
    result := map[];
    var todo := l.Keys;
    while todo != {}
      invariant todo <= l.Keys
      invariant result == map k | k in l && k !in todo :: Entry(l, archives, k)
      decreases |todo|
    {
      var key :| key in todo;
      var path := GetPath(l, key);
      var archiveName := FindArchive(l, archives, key);
      var visitDate := VisitDate(l[key].name);
      result := result[key := CollInfo(l[key].name, l[key].parent, path, archiveName, visitDate)];
      todo := todo - {key};
    }
  }

  /** `build_collection_tree(zot, root_key)`, given the collections `_discover` found
      under the root and the root's own name. */
  method BuildCollectionTree(rootKey: string, configKey: string, discovered: map<string, Node>, rootName: string)
    returns (tree: map<string, CollInfo>)
    requires RootKey(rootKey, configKey) != "" ==> Acyclic(Lookup(discovered, RootKey(rootKey, configKey), rootName))
    ensures RootKey(rootKey, configKey) == "" ==> tree == map[]
    ensures RootKey(rootKey, configKey) != "" ==>
      var l := Lookup(discovered, RootKey(rootKey, configKey), rootName);
      tree == map k | k in l :: Entry(l, Archives(l, RootKey(rootKey, configKey)), k)
  {
    var root := if rootKey != "" then rootKey else configKey;
    if root == "" {
      return map[];
    }
    var l := discovered[root := Node(rootName, "")];
    var archives := ArchiveKeys(l, root);
    tree := BuildEntries(l, archives);
  }

  /** The root's entry has no parent, the root's own name, a path of that name alone,
      and no archive. */
  lemma RootEntry(discovered: map<string, Node>, root: string, rootName: string)
    requires root != "" && Acyclic(Lookup(discovered, root, rootName))
    ensures var l := Lookup(discovered, root, rootName);
      var e := Entry(l, Archives(l, root), root);
      e.name == rootName && e.parentKey == "" && e.path == [rootName] && e.archiveName.None?
  {
    var l := Lookup(discovered, root, rootName);
    RootWalk(l, root);
    ArchivesSpec(l, root, root);
    assert FirstArchive([root], Archives(l, root)) == FirstArchive([], Archives(l, root));
  }

  /** The walk up from a collection without a parent is that collection alone. */
  lemma RootWalk(l: map<string, Node>, key: string)
    requires Acyclic(l) && key != "" && key in l && l[key].parent == ""
    ensures UpKeys(l, key, |l|) == [key] && Path(l, key) == [l[key].name]
  {
    assert EndsWithin(l, key, |l|);
    assert UpKeys(l, "", |l| - 1) == [] && PathN(l, "", |l| - 1) == [];
  }

  /** A collection is an archive exactly when it is a direct child of the root with
      a subcollection; the root itself never is. */
  lemma ArchivesSpec(l: map<string, Node>, root: string, key: string)
    requires root != "" && root in l && l[root].parent == ""
    ensures key in Archives(l, root) <==> key in l && l[key].parent == root && HasChild(l, key)
    ensures root !in Archives(l, root)
  {
  }

  // ---------------------------------------------------------------------------------
  // get_all_items

  /** Items of these types are children, not top-level items. */
  predicate IsTopLevel(item: Item) {
    item.data.itemType != "attachment" && item.data.itemType != "note"
  }

  /** What the fetch loops see: the items of each collection of the tree in turn or,
      for an empty tree, the items of the whole library. */
  function Flatten(batches: seq<seq<Item>>): seq<Item> {
    if batches == [] then [] else batches[0] + Flatten(batches[1..])
  }

  /** The top-level items of `flat` whose key is not in `seen` and has not occurred
      before, in order. */
  function Firsts(flat: seq<Item>, seen: set<string>): seq<Item> {
    if flat == [] then []
    else if !IsTopLevel(flat[0]) || flat[0].key in seen then Firsts(flat[1..], seen)
    else [flat[0]] + Firsts(flat[1..], seen + {flat[0].key})
  }

  /** `flat[j]` is the first top-level item with its key, and the key is not in `seen`. */
  predicate FirstAt(flat: seq<Item>, j: nat, seen: set<string>)
    requires j < |flat|
  {
    && IsTopLevel(flat[j]) && flat[j].key !in seen
    && forall i :: 0 <= i < j && IsTopLevel(flat[i]) ==> flat[i].key != flat[j].key
  }

  /** `a` is `b` with some elements left out. */
  predicate IsSubseq<T(==)>(a: seq<T>, b: seq<T>) {
    a == [] || (b != [] && (if a[0] == b[0] then IsSubseq(a[1..], b[1..]) else IsSubseq(a, b[1..])))
  }

  lemma {:induction false} FirstsShift(flat: seq<Item>, j: nat, seen: set<string>)
    requires 0 < j < |flat|
    ensures FirstAt(flat, j, seen) <==>
      FirstAt(flat[1..], j - 1, if IsTopLevel(flat[0]) then seen + {flat[0].key} else seen)
  {
    var seen' := if IsTopLevel(flat[0]) then seen + {flat[0].key} else seen;
    var t := flat[1..];
    assert t[j - 1] == flat[j];
    if FirstAt(flat, j, seen) {
      forall i | 0 <= i < j - 1 && IsTopLevel(t[i]) ensures t[i].key != t[j - 1].key {
        assert t[i] == flat[i + 1];
      }
    }
    if FirstAt(t, j - 1, seen') {
      forall i | 0 <= i < j && IsTopLevel(flat[i]) ensures flat[i].key != flat[j].key {
        if i > 0 { assert flat[i] == t[i - 1]; }
      }
    }
  }

  /** The kept items are exactly the first top-level occurrence of each key not seen
      before. */
  lemma {:induction false} FirstsMembers(flat: seq<Item>, seen: set<string>)
    ensures forall x :: x in Firsts(flat, seen) <==> exists j :: 0 <= j < |flat| && flat[j] == x && FirstAt(flat, j, seen)
  {
    if flat != [] {
      var h := flat[0];
      var t := flat[1..];
      var seen' := if IsTopLevel(h) then seen + {h.key} else seen;
      FirstsMembers(t, seen');
      if IsTopLevel(h) && h.key !in seen {
        assert Firsts(flat, seen) == [h] + Firsts(t, seen');
        assert FirstAt(flat, 0, seen);
      } else {
        assert seen' == seen;
        assert Firsts(flat, seen) == Firsts(t, seen);
      }
      forall x ensures x in Firsts(flat, seen) <==> exists j :: 0 <= j < |flat| && flat[j] == x && FirstAt(flat, j, seen) {
        if exists j :: 0 <= j < |flat| && flat[j] == x && FirstAt(flat, j, seen) {
          var j :| 0 <= j < |flat| && flat[j] == x && FirstAt(flat, j, seen);
          if j > 0 {
            FirstsShift(flat, j, seen);
            assert t[j - 1] == x;
          }
        }
        if x in Firsts(t, seen') {
          var j :| 0 <= j < |t| && t[j] == x && FirstAt(t, j, seen');
          FirstsShift(flat, j + 1, seen);
        }
      }
    }
  }

  /** The kept items keep their order and have distinct keys, none of them in `seen`. */
  lemma {:induction false} FirstsDistinct(flat: seq<Item>, seen: set<string>)
    ensures IsSubseq(Firsts(flat, seen), flat)
    ensures forall i :: 0 <= i < |Firsts(flat, seen)| ==> Firsts(flat, seen)[i].key !in seen
    ensures forall i, j :: 0 <= i < j < |Firsts(flat, seen)| ==> Firsts(flat, seen)[i].key != Firsts(flat, seen)[j].key
  {
    if flat != [] {
      var h := flat[0];
      var t := flat[1..];
      if IsTopLevel(h) && h.key !in seen {
        var seen' := seen + {h.key};
        FirstsDistinct(t, seen');
        var r := Firsts(flat, seen);
        assert r == [h] + Firsts(t, seen');
        assert r[1..] == Firsts(t, seen');
        forall i, j | 0 <= i < j < |r| ensures r[i].key != r[j].key {
          assert r[j] == Firsts(t, seen')[j - 1];
          if i > 0 { assert r[i] == Firsts(t, seen')[i - 1]; }
        }
      } else {
        FirstsDistinct(t, seen);
        SubseqCons(Firsts(t, seen), h, t);
      }
    }
  }

  lemma SubseqCons<T>(a: seq<T>, h: T, t: seq<T>)
    requires IsSubseq(a, t)
    ensures IsSubseq(a, [h] + t)
    decreases |a| + |t| + 1
  {
    var b := [h] + t;
    assert b[1..] == t;
    if a != [] && a[0] == h {
      SubseqDrop(a, t);
    }
  }

  /** Dropping the head of `a` keeps it a subsequence. */
  lemma {:induction false} SubseqDrop<T>(a: seq<T>, b: seq<T>)
    requires a != [] && IsSubseq(a, b)
    ensures IsSubseq(a[1..], b)
    decreases |a| + |b|
  {
    if a[0] == b[0] {
      if a[1..] != [] {
        SubseqCons(a[1..], b[0], b[1..]);
        assert b == [b[0]] + b[1..];
      }
    } else {
      SubseqDrop(a, b[1..]);
      if a[1..] != [] {
        SubseqCons(a[1..], b[0], b[1..]);
        assert b == [b[0]] + b[1..];
      }
    }
  }

  lemma FirstsStep(flat: seq<Item>, i: nat, seen: set<string>)
    requires i < |flat|
    ensures Firsts(flat[i..], seen) ==
      if !IsTopLevel(flat[i]) || flat[i].key in seen then Firsts(flat[i + 1..], seen)
      else [flat[i]] + Firsts(flat[i + 1..], seen + {flat[i].key})
  {
    assert flat[i..][1..] == flat[i + 1..];
  }

  /** The two fetch loops with `seen_keys`. */
  method CollectTopLevel(batches: seq<seq<Item>>) returns (items: seq<Item>)
    ensures items == Firsts(Flatten(batches), {})
  {
    items := [];
    var seenKeys: set<string> := {};
    for b := 0 to |batches|
      invariant items + Firsts(Flatten(batches[b..]), seenKeys) == Firsts(Flatten(batches), {})
    {
      var batch := batches[b];
      assert Flatten(batches[b..]) == batch + Flatten(batches[b + 1..]) by {
        assert batches[b..][1..] == batches[b + 1..];
      }
      var rest := Flatten(batches[b + 1..]);
      for j := 0 to |batch|
        invariant items + Firsts(batch[j..] + rest, seenKeys) == Firsts(Flatten(batches), {})
      {
        var item := batch[j];
        assert (batch[j..] + rest)[1..] == batch[j + 1..] + rest;
        FirstsStep(batch[j..] + rest, 0, seenKeys);
        assert (batch[j..] + rest)[0..] == batch[j..] + rest;
        if !IsTopLevel(item) {
          continue;
        }
        if item.key !in seenKeys {
          seenKeys := seenKeys + {item.key};
          items := items + [item];
        }
      }
      assert batch[|batch|..] + rest == rest;
    }
  }

  /** `zotero_collections`: the item's collections that are in the tree, in order. */
  function CollsOf(tree: map<string, CollInfo>, keys: seq<string>): seq<CollRef> {
    if keys == [] then []
    else
      var head := if keys[0] in tree then [CollRef(keys[0], tree[keys[0]].name, tree[keys[0]].path)] else [];
      head + CollsOf(tree, keys[1..])
  }

  function OrEmpty(o: Option<string>): string {
    match o case Some(v) => v case None => ""
  }

  /** The first non-empty value of `field` among the item's collections in the tree. */
  function FirstField(tree: map<string, CollInfo>, keys: seq<string>, field: CollInfo -> Option<string>): string {
    if keys == [] then ""
    else if keys[0] in tree && OrEmpty(field(tree[keys[0]])) != "" then OrEmpty(field(tree[keys[0]]))
    else FirstField(tree, keys[1..], field)
  }

  function ArchiveField(c: CollInfo): Option<string> { c.archiveName }
  function VisitField(c: CollInfo): Option<string> { c.visitDate }

  /** The `_rag` entry an item with these collection keys gets. */
  function RagFor(tree: map<string, CollInfo>, keys: seq<string>): Rag {
    Rag(CollsOf(tree, keys), FirstField(tree, keys, ArchiveField), FirstField(tree, keys, VisitField))
  }

  lemma {:induction false} CollsOfSnoc(tree: map<string, CollInfo>, keys: seq<string>, k: string)
    ensures CollsOf(tree, keys + [k]) == CollsOf(tree, keys) + (if k in tree then [CollRef(k, tree[k].name, tree[k].path)] else [])
  {
    if keys == [] {
      assert [k][1..] == [];
    } else {
      assert (keys + [k])[1..] == keys[1..] + [k];
      CollsOfSnoc(tree, keys[1..], k);
    }
  }

  lemma {:induction false} FirstFieldSnoc(tree: map<string, CollInfo>, keys: seq<string>, k: string, field: CollInfo -> Option<string>)
    ensures FirstField(tree, keys + [k], field) ==
      if FirstField(tree, keys, field) != "" || k !in tree then FirstField(tree, keys, field) else OrEmpty(field(tree[k]))
  {
    if keys == [] {
      assert [k][1..] == [];
    } else {
      assert (keys + [k])[1..] == keys[1..] + [k];
      FirstFieldSnoc(tree, keys[1..], k, field);
    }
  }

  /** The enrichment loop for one item. */
  method Enrich(tree: map<string, CollInfo>, item: Item) returns (enriched: Item)
    ensures enriched == item.(rag := Some(RagFor(tree, item.data.collections)))
  {
    var itemColls := item.data.collections;
    var collInfo := [];
    var archiveName := "";
    var visitDate := "";
    for i := 0 to |itemColls|
      invariant collInfo == CollsOf(tree, itemColls[..i])
      invariant archiveName == FirstField(tree, itemColls[..i], ArchiveField)
      invariant visitDate == FirstField(tree, itemColls[..i], VisitField)
    {
      var ck := itemColls[i];
      assert itemColls[..i + 1] == itemColls[..i] + [ck];
      CollsOfSnoc(tree, itemColls[..i], ck);
      FirstFieldSnoc(tree, itemColls[..i], ck, ArchiveField);
      FirstFieldSnoc(tree, itemColls[..i], ck, VisitField);
      if ck in tree {
        var ct := tree[ck];
        collInfo := collInfo + [CollRef(ck, ct.name, ct.path)];
        if OrEmpty(ct.archiveName) != "" && archiveName == "" {
          archiveName := OrEmpty(ct.archiveName);
        }
        if OrEmpty(ct.visitDate) != "" && visitDate == "" {
          visitDate := OrEmpty(ct.visitDate);
        }
      }
    }
    assert itemColls[..|itemColls|] == itemColls;
    enriched := item.(rag := Some(Rag(collInfo, archiveName, visitDate)));
  }

  /** Every item with its `_rag` entry. */
  function Enriched(tree: map<string, CollInfo>, items: seq<Item>): (r: seq<Item>)
    ensures |r| == |items|
  {
    if items == [] then [] else [items[0].(rag := Some(RagFor(tree, items[0].data.collections)))] + Enriched(tree, items[1..])
  }

  /** `get_all_items(zot, collection_tree)` given what the fetches returned. */
  method GetAllItems(tree: map<string, CollInfo>, batches: seq<seq<Item>>) returns (items: seq<Item>)
    ensures items == Enriched(tree, Firsts(Flatten(batches), {}))
  {
    var topLevel := CollectTopLevel(batches);
    items := [];
    for i := 0 to |topLevel|
      invariant items == Enriched(tree, topLevel[..i])
    {
      var e := Enrich(tree, topLevel[i]);
      EnrichedSnoc(tree, topLevel[..i], topLevel[i]);
      assert topLevel[..i + 1] == topLevel[..i] + [topLevel[i]];
      items := items + [e];
    }
    assert topLevel[..|topLevel|] == topLevel;
  }

  lemma {:induction false} EnrichedSnoc(tree: map<string, CollInfo>, items: seq<Item>, x: Item)
    ensures Enriched(tree, items + [x]) == Enriched(tree, items) + [x.(rag := Some(RagFor(tree, x.data.collections)))]
  {
    if items == [] {
      assert [x][1..] == [];
    } else {
      assert (items + [x])[1..] == items[1..] + [x];
      EnrichedSnoc(tree, items[1..], x);
    }
  }

  /** Enrichment changes nothing but `_rag`. */
  lemma {:induction false} EnrichedSpec(tree: map<string, CollInfo>, items: seq<Item>)
    ensures forall i :: 0 <= i < |items| ==>
      Enriched(tree, items)[i] == items[i].(rag := Some(RagFor(tree, items[i].data.collections)))
  {
    if items != [] {
      EnrichedSpec(tree, items[1..]);
      forall i | 0 < i < |items| ensures Enriched(tree, items)[i] == items[i].(rag := Some(RagFor(tree, items[i].data.collections))) {
        assert Enriched(tree, items)[i] == Enriched(tree, items[1..])[i - 1];
      }
    }
  }

  /** `zotero_collections` lists the item's collections that are in the tree, each
      with the tree's name and path, in the item's order. */
  lemma {:induction false} CollsOfSpec(tree: map<string, CollInfo>, keys: seq<string>)
    ensures forall c :: c in CollsOf(tree, keys) ==> c.key in keys && c.key in tree && c.name == tree[c.key].name && c.path == tree[c.key].path
    ensures forall k :: k in keys && k in tree ==> exists c :: c in CollsOf(tree, keys) && c.key == k
    ensures IsSubseq(KeysOf(CollsOf(tree, keys)), keys)
  {
    if keys != [] {
      CollsOfSpec(tree, keys[1..]);
      var rest := CollsOf(tree, keys[1..]);
      if keys[0] in tree {
        var c := CollRef(keys[0], tree[keys[0]].name, tree[keys[0]].path);
        assert CollsOf(tree, keys) == [c] + rest;
        assert KeysOf([c] + rest) == [keys[0]] + KeysOf(rest);
        assert keys[1..] == keys[1..];
      } else {
        assert CollsOf(tree, keys) == rest;
        SubseqCons(KeysOf(rest), keys[0], keys[1..]);
        assert keys == [keys[0]] + keys[1..];
      }
    }
  }

  function KeysOf(colls: seq<CollRef>): seq<string> {
    if colls == [] then [] else [colls[0].key] + KeysOf(colls[1..])
  }

  /** The field is the value of the first of the item's collections in the tree that
      has a non-empty one, and `""` when there is none. */
  lemma {:induction false} FirstFieldSpec(tree: map<string, CollInfo>, keys: seq<string>, field: CollInfo -> Option<string>)
    ensures FirstField(tree, keys, field) == "" <==>
      forall i :: 0 <= i < |keys| && keys[i] in tree ==> OrEmpty(field(tree[keys[i]])) == ""
    ensures FirstField(tree, keys, field) != "" ==>
      exists i :: 0 <= i < |keys| && keys[i] in tree && FirstField(tree, keys, field) == OrEmpty(field(tree[keys[i]]))
        && forall j :: 0 <= j < i && keys[j] in tree ==> OrEmpty(field(tree[keys[j]])) == ""
  {
    if keys != [] && !(keys[0] in tree && OrEmpty(field(tree[keys[0]])) != "") {
      var t := keys[1..];
      FirstFieldSpec(tree, t, field);
      if FirstField(tree, keys, field) != "" {
        var i :| 0 <= i < |t| && t[i] in tree && FirstField(tree, keys, field) == OrEmpty(field(tree[t[i]]))
          && forall j :: 0 <= j < i && t[j] in tree ==> OrEmpty(field(tree[t[j]])) == "";
        assert keys[i + 1] == t[i];
        forall j | 0 <= j < i + 1 && keys[j] in tree ensures OrEmpty(field(tree[keys[j]])) == "" {
          if j > 0 { assert keys[j] == t[j - 1]; }
        }
      } else {
        forall i | 0 <= i < |keys| && keys[i] in tree ensures OrEmpty(field(tree[keys[i]])) == "" {
          if i > 0 { assert keys[i] == t[i - 1]; }
        }
      }
    }
  }
}
