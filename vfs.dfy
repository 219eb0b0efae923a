/**
 * vfs.py: media-library objects (files, videos, images, folders) named
 * relative to the media root, and the listing of a folder, which groups
 * its entries by sort key and hands them out in key order, a video and an
 * image with the same key becoming one video with that image as preview.
 *
 * The filesystem is replaced by parameters: the node a path names (stat),
 * the entries of a folder in scan order, and libmagic as a function from a
 * path to its MIME type.
 */
module Vfs {
  import opened Wrappers
  import opened SortKeys

  const MediaRoot: string := "/srv/media/Video"
  const Sep: char := '/'

  predicate StartsWith(s: string, p: string) {
    |p| <= |s| && s[..|p|] == p
  }

  /** s.lstrip('/') */
  function LStrip(s: string): (r: string)
    ensures |r| <= |s|
  {
    if s != [] && s[0] == Sep then LStrip(s[1..]) else s
  }

  /** What lstrip removes is a run of separators, and what it keeps does not start with one. */
  lemma {:induction false} LStripShape(s: string)
    ensures LStrip(s) == s[|s| - |LStrip(s)|..]
    ensures LStrip(s) == [] || LStrip(s)[0] != Sep
    ensures forall j :: 0 <= j < |s| - |LStrip(s)| ==> s[j] == Sep
    decreases |s|
  {
    if s != [] && s[0] == Sep {
      LStripShape(s[1..]);
    }
  }

  /** s.rstrip('/') */
  function RStrip(s: string): (r: string)
    ensures |r| <= |s|
  {
    if s != [] && s[|s| - 1] == Sep then RStrip(s[..|s| - 1]) else s
  }

  /** s.strip('/') */
  function Strip(s: string): string {
    RStrip(LStrip(s))
  }

  /** os.path.basename: what follows the last '/'. */
  function BaseName(p: string): string {
    match LastIndex(p, Sep)
    case None => p
    case Some(k) => p[k + 1..]
  }

  /** os.path.join(a, b) for two parts: an absolute b replaces a. */
  function JoinPath(a: string, b: string): string {
    if b != [] && b[0] == Sep then b
    else if a == [] || a[|a| - 1] == Sep then a + b
    else a + [Sep] + b
  }

  /** _relpath: a path under the media root loses the root and the separators after it. */
  function RelPath(path: string): string {
    if StartsWith(path, MediaRoot) then LStrip(path[|MediaRoot|..]) else path
  }

  /** _fullpath: any other path is joined to the media root. */
  function FullPath(path: string): string {
    if StartsWith(path, MediaRoot) then path else JoinPath(MediaRoot, path)
  }

  /** _name: the last component, separators round the relative path stripped first. */
  function NameOf(relpath: string): string {
    BaseName(Strip(relpath))
  }

  predicate IsHiddenName(name: string) {
    StartsWith(name, ".")
  }

  function LocalUriOf(fullpath: string): string {
    "file:" + fullpath
  }

  // ---------------------------------------------------------------------
  // Path normalisation

  /** A path under the root: the relative path is what follows the root and its separators. */
  lemma RelPathUnderRoot(seps: string, rel: string)
    requires forall j :: 0 <= j < |seps| ==> seps[j] == Sep
    requires rel == [] || rel[0] != Sep
    ensures RelPath(MediaRoot + seps + rel) == rel
    ensures FullPath(MediaRoot + seps + rel) == MediaRoot + seps + rel
  {
    var p := MediaRoot + seps + rel;
    assert p[..|MediaRoot|] == MediaRoot;
    assert p[|MediaRoot|..] == seps + rel;
    LStripSeps(seps, rel);
  }

  lemma {:induction false} LStripSeps(seps: string, rel: string)
    requires forall j :: 0 <= j < |seps| ==> seps[j] == Sep
    requires rel == [] || rel[0] != Sep
    ensures LStrip(seps + rel) == rel
    decreases |seps|
  {
    if seps == [] {
      assert seps + rel == rel;
    } else {
      assert (seps + rel)[1..] == seps[1..] + rel;
      LStripSeps(seps[1..], rel);
    }
  }

  /**
   * A relative path outside the root is joined to it; normalising the result
   * again gives the same relative and full paths.
   */
  lemma RelPathOutsideRoot(p: string)
    requires !StartsWith(p, MediaRoot)
    requires p == [] || p[0] != Sep
    ensures RelPath(p) == p
    ensures FullPath(p) == MediaRoot + [Sep] + p
    ensures RelPath(FullPath(p)) == p && FullPath(FullPath(p)) == FullPath(p)
    ensures LocalUriOf(FullPath(p)) == "file:" + MediaRoot + "/" + p
  {
    assert MediaRoot[|MediaRoot| - 1] != Sep;
    RelPathUnderRoot([Sep], p);
  }

  /** An absolute path outside the root is its own full path. */
  lemma AbsolutePathOutsideRoot(p: string)
    requires !StartsWith(p, MediaRoot)
    requires p != [] && p[0] == Sep
    ensures RelPath(p) == p && FullPath(p) == p
  {
  }

  /**
   * startswith does not stop at a component boundary: a sibling of the root
   * whose name extends the root's is treated as lying under it.
   */
  lemma SiblingOfRoot()
    ensures RelPath("/srv/media/Videos/a") == "s/a"
    ensures FullPath("/srv/media/Videos/a") == "/srv/media/Videos/a"
  {
    var p := "/srv/media/Videos/a";
    assert p == MediaRoot + "" + "s/a";
    RelPathUnderRoot("", "s/a");
  }

  lemma {:induction false} LStripBeforeName(x: string, n: string)
    requires n != [] && n[0] != Sep
    ensures LStrip(x + [Sep] + n) == n || exists y :: LStrip(x + [Sep] + n) == y + [Sep] + n
    decreases |x|
  {
    var s := x + [Sep] + n;
    if x == [] {
      assert s[1..] == n;
    } else if x[0] == Sep {
      assert s[1..] == x[1..] + [Sep] + n;
      LStripBeforeName(x[1..], n);
    } else {
      assert LStrip(s) == x + [Sep] + n;
    }
  }

  lemma NameOfName(n: string)
    requires n != [] && Sep !in n
    ensures NameOf(n) == n
  {
    assert LStrip(n) == n;
    assert RStrip(n) == n;
    LastIndexShape(n, Sep);
  }

  lemma NameAfterSep(y: string, n: string)
    requires n != [] && Sep !in n
    ensures NameOf(y + [Sep] + n) == n
  {
    var s := y + [Sep] + n;
    var l := LStrip(s);
    assert n[|n| - 1] != Sep;
    LStripBeforeName(y, n);
    if l == n {
      NameOfName(n);
    } else {
      var z :| l == z + [Sep] + n;
      assert l[|l| - 1] == n[|n| - 1];
      assert RStrip(l) == l;
      LastIndexOf(z, Sep, n);
      assert l[|z| + 1..] == n;
    }
  }

  /** The name is the last component, whatever precedes it and however many separators end the path. */
  lemma NameIsLastComponent(dir: string, n: string, seps: string)
    requires n != [] && Sep !in n
    requires forall j :: 0 <= j < |seps| ==> seps[j] == Sep
    ensures NameOf(dir + [Sep] + n + seps) == n
    ensures NameOf(n + seps) == n
  {
    var s := dir + [Sep] + n;
    RStripSeps(s, seps);
    RStripSeps(n, seps);
    LStripOfStripped(s + seps, s);
    LStripOfStripped(n + seps, n);
    NameAfterSep(dir, n);
    NameOfName(n);
  }

  lemma {:induction false} RStripSeps(s: string, seps: string)
    requires s == [] || s[|s| - 1] != Sep
    requires forall j :: 0 <= j < |seps| ==> seps[j] == Sep
    ensures RStrip(s + seps) == s
    decreases |seps|
  {
    if seps == [] {
      assert s + seps == s;
    } else {
      assert (s + seps)[..|s + seps| - 1] == s + seps[..|seps| - 1];
      RStripSeps(s, seps[..|seps| - 1]);
    }
  }

  /** Stripping both ends is stripping the right end after the left: the name of "<s>//" is the name of s. */
  lemma LStripOfStripped(t: string, s: string)
    requires RStrip(t) == s && s != []
    ensures Strip(t) == RStrip(LStrip(s))
  {
    LStripShape(t);
    LStripShape(s);
    RStripShape(t);
    var k := |t| - |LStrip(t)|;
    LStripStopsAt(t, |s| - 1);
    LStripPrefix(t, k);
    LStripPrefix(s, k);
    DropSplit(t, |s|, k);
    RStripAppendSeps(s[k..], t[|s|..]);
  }

  lemma DropSplit(t: string, n: nat, k: nat)
    requires k <= n <= |t|
    ensures t[k..] == t[k..n] + t[n..]
  {
  }

  lemma LStripPrefix(t: string, k: nat)
    requires k == |t| - |LStrip(t)|
    ensures LStrip(t) == t[k..]
  {
    LStripShape(t);
  }

  /** lstrip stops at the first character that is not a separator. */
  lemma {:induction false} LStripStopsAt(t: string, i: nat)
    requires i < |t| && t[i] != Sep
    ensures |t| - |LStrip(t)| <= i
    decreases i
  {
    if t[0] == Sep {
      LStripStopsAt(t[1..], i - 1);
    }
  }

  /** What rstrip removes is a run of separators, and what it keeps is a prefix not ending in one. */
  lemma {:induction false} RStripShape(s: string)
    ensures RStrip(s) == s[..|RStrip(s)|]
    ensures RStrip(s) == [] || RStrip(s)[|RStrip(s)| - 1] != Sep
    ensures forall j :: |RStrip(s)| <= j < |s| ==> s[j] == Sep
    decreases |s|
  {
    if s != [] && s[|s| - 1] == Sep {
      RStripShape(s[..|s| - 1]);
    }
  }

  lemma {:induction false} RStripAppendSeps(a: string, seps: string)
    requires forall j :: 0 <= j < |seps| ==> seps[j] == Sep
    ensures RStrip(a + seps) == RStrip(a)
    decreases |seps|
  {
    if seps != [] {
      assert (a + seps)[..|a + seps| - 1] == a + seps[..|seps| - 1];
      RStripAppendSeps(a, seps[..|seps| - 1]);
    } else {
      assert a + seps == a;
    }
  }

  /** "foo/bar/" is named "bar". */
  lemma TrailingSeparatorName()
    ensures NameOf("foo/bar/") == "bar"
  {
    assert "foo/bar/" == "foo" + [Sep] + "bar" + "/";
    NameIsLastComponent("foo", "bar", "/");
  }

  /** No name holds a separator. */
  lemma NameHasNoSeparator(relpath: string)
    ensures Sep !in NameOf(relpath)
  {
    LastIndexShape(Strip(relpath), Sep);
  }

  // ---------------------------------------------------------------------
  // Objects

  datatype Kind = File | Video | Image | Folder

  /** What a path names, for os.path.exists / isfile / isdir: None when nothing is there. */
  datatype Node = RegularFile | Directory | Special

  datatype OpenError = NoSuchFile(path: string) | NotAFile(path: string) | NotADirectory(path: string)

  /** The FileNotFoundError checks of vfs_Object.__init__, in order. */
  function OpenCheck(kind: Kind, node: Option<Node>, path: string): Option<OpenError> {
    if node.None? then Some(NoSuchFile(path))
    else if kind != Folder && node.value != RegularFile then Some(NotAFile(path))
    else if kind == Folder && node.value != Directory then Some(NotADirectory(path))
    else None
  }

  /** An object opens exactly when its path names a node of its own sort, and the first failed check is reported. */
  lemma OpenCheckSucceeds(kind: Kind, node: Option<Node>, path: string)
    ensures OpenCheck(kind, node, path).None? <==>
      node == Some(if kind == Folder then Directory else RegularFile)
    ensures node.None? ==> OpenCheck(kind, node, path) == Some(NoSuchFile(path))
    ensures OpenCheck(kind, node, path).Some? ==> OpenCheck(kind, node, path).value.path == path
  {
  }

  /** mimetype.partition('/')[0] */
  function TypeCategory(m: string): string {
    if Sep in m then m[..FirstIndex(m, Sep)] else m
  }

  function FirstIndex(s: string, c: char): (k: nat)
    requires c in s
    ensures k < |s|
  {
    if s[0] == c then 0
    else
      assert c in s[1..] by { var j :| 0 <= j < |s| && s[j] == c; assert s[1..][j - 1] == c; }
      FirstIndex(s[1..], c) + 1
  }

  /** The first c of "<top><c><rest>" is the one after top when top has none. */
  lemma {:induction false} FirstIndexOf(top: string, c: char, rest: string)
    requires c !in top
    ensures FirstIndex(top + [c] + rest, c) == |top|
    decreases |top|
  {
    var s := top + [c] + rest;
    if top != [] {
      assert s[0] == top[0];
      assert s[1..] == top[1..] + [c] + rest;
      FirstIndexOf(top[1..], c, rest);
    }
  }

  /** _get_file's dispatch. */
  function FileKindOf(m: string): Kind {
    var c := TypeCategory(m);
    if c == "video" then Video else if c == "image" then Image else File
  }

  /** The type before the '/' of "type/subtype" decides; it is never a folder. */
  lemma FileKindOfMime(top: string, sub: string)
    requires Sep !in top
    ensures FileKindOf(top + [Sep] + sub) == (if top == "video" then Video else if top == "image" then Image else File)
  {
    var m := top + [Sep] + sub;
    assert m[|top|] == Sep;
    FirstIndexOf(top, Sep, sub);
    assert m[..|top|] == top;
  }

  /** A MIME text without '/' is its own category. */
  lemma FileKindWithoutSlash(m: string)
    requires Sep !in m
    ensures FileKindOf(m) == (if m == "video" then Video else if m == "image" then Image else File)
    ensures FileKindOf(m) != Folder
  {
  }

  /** os.DirEntry: a name in the folder and what it is. */
  datatype Entry = Entry(name: string, node: Node)

  /** Kept by __iter__: not hidden, and a file or a directory. */
  predicate Listed(e: Entry) {
    !IsHiddenName(e.name) && e.node != Special
  }

  function EntryKey(e: Entry): Option<SortKey> {
    SortKeyOf(e.name, e.node == RegularFile)
  }

  /** A listed entry with no key: _get_sortkey's IndexError. */
  predicate Blank(e: Entry) {
    Listed(e) && EntryKey(e).None?
  }

  function FirstBlank(es: seq<Entry>): (k: nat)
    ensures k <= |es|
  {
    if es == [] then 0 else if Blank(es[0]) then 0 else 1 + FirstBlank(es[1..])
  }

  /** FirstBlank is the position of the first blank entry, or the length when there is none. */
  lemma {:induction false} FirstBlankIs(es: seq<Entry>, i: nat)
    requires i <= |es| && forall j :: 0 <= j < i ==> !Blank(es[j])
    requires i < |es| ==> Blank(es[i])
    ensures FirstBlank(es) == i
    decreases i
  {
    if i > 0 {
      assert !Blank(es[0]);
      FirstBlankIs(es[1..], i - 1);
    }
  }

  /** _objects and _sorted_list before the sort. */
  datatype Table = Table(order: seq<SortKey>, groups: map<SortKey, seq<Entry>>)

  function AddEntry(t: Table, k: SortKey, e: Entry): Table {
    if k in t.groups then Table(t.order, t.groups[k := t.groups[k] + [e]])
    else Table(t.order + [k], t.groups[k := [e]])
  }

  /** The table built from the listed entries, in scan order. */
  function Tabulate(es: seq<Entry>): Table {
    if es == [] then Table([], map[])
    else
      var t := Tabulate(es[..|es| - 1]);
      var e := es[|es| - 1];
      if Listed(e) && EntryKey(e).Some? then AddEntry(t, EntryKey(e).value, e) else t
  }

  /** The listed entries whose key is k, in scan order: an independent account of a group. */
  function Members(es: seq<Entry>, k: SortKey): seq<Entry> {
    if es == [] then []
    else
      var e := es[|es| - 1];
      Members(es[..|es| - 1], k) + (if Listed(e) && EntryKey(e) == Some(k) then [e] else [])
  }

  /** The table holds one group per key, its keys in first-seen order without repeats. */
  lemma {:induction false} TabulateKeys(es: seq<Entry>)
    ensures Distinct(Tabulate(es).order)
    ensures |Tabulate(es).groups| == |Tabulate(es).order|
    ensures forall k :: k in Tabulate(es).groups <==> k in Tabulate(es).order
    decreases |es|
  {
    if es != [] {
      var init, e := es[..|es| - 1], es[|es| - 1];
      TabulateKeys(init);
      var t := Tabulate(init);
      if Listed(e) && EntryKey(e).Some? {
        var key := EntryKey(e).value;
        if key !in t.groups {
          var order := t.order + [key];
          assert |t.groups[key := [e]]| == |t.groups| + 1;
          forall i, j | 0 <= i < j < |order| ensures order[i] != order[j] {
            if j == |t.order| {
              assert order[i] == t.order[i];
            }
          }
        }
      }
    }
  }

  /** A listed entry keyed k. */
  predicate HasKey(e: Entry, k: SortKey) {
    Listed(e) && EntryKey(e) == Some(k)
  }

  /** The position of the first listed entry keyed k, or the length when there is none. */
  function FirstWith(es: seq<Entry>, k: SortKey): (p: nat)
    ensures p <= |es|
  {
    if es == [] then 0
    else
      var f := FirstWith(es[..|es| - 1], k);
      if f < |es| - 1 then f else if HasKey(es[|es| - 1], k) then |es| - 1 else |es|
  }

  /** FirstWith finds an entry keyed k, and no entry before it is. */
  lemma {:induction false} FirstWithShape(es: seq<Entry>, k: SortKey)
    ensures FirstWith(es, k) < |es| ==> HasKey(es[FirstWith(es, k)], k)
    ensures forall j :: 0 <= j < FirstWith(es, k) ==> !HasKey(es[j], k)
    decreases |es|
  {
    if es != [] {
      var init := es[..|es| - 1];
      FirstWithShape(init, k);
      var p := FirstWith(es, k);
      forall j | 0 <= j < p ensures !HasKey(es[j], k) {
        if j < |init| {
          assert es[j] == init[j];
        }
      }
    }
  }

  /**
   * The key list is in first-seen order: a key has a group exactly when some
   * listed entry carries it, and of two keys the one seen first comes first.
   */
  lemma {:induction false} TabulateFirstSeen(es: seq<Entry>)
    ensures forall k :: k in Tabulate(es).groups <==> FirstWith(es, k) < |es|
    ensures forall i, j :: 0 <= i < j < |Tabulate(es).order| ==>
      FirstWith(es, Tabulate(es).order[i]) < FirstWith(es, Tabulate(es).order[j])
    decreases |es|
  {
    if es != [] {
      var init, e := es[..|es| - 1], es[|es| - 1];
      TabulateFirstSeen(init);
      TabulateKeys(init);
      var t := Tabulate(init);
      if Listed(e) && EntryKey(e).Some? {
        var key := EntryKey(e).value;
        if key !in t.groups {
          assert FirstWith(es, key) == |init|;
          var order := t.order + [key];
          forall i, j | 0 <= i < j < |order| ensures FirstWith(es, order[i]) < FirstWith(es, order[j]) {
            assert order[i] == t.order[i] && order[i] in t.groups;
            if j < |t.order| {
              assert order[j] == t.order[j];
            }
          }
        }
      }
    }
  }

  /** The group of key k is exactly the listed entries with that key, in scan order; a key without entries has no group. */
  lemma {:induction false} TabulateMembers(es: seq<Entry>, k: SortKey)
    ensures k in Tabulate(es).groups ==> Tabulate(es).groups[k] == Members(es, k) != []
    ensures k !in Tabulate(es).groups ==> Members(es, k) == []
    decreases |es|
  {
    if es != [] {
      TabulateMembers(es[..|es| - 1], k);
    }
  }

  /** Every key of a group carries the group's sort: a file key groups only files, a folder key only directories. */
  lemma {:induction false} MembersShareSort(es: seq<Entry>, k: SortKey)
    ensures forall j :: 0 <= j < |Members(es, k)| ==>
      Listed(Members(es, k)[j]) && (Members(es, k)[j].node == RegularFile <==> k.isFile)
    decreases |es|
  {
    if es != [] {
      MembersShareSort(es[..|es| - 1], k);
    }
  }

  /** After the sort: the keys in strictly increasing order, each group's key exactly once. */
  lemma ListingOrder(es: seq<Entry>)
    ensures StrictlySorted(SortKeyList(Tabulate(es).order))
    ensures Distinct(SortKeyList(Tabulate(es).order))
    ensures |SortKeyList(Tabulate(es).order)| == |Tabulate(es).groups|
    ensures forall k :: k in SortKeyList(Tabulate(es).order) <==> k in Tabulate(es).groups
  {
    var order := Tabulate(es).order;
    TabulateKeys(es);
    SortKeyListSorted(order);
    var sorted := SortKeyList(order);
    assert |sorted| == |multiset(sorted)| == |multiset(order)| == |order|;
    forall k ensures k in sorted <==> k in order {
      assert k in sorted <==> k in multiset(sorted);
    }
    SortedIsDistinct(sorted);
  }

  lemma SortedIsDistinct(ks: seq<SortKey>)
    requires StrictlySorted(ks)
    ensures Distinct(ks)
  {
    forall i, j | 0 <= i < j < |ks| ensures ks[i] != ks[j] {
      KeyLessStrictTotal(ks[i], ks[j], ks[j]);
    }
  }

  /** What a group resolves to. */
  datatype Resolution =
    | AsFolder(entry: Entry)                 // a lone directory
    | AsFile(entry: Entry)                   // a lone file, through _get_file
    | WithPreview(video: Entry, image: Entry) // the last video, the last image as its preview
    | Skip                                   // several entries, neither a video nor an image
    | DirectoryInGroup                       // several entries, one a directory: the AssertionError

  /** The last entry of the group whose file kind is k. */
  function LastOfKind(group: seq<Entry>, dir: string, k: Kind, magic: string -> string): (r: Option<Entry>)
    ensures r.Some? ==> r.value in group && FileKindOf(magic(JoinPath(dir, r.value.name))) == k
  {
    if group == [] then None
    else
      if EntryKind(dir, magic, group[|group| - 1]) == k then Some(group[|group| - 1]) else LastOfKind(group[..|group| - 1], dir, k, magic)
  }

  /** The kind _get_file gives entry e of folder dir. */
  function EntryKind(dir: string, magic: string -> string, e: Entry): Kind {
    FileKindOf(magic(JoinPath(dir, e.name)))
  }

  /** LastOfKind finds nothing exactly when no entry of the group has kind k. */
  lemma {:induction false} LastOfKindNone(group: seq<Entry>, dir: string, k: Kind, magic: string -> string)
    ensures LastOfKind(group, dir, k, magic).None? <==> forall j :: 0 <= j < |group| ==> EntryKind(dir, magic, group[j]) != k
    decreases |group|
  {
    if group != [] {
      var n := |group| - 1;
      var init := group[..n];
      if EntryKind(dir, magic, group[n]) != k {
        LastOfKindNone(init, dir, k, magic);
        assert LastOfKind(group, dir, k, magic) == LastOfKind(init, dir, k, magic);
        if LastOfKind(init, dir, k, magic).None? {
          forall j | 0 <= j < |group| ensures EntryKind(dir, magic, group[j]) != k {
            if j < n {
              assert group[j] == init[j];
            }
          }
        } else {
          var j :| 0 <= j < n && EntryKind(dir, magic, init[j]) == k;
          assert group[j] == init[j];
        }
      }
    }
  }

  /** When entry i has kind k and no later entry has, LastOfKind keeps entry i: the last video or image wins. */
  lemma {:induction false} LastOfKindAt(group: seq<Entry>, dir: string, k: Kind, magic: string -> string, i: nat)
    requires i < |group| && EntryKind(dir, magic, group[i]) == k
    requires forall j :: i < j < |group| ==> EntryKind(dir, magic, group[j]) != k
    ensures LastOfKind(group, dir, k, magic) == Some(group[i])
    decreases |group|
  {
    var n := |group| - 1;
    if i < n {
      assert EntryKind(dir, magic, group[n]) != k;
      LastOfKindAt(group[..n], dir, k, magic, i);
      assert group[..n][i] == group[i];
    }
  }

  /** The entry replaces the one kept so far when it has the kind wanted: `if isinstance(f, Video): video = f`. */
  function Pick(kind: Kind, wanted: Kind, e: Entry, kept: Option<Entry>): Option<Entry> {
    if kind == wanted then Some(e) else kept
  }

  /** The state of the loop over a group after its first i entries: no directory yet, and the last video and image so far. */
  predicate FilesSoFar(group: seq<Entry>, i: nat, dir: string, magic: string -> string, video: Option<Entry>, image: Option<Entry>) {
    && i <= |group|
    && (forall j :: 0 <= j < i ==> group[j].node != Directory)
    && video == LastOfKind(group[..i], dir, Video, magic)
    && image == LastOfKind(group[..i], dir, Image, magic)
  }

  /** One more file of the group, of the given kind. */
  lemma FileStep(group: seq<Entry>, i: nat, dir: string, magic: string -> string, video: Option<Entry>, image: Option<Entry>, kind: Kind)
    requires FilesSoFar(group, i, dir, magic, video, image) && i < |group| && group[i].node != Directory
    requires kind == FileKindOf(magic(JoinPath(dir, group[i].name)))
    ensures FilesSoFar(group, i + 1, dir, magic, Pick(kind, Video, group[i], video), Pick(kind, Image, group[i], image))
  {
    LastOfKindStep(group, i, dir, Video, magic);
    LastOfKindStep(group, i, dir, Image, magic);
  }

  /** One more entry of the group: it is the last of kind k exactly when it has that kind. */
  lemma LastOfKindStep(group: seq<Entry>, i: nat, dir: string, k: Kind, magic: string -> string)
    requires i < |group|
    ensures LastOfKind(group[..i + 1], dir, k, magic) ==
      if FileKindOf(magic(JoinPath(dir, group[i].name))) == k then Some(group[i]) else LastOfKind(group[..i], dir, k, magic)
  {
    assert group[..i + 1][..i] == group[..i];
  }

  predicate HasDirectory(group: seq<Entry>) {
    exists j :: 0 <= j < |group| && group[j].node == Directory
  }

  function Resolve(group: seq<Entry>, dir: string, magic: string -> string): Resolution {
    if |group| == 1 then
      if group[0].node == Directory then AsFolder(group[0]) else AsFile(group[0])
    else if HasDirectory(group) then DirectoryInGroup
    else Paired(LastOfKind(group, dir, Video, magic), LastOfKind(group, dir, Image, magic))
  }

  /** The decision after the loop over several files: the video with its preview, either one alone, or nothing. */
  function Paired(video: Option<Entry>, image: Option<Entry>): Resolution {
    if video.Some? && image.Some? then WithPreview(video.value, image.value)
    else if video.Some? then AsFile(video.value)
    else if image.Some? then AsFile(image.value)
    else Skip
  }

  /** A group of several files never trips the directory assertion. */
  lemma FileGroupsResolve(es: seq<Entry>, k: SortKey, dir: string, magic: string -> string)
    requires k.isFile && |Members(es, k)| > 1
    ensures Resolve(Members(es, k), dir, magic) != DirectoryInGroup
  {
    MembersShareSort(es, k);
  }

  /** The key of the folder "The Matrix". */
  lemma TheMatrixKey()
    ensures EntryKey(Entry("The Matrix", Directory)) == Some(SortKey(false, "Matrix, The"))
  {
    TheIsArticleWord();
    ArticleMovesToEnd("The", ' ', "Matrix");
    TheMatrixSpelling();
  }

  lemma TheIsArticleWord()
    ensures IsArticle("The") && forall j :: 0 <= j < |"The"| ==> !IsSpace("The"[j])
  {
    ArticleSpellings();
    assert !IsSpace('T') && !IsSpace('h') && !IsSpace('e');
  }

  lemma TheMatrixSpelling()
    ensures "The" + [' '] + "Matrix" == "The Matrix"
    ensures "Matrix" + ", " + "The" == "Matrix, The"
  {
  }

  /** The key of the folder "Matrix, The". */
  lemma MatrixTheKey()
    ensures EntryKey(Entry("Matrix, The", Directory)) == Some(SortKey(false, "Matrix, The"))
  {
    MatrixFirstWord();
    MatrixIsNoArticle();
    OtherNamesKept("Matrix, The", false);
  }

  lemma MatrixFirstWord()
    ensures FirstWord("Matrix, The") == Some("Matrix,")
  {
    MatrixWordHasNoSpace();
    MatrixSpelling();
    FirstWordOf("Matrix,", ' ', "The");
  }

  lemma MatrixSpelling()
    ensures "Matrix," + [' '] + "The" == "Matrix, The"
  {
  }

  lemma MatrixWordHasNoSpace()
    ensures forall j :: 0 <= j < |"Matrix,"| ==> !IsSpace("Matrix,"[j])
  {
    assert !IsSpace('M') && !IsSpace('a') && !IsSpace('t') && !IsSpace('r') && !IsSpace('i') && !IsSpace('x') && !IsSpace(',');
  }

  lemma MatrixIsNoArticle()
    ensures !IsArticle("Matrix,")
  {
    assert Lower("Matrix,") == "matrix,";
  }

  /** Two folders whose names agree after the article rotation share a key, and their group trips the assertion. */
  lemma RotatedFoldersClash(dir: string, magic: string -> string)
    ensures EntryKey(Entry("The Matrix", Directory)) == EntryKey(Entry("Matrix, The", Directory))
    ensures Resolve([Entry("The Matrix", Directory), Entry("Matrix, The", Directory)], dir, magic) == DirectoryInGroup
  {
    TheMatrixKey();
    MatrixTheKey();
    var g := [Entry("The Matrix", Directory), Entry("Matrix, The", Directory)];
    assert g[0].node == Directory;
  }

  /** The state of the loop of Folder.__iter__ after the first i entries. */
  predicate ScannedUpTo(entries: seq<Entry>, i: nat, groups: map<SortKey, seq<Entry>>, order: seq<SortKey>) {
    && i <= |entries|
    && (forall j :: 0 <= j < i ==> !Blank(entries[j]))
    && Table(order, groups) == Tabulate(entries[..i])
  }

  /** One more entry, skipped or added under its key. */
  lemma ScanStep(entries: seq<Entry>, i: nat, t: Table)
    requires ScannedUpTo(entries, i, t.groups, t.order) && i < |entries| && !Blank(entries[i])
    ensures var e := entries[i];
      ScannedUpTo(entries, i + 1,
        if Listed(e) then AddEntry(t, EntryKey(e).value, e).groups else t.groups,
        if Listed(e) then AddEntry(t, EntryKey(e).value, e).order else t.order)
  {
    assert entries[..i + 1][..i] == entries[..i];
  }

  /** The two-step update of __iter__ (a new key gets an empty group first, then the entry is appended) is AddEntry's. */
  lemma AddEntryInTwoSteps(t: Table, k: SortKey, e: Entry, groups: map<SortKey, seq<Entry>>, order: seq<SortKey>)
    requires order == (if k in t.groups then t.order else t.order + [k])
    requires groups == (if k in t.groups then t.groups[k := t.groups[k] + [e]] else t.groups[k := []][k := [] + [e]])
    ensures Table(order, groups) == AddEntry(t, k, e)
  {
    if k !in t.groups {
      assert [] + [e] == [e];
    }
  }

  /**
   * The loop of Folder.__iter__: each listed entry joins the group of its key,
   * a new key going to the end of the key list; it stops at the first listed
   * entry without a key.
   */
  method ScanEntries(entries: seq<Entry>) returns (groups: map<SortKey, seq<Entry>>, order: seq<SortKey>, blank: nat)
    ensures blank == FirstBlank(entries)
    ensures Table(order, groups) == Tabulate(entries[..blank])
  {
    groups, order := map[], [];
    var i := 0;
    while i < |entries|
      invariant ScannedUpTo(entries, i, groups, order)
    {
      var e := entries[i];
      if Blank(e) {
        FirstBlankIs(entries, i);
        return groups, order, i;
      }
      ghost var t := Table(order, groups);
      ScanStep(entries, i, t);
      if Listed(e) {
        var key := EntryKey(e).value;
        if key !in groups {
          order := order + [key];
          groups := groups[key := []];
        }
        groups := groups[key := groups[key] + [e]];
        AddEntryInTwoSteps(t, key, e, groups, order);
      }
      i := i + 1;
    }
    assert entries[..i] == entries;
    FirstBlankIs(entries, i);
    return groups, order, i;
  }

  /** The state of an object: its sort, the three names, the cached MIME type and sort key. */
  datatype ObjectView = ObjectView(
    kind: Kind, relpath: string, fullpath: string, name: string, mimetype: string, sortkey: Option<SortKey>)

  datatype PreviewView = NoPreview | OwnPreview | OtherPreview(image: ObjectView)

  datatype NextView = StopView | ItemView(obj: ObjectView, preview: PreviewView) | AssertionView

  /** The object made for path with the given sort and key: a folder has no MIME type, a file the one libmagic gives. */
  function Made(path: string, k: Kind, key: SortKey, magic: string -> string): ObjectView {
    ObjectView(k, RelPath(path), FullPath(path), NameOf(RelPath(path)), if k == Folder then "" else magic(path), Some(key))
  }

  /**
   * What __next__ returns for a group of folder dir resolving to res: a
   * Folder for a lone directory, _get_file's object for a lone file (an
   * Image being its own preview), the video with the image as its preview,
   * or the assertion. Skip has no object of its own: __next__ moves on.
   */
  function Expected(res: Resolution, dir: string, key: SortKey, magic: string -> string): NextView {
    match res
    case AsFolder(e) => ItemView(Made(JoinPath(dir, e.name), Folder, key, magic), NoPreview)
    case AsFile(e) =>
      var path := JoinPath(dir, e.name);
      var k := FileKindOf(magic(path));
      ItemView(Made(path, k, key, magic), if k == Image then OwnPreview else NoPreview)
    case WithPreview(v, im) =>
      ItemView(Made(JoinPath(dir, v.name), Video, key, magic), OtherPreview(Made(JoinPath(dir, im.name), Image, key, magic)))
    case DirectoryInGroup => AssertionView
    case Skip => StopView
  }

  /** The result of __next__. */
  datatype NextResult = Stop | Item(obj: VfsObject) | AssertionFailed

  class VfsObject {
    const kind: Kind
    const relpath: string
    const fullpath: string
    const name: string
    var mimetype: string
    var sortkey: Option<SortKey>
    var preview: VfsObject?
    // a Folder's iteration state
    var index: nat
    var objects: map<SortKey, seq<Entry>>
    var sortedList: seq<SortKey>

    /** The path normalisation of vfs_Object.__init__, then File's mimetype and Image's preview. */
    constructor (path: string, kind: Kind, mimetype: string, sortkey: Option<SortKey>)
      ensures this.kind == kind && this.mimetype == mimetype && this.sortkey == sortkey
      ensures relpath == RelPath(path) && fullpath == FullPath(path) && name == NameOf(RelPath(path))
      ensures preview == (if kind == Image then this else null)
      ensures index == 0 && objects == map[] && sortedList == []
    {
      this.kind := kind;
      relpath := RelPath(path);
      fullpath := FullPath(path);
      name := NameOf(RelPath(path));
      this.mimetype := mimetype;
      this.sortkey := sortkey;
      index := 0;
      objects := map[];
      sortedList := [];
      new;
      preview := if kind == Image then this else null;
    }

    predicate Hidden() {
      IsHiddenName(name)
    }

    function LocalUri(): string {
      LocalUriOf(fullpath)
    }

    /** The mimetype property: libmagic is asked only while the cached value is empty. */
    method GetMimetype(magic: string -> string) returns (m: string)
      modifies this`mimetype
      ensures old(mimetype) != "" ==> mimetype == old(mimetype)
      ensures old(mimetype) == "" ==> mimetype == magic(fullpath)
      ensures m == mimetype
    {
      if mimetype == "" {
        mimetype := magic(fullpath);
      }
      m := mimetype;
    }

    /** The sortkey property: computed from the name only while none is cached; None for the AssertionError or IndexError. */
    method GetSortKey() returns (k: Option<SortKey>)
      modifies this`sortkey
      ensures old(sortkey).Some? ==> sortkey == old(sortkey)
      ensures old(sortkey).None? ==> sortkey == SortKeyOf(name, kind != Folder)
      ensures k == sortkey
    {
      if sortkey.None? {
        sortkey := SortKeyOf(name, kind != Folder);
      }
      k := sortkey;
    }

    /** The iteration state is consistent: a position within the key list, one group per listed key. */
    predicate Valid()
      reads this
    {
      index <= |sortedList| && Grouped()
    }

    /** One group per listed key. */
    predicate Grouped()
      reads this`objects, this`sortedList
    {
      |objects| == |sortedList|
      && forall i :: 0 <= i < |sortedList| ==> sortedList[i] in objects
    }

    /** Folder.__iter__ over the folder's entries in scan order; Err(name) for the IndexError of a blank name. */
    method Iter(entries: seq<Entry>) returns (r: Result<(), string>)
      modifies this`index, this`objects, this`sortedList
      ensures index == 0 && Valid()
      ensures r.Ok? <==> FirstBlank(entries) == |entries|
      ensures r.Ok? ==> objects == Tabulate(entries).groups && sortedList == SortKeyList(Tabulate(entries).order)
      ensures r.Ok? ==> StrictlySorted(sortedList) && Distinct(sortedList)
      ensures r.Err? ==> r.error == entries[FirstBlank(entries)].name
      ensures r.Err? ==> objects == Tabulate(entries[..FirstBlank(entries)]).groups
      ensures r.Err? ==> sortedList == Tabulate(entries[..FirstBlank(entries)]).order
    {
      index := 0;
      var blank;
      objects, sortedList, blank := ScanEntries(entries);
      TabulateKeys(entries[..blank]);
      if blank < |entries| {
        return Err(entries[blank].name);
      }
      assert entries[..blank] == entries;
      ListingOrder(entries);
      sortedList := SortKeyList(sortedList);
      return Ok(());
    }

    /** _get_file: a Video, Image or File by the MIME type libmagic gives the path. */
    method GetFile(path: string, key: SortKey, magic: string -> string) returns (f: VfsObject)
      ensures fresh(f)
      ensures Describes(f, path, FileKindOf(magic(path)), key, magic)
      ensures f.preview == (if f.kind == Image then f else null)
    {
      var m := magic(path);
      var k := FileKindOf(m);
      f := new VfsObject(path, k, m, Some(key));
    }

    /**
     * The loop over a group of several entries: the assertion on a
     * directory, and the last entry _get_file makes a Video and the last it
     * makes an Image.
     */
    method PickFiles(group: seq<Entry>, magic: string -> string)
      returns (failed: bool, video: Option<Entry>, image: Option<Entry>)
      ensures failed <==> HasDirectory(group)
      ensures !failed ==> video == LastOfKind(group, fullpath, Video, magic)
      ensures !failed ==> image == LastOfKind(group, fullpath, Image, magic)
    {
      video, image := None, None;
      var i := 0;
      while i < |group|
        invariant FilesSoFar(group, i, fullpath, magic, video, image)
      {
        var e := group[i];
        if e.node == Directory {
          return true, video, image;
        }
        var kind := FileKindOf(magic(JoinPath(fullpath, e.name)));
        FileStep(group, i, fullpath, magic, video, image, kind);
        video, image := Pick(kind, Video, e, video), Pick(kind, Image, e, image);
        i := i + 1;
      }
      assert group[..i] == group;
      return false, video, image;
    }

    /** The first position from i whose group does not resolve to Skip, or the end of the key list. */
    function NextIndex(i: nat, magic: string -> string): (j: nat)
      reads this`objects, this`sortedList
      requires Grouped() && i <= |sortedList|
      ensures i <= j <= |sortedList|
      decreases |sortedList| - i
    {
      if i == |sortedList| then i
      else if Resolve(objects[sortedList[i]], fullpath, magic) == Skip then NextIndex(i + 1, magic)
      else i
    }

    /** NextIndex stops at the first group from i that does not resolve to Skip, and skips only groups that do. */
    lemma {:induction false} NextIndexFinds(i: nat, magic: string -> string)
      requires Grouped() && i <= |sortedList|
      ensures NextIndex(i, magic) < |sortedList| ==> Resolve(objects[sortedList[NextIndex(i, magic)]], fullpath, magic) != Skip
      ensures forall m :: i <= m < NextIndex(i, magic) ==> Resolve(objects[sortedList[m]], fullpath, magic) == Skip
      decreases |sortedList| - i
    {
      if i < |sortedList| && Resolve(objects[sortedList[i]], fullpath, magic) == Skip {
        NextIndexFinds(i + 1, magic);
      }
    }

    /**
     * Folder.__next__: the group at the first position from the current one
     * that does not resolve to Skip, made into an object; Stop once the keys
     * run out.
     */
    method Next(magic: string -> string) returns (r: NextResult)
      requires Valid()
      modifies this`index
      ensures Valid()
      ensures r == Stop <==> NextIndex(old(index), magic) == |sortedList|
      ensures index == (if r == Stop then |sortedList| else NextIndex(old(index), magic) + 1)
      ensures r != Stop ==>
        0 < index <= |sortedList| &&
        ResultView(r) == Expected(Resolve(objects[sortedList[index - 1]], fullpath, magic), fullpath, sortedList[index - 1], magic)
      ensures r.Item? ==> fresh(r.obj) && (r.obj.preview != null ==> fresh(r.obj.preview))
      decreases |sortedList| - index
    {
      if index >= |objects| {
        return Stop;
      }
      var key := sortedList[index];
      var group := objects[key];
      index := index + 1;
      var skipped;
      r, skipped := ResolveGroup(group, key, magic);
      NextIndexAt(index - 1, magic);
      assert key == sortedList[index - 1] && group == objects[key];
      if skipped {
        r := Next(magic);
      }
    }

    /** From a position that resolves to Skip the search goes on at the next one; from any other it stops there. */
    lemma NextIndexAt(i: nat, magic: string -> string)
      requires Grouped() && i < |sortedList|
      ensures Resolve(objects[sortedList[i]], fullpath, magic) == Skip ==> NextIndex(i, magic) == NextIndex(i + 1, magic)
      ensures Resolve(objects[sortedList[i]], fullpath, magic) != Skip ==> NextIndex(i, magic) == i
    {
    }

    /** One group made into the object __next__ returns; skipped when it resolves to Skip. */
    method ResolveGroup(group: seq<Entry>, key: SortKey, magic: string -> string) returns (r: NextResult, skipped: bool)
      ensures skipped <==> Resolve(group, fullpath, magic) == Skip
      ensures ResultView(r) == Expected(Resolve(group, fullpath, magic), fullpath, key, magic)
      ensures r.Item? ==> fresh(r.obj) && (r.obj.preview != null ==> fresh(r.obj.preview))
    {
      if |group| == 1 {
        r := ResolveLone(group[0], key, magic);
        return r, false;
      }
      r, skipped := ResolveSeveral(group, key, magic);
    }

    /** A group of one entry: a Folder for a directory, _get_file's object otherwise. */
    method ResolveLone(e: Entry, key: SortKey, magic: string -> string) returns (r: NextResult)
      ensures ResultView(r) == Expected(if e.node == Directory then AsFolder(e) else AsFile(e), fullpath, key, magic)
      ensures r.Item? && fresh(r.obj) && (r.obj.preview != null ==> fresh(r.obj.preview))
    {
      var path := JoinPath(fullpath, e.name);
      if e.node == Directory {
        var folder := new VfsObject(path, Folder, "", Some(key));
        return Item(folder);
      }
      var f := GetFile(path, key, magic);
      return Item(f);
    }

    /** A group of several entries: the assertion for a directory among them, else the last video and image. */
    method ResolveSeveral(group: seq<Entry>, key: SortKey, magic: string -> string) returns (r: NextResult, skipped: bool)
      requires |group| != 1
      ensures skipped <==> Resolve(group, fullpath, magic) == Skip
      ensures ResultView(r) == Expected(Resolve(group, fullpath, magic), fullpath, key, magic)
      ensures r.Item? ==> fresh(r.obj) && (r.obj.preview != null ==> fresh(r.obj.preview))
    {
      var failed, v, im := PickFiles(group, magic);
      if failed {
        return AssertionFailed, false;
      }
      r, skipped := Present(v, im, key, magic);
    }

    /** The objects for the last video and image of a group, the image becoming the video's preview. */
    method Present(v: Option<Entry>, im: Option<Entry>, key: SortKey, magic: string -> string) returns (r: NextResult, skipped: bool)
      requires v.Some? ==> FileKindOf(magic(JoinPath(fullpath, v.value.name))) == Video
      requires im.Some? ==> FileKindOf(magic(JoinPath(fullpath, im.value.name))) == Image
      ensures skipped <==> Paired(v, im) == Skip
      ensures ResultView(r) == Expected(Paired(v, im), fullpath, key, magic)
      ensures r.Item? ==> fresh(r.obj) && (r.obj.preview != null ==> fresh(r.obj.preview))
    {
      if v.None? && im.None? {
        return Stop, true;
      } else if v.None? {
        var image := GetFile(JoinPath(fullpath, im.value.name), key, magic);
        return Item(image), false;
      }
      var video := GetFile(JoinPath(fullpath, v.value.name), key, magic);
      if im.None? {
        return Item(video), false;
      }
      var image := GetFile(JoinPath(fullpath, im.value.name), key, magic);
      video.preview := image;
      return Item(video), false;
    }

    /** o is the object the source creates for path: its sort, names, MIME type and key. */
    static predicate Describes(o: VfsObject, path: string, k: Kind, key: SortKey, magic: string -> string)
      reads o
    {
      ViewOf(o) == Made(path, k, key, magic)
    }

    static function ViewOf(o: VfsObject): ObjectView
      reads o
    {
      ObjectView(o.kind, o.relpath, o.fullpath, o.name, o.mimetype, o.sortkey)
    }

    /** What a caller of __next__ can observe of its result, the preview included. */
    static function ResultView(r: NextResult): NextView
      reads if r.Item? then {r.obj} else {}
      reads if r.Item? && r.obj.preview != null then {r.obj.preview} else {}
    {
      match r
      case Stop => StopView
      case AssertionFailed => AssertionView
      case Item(o) =>
        ItemView(ViewOf(o),
          if o.preview == null then NoPreview else if o.preview == o then OwnPreview else OtherPreview(ViewOf(o.preview)))
    }
  }

  /** The object made for a listed entry of a folder under the root is named like the entry, and is hidden exactly when the entry would be. */
  lemma EntryObjectName(folder: string, e: Entry)
    requires StartsWith(folder, MediaRoot)
    requires e.name != [] && Sep !in e.name
    ensures NameOf(RelPath(JoinPath(folder, e.name))) == e.name
    ensures IsHiddenName(NameOf(RelPath(JoinPath(folder, e.name)))) <==> IsHiddenName(e.name)
  {
    var p := JoinPath(folder, e.name);
    var rest := folder[|MediaRoot|..];
    assert folder == MediaRoot + rest;
    var x := if folder[|folder| - 1] == Sep then folder[..|folder| - 1] else folder;
    assert folder[|MediaRoot| - 1] == MediaRoot[|MediaRoot| - 1] != Sep;
    assert |x| >= |MediaRoot|;
    assert p == x + [Sep] + e.name;
    assert StartsWith(p, MediaRoot);
    var t := p[|MediaRoot|..];
    assert RelPath(p) == LStrip(t);
    assert t == x[|MediaRoot|..] + [Sep] + e.name;
    LStripBeforeName(x[|MediaRoot|..], e.name);
    var l := LStrip(t);
    if l == e.name {
      NameOfName(e.name);
    } else {
      var y :| l == y + [Sep] + e.name;
      NameAfterSep(y, e.name);
    }
  }
}
