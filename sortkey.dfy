/**
 * vfs._get_sortkey: the key a directory entry is listed by. A leading
 * article moves to the end ("The Truman Show" becomes "Truman Show, The"),
 * a file loses its extension, and the key is the pair (is_file, name), so
 * every folder sorts before every file.
 */
module SortKeys {
  import opened Wrappers

  datatype SortKey = SortKey(isFile: bool, name: string)

  /** The characters str.split() separates words at (str.isspace). */
  predicate IsSpace(c: char) {
    var n := c as int;
    n == 0x20 || 0x09 <= n <= 0x0D || 0x1C <= n <= 0x1F || n == 0x85 || n == 0xA0 || n == 0x1680
    || 0x2000 <= n <= 0x200A || n == 0x2028 || n == 0x2029 || n == 0x202F || n == 0x205F || n == 0x3000
  }

  /** Number of whitespace characters s starts with. */
  function LeadingSpace(s: string): (k: nat)
    ensures k <= |s|
  {
    if s == [] || !IsSpace(s[0]) then 0 else 1 + LeadingSpace(s[1..])
  }

  lemma {:induction false} LeadingSpaceShape(s: string)
    ensures forall j :: 0 <= j < LeadingSpace(s) ==> IsSpace(s[j])
    ensures LeadingSpace(s) < |s| ==> !IsSpace(s[LeadingSpace(s)])
    decreases |s|
  {
    if s != [] && IsSpace(s[0]) {
      LeadingSpaceShape(s[1..]);
    }
  }

  /** Number of non-whitespace characters s starts with. */
  function WordLength(s: string): (k: nat)
    ensures k <= |s|
  {
    if s == [] || IsSpace(s[0]) then 0 else 1 + WordLength(s[1..])
  }

  /** name.split(maxsplit=1)[0], None where that is an IndexError (no word at all). */
  function FirstWord(s: string): Option<string> {
    var i := LeadingSpace(s);
    if i == |s| then None else Some(s[i..i + WordLength(s[i..])])
  }

  function LowerAscii(c: char): char {
    if 'A' <= c <= 'Z' then (c as int + 32) as char else c
  }

  function Lower(s: string): string {
    if s == [] then [] else [LowerAscii(s[0])] + Lower(s[1..])
  }

  /** first_word.lower() in ('the', 'an', 'a') */
  predicate IsArticle(w: string) {
    Lower(w) in {"the", "an", "a"}
  }

  /** s[k:]: empty once k passes the end. */
  function From(s: string, k: nat): string {
    if k <= |s| then s[k..] else ""
  }

  /** The name with a leading article rotated to the end; None when the name has no word. */
  function Rotated(name: string): Option<string> {
    match FirstWord(name)
    case None => None
    case Some(w) => Some(if IsArticle(w) then From(name, |w| + 1) + ", " + w else name)
  }

  /** Position of the last c in s, if any (str.rfind). */
  function LastIndex(s: string, c: char): (r: Option<nat>)
    ensures r.Some? ==> r.value < |s|
  {
    if s == [] then None
    else if s[|s| - 1] == c then Some(|s| - 1)
    else LastIndex(s[..|s| - 1], c)
  }

  lemma {:induction false} LastIndexShape(s: string, c: char)
    ensures LastIndex(s, c).Some? ==> s[LastIndex(s, c).value] == c && c !in s[LastIndex(s, c).value + 1..]
    ensures LastIndex(s, c).None? ==> c !in s
    decreases |s|
  {
    if s != [] && s[|s| - 1] != c {
      var init := s[..|s| - 1];
      LastIndexShape(init, c);
      assert s == init + [s[|s| - 1]];
      var r := LastIndex(init, c);
      if r.Some? {
        assert s[r.value + 1..] == init[r.value + 1..] + [s[|s| - 1]];
      }
    }
  }

  /** The last c of "<base><c><tail>" is the one after base when tail has none. */
  lemma {:induction false} LastIndexOf(base: string, c: char, tail: string)
    requires c !in tail
    ensures LastIndex(base + [c] + tail, c) == Some(|base|)
    decreases |tail|
  {
    var s := base + [c] + tail;
    if tail != [] {
      assert s[|s| - 1] == tail[|tail| - 1];
      assert s[..|s| - 1] == base + [c] + tail[..|tail| - 1];
      LastIndexOf(base, c, tail[..|tail| - 1]);
    }
  }

  /** name.rsplit('.', 1)[0] */
  function StripExt(s: string): string {
    match LastIndex(s, '.')
    case None => s
    case Some(k) => s[..k]
  }

  /** _get_sortkey(name, is_file); None for the AssertionError or IndexError of a name with no word. */
  function SortKeyOf(name: string, isFile: bool): Option<SortKey> {
    match Rotated(name)
    case None => None
    case Some(n) => Some(SortKey(isFile, if isFile then StripExt(n) else n))
  }

  // ---------------------------------------------------------------------
  // What the key is

  /** A name without non-whitespace characters has no key. */
  lemma NoWordNoKey(name: string, isFile: bool)
    requires forall j :: 0 <= j < |name| ==> IsSpace(name[j])
    ensures SortKeyOf(name, isFile) == None
  {
    LeadingSpaceShape(name);
  }

  /** The first word of "<w><space><rest>" is w when w has no whitespace. */
  lemma FirstWordOf(w: string, c: char, rest: string)
    requires |w| >= 1 && forall j :: 0 <= j < |w| ==> !IsSpace(w[j])
    requires IsSpace(c)
    ensures FirstWord(w + [c] + rest) == Some(w)
  {
    var s := w + [c] + rest;
    assert !IsSpace(s[0]);
    assert LeadingSpace(s) == 0;
    assert s[0..] == s;
    WordLengthOf(w, [c] + rest);
    assert s == w + ([c] + rest);
    assert s[..|w|] == w;
  }

  lemma {:induction false} WordLengthOf(w: string, rest: string)
    requires forall j :: 0 <= j < |w| ==> !IsSpace(w[j])
    requires rest == [] || IsSpace(rest[0])
    ensures WordLength(w + rest) == |w|
    decreases |w|
  {
    if w != [] {
      assert (w + rest)[1..] == w[1..] + rest;
      WordLengthOf(w[1..], rest);
    } else {
      assert w + rest == rest;
    }
  }

  /**
   * A folder named "<article> <rest>" is listed as "<rest>, <article>", the
   * article keeping its own capitalisation.
   */
  lemma ArticleMovesToEnd(w: string, c: char, rest: string)
    requires |w| >= 1 && forall j :: 0 <= j < |w| ==> !IsSpace(w[j])
    requires IsSpace(c) && IsArticle(w)
    ensures SortKeyOf(w + [c] + rest, false) == Some(SortKey(false, rest + ", " + w))
  {
    FirstWordOf(w, c, rest);
    assert (w + [c] + rest)[|w| + 1..] == rest;
  }

  /** "The", "AN", "a" and the like are articles, in any capitalisation. */
  lemma ArticleSpellings()
    ensures IsArticle("The") && IsArticle("THE") && IsArticle("An") && IsArticle("A") && IsArticle("a")
    ensures !IsArticle("Then") && !IsArticle("")
  {
    assert Lower("The") == "the";
    assert Lower("THE") == "the";
    assert Lower("An") == "an";
    assert Lower("A") == "a";
    assert Lower("Then") == "then";
  }

  /** A name whose first word is not an article keeps its text. */
  lemma OtherNamesKept(name: string, isFile: bool)
    requires FirstWord(name).Some? && !IsArticle(FirstWord(name).value)
    ensures SortKeyOf(name, isFile) == Some(SortKey(isFile, if isFile then StripExt(name) else name))
  {
  }

  /**
   * rsplit('.', 1)[0]: with a '.' in the name, the result is what comes
   * before the last one, and what follows it has no '.'; without one the
   * name is unchanged.
   */
  lemma StripExtSplits(s: string)
    ensures '.' !in s ==> StripExt(s) == s
    ensures '.' in s ==> exists ext :: s == StripExt(s) + "." + ext && '.' !in ext
  {
    LastIndexShape(s, '.');
    var d := LastIndex(s, '.');
    if d.Some? {
      var k := d.value;
      var ext := s[k + 1..];
      assert s == s[..k] + "." + ext;
    }
  }

  /** The extension goes: "Film.mkv" is listed as "Film". */
  lemma FileKeyDropsExtension(base: string, ext: string)
    requires FirstWord(base + "." + ext).Some? && !IsArticle(FirstWord(base + "." + ext).value)
    requires '.' !in ext
    ensures SortKeyOf(base + "." + ext, true) == Some(SortKey(true, base))
  {
    LastIndexOf(base, '.', ext);
    assert (base + "." + ext)[..|base|] == base;
  }

  /** Folders keep their dots. */
  lemma FolderKeyKeepsDots(name: string)
    requires FirstWord(name).Some? && !IsArticle(FirstWord(name).value)
    ensures SortKeyOf(name, false) == Some(SortKey(false, name))
  {
  }

  // ---------------------------------------------------------------------
  // The order of keys: tuples compare element by element, strings by code point

  predicate StrLess(a: string, b: string)
    decreases |a|
  {
    if a == [] then b != []
    else if b == [] then false
    else a[0] < b[0] || (a[0] == b[0] && StrLess(a[1..], b[1..]))
  }

  /** (is_file, name) < (is_file', name'): False before True, then the names. */
  predicate KeyLess(a: SortKey, b: SortKey) {
    (!a.isFile && b.isFile) || (a.isFile == b.isFile && StrLess(a.name, b.name))
  }

  lemma {:induction false} StrLessIrreflexive(a: string)
    ensures !StrLess(a, a)
    decreases |a|
  {
    if a != [] {
      StrLessIrreflexive(a[1..]);
    }
  }

  lemma {:induction false} StrLessTransitive(a: string, b: string, c: string)
    requires StrLess(a, b) && StrLess(b, c)
    ensures StrLess(a, c)
    decreases |a|
  {
    if a != [] && b != [] && c != [] && a[0] == b[0] == c[0] {
      StrLessTransitive(a[1..], b[1..], c[1..]);
    }
  }

  lemma {:induction false} StrLessTotal(a: string, b: string)
    requires a != b
    ensures StrLess(a, b) || StrLess(b, a)
    decreases |a|
  {
    if a != [] && b != [] && a[0] == b[0] {
      assert a == [a[0]] + a[1..] && b == [b[0]] + b[1..];
      StrLessTotal(a[1..], b[1..]);
    }
  }

  /** Every folder is listed before every file. */
  lemma FoldersFirst(a: SortKey, b: SortKey)
    requires !a.isFile && b.isFile
    ensures KeyLess(a, b) && !KeyLess(b, a)
  {
  }

  /** Keys are totally and strictly ordered, so sorting distinct keys leaves no ties. */
  lemma KeyLessStrictTotal(a: SortKey, b: SortKey, c: SortKey)
    ensures !KeyLess(a, a)
    ensures KeyLess(a, b) && KeyLess(b, c) ==> KeyLess(a, c)
    ensures a != b ==> KeyLess(a, b) || KeyLess(b, a)
    ensures KeyLess(a, b) ==> !KeyLess(b, a)
  {
    StrLessIrreflexive(a.name);
    if KeyLess(a, b) && KeyLess(b, c) && a.isFile == b.isFile == c.isFile {
      StrLessTransitive(a.name, b.name, c.name);
    }
    if a != b && a.isFile == b.isFile {
      StrLessTotal(a.name, b.name);
    }
    if KeyLess(a, b) && KeyLess(b, a) {
      StrLessTransitive(a.name, b.name, a.name);
    }
  }

  // ---------------------------------------------------------------------
  // _sorted_list.sort()

  predicate StrictlySorted(ks: seq<SortKey>) {
    forall i, j :: 0 <= i < j < |ks| ==> KeyLess(ks[i], ks[j])
  }

  function InsertKey(ks: seq<SortKey>, k: SortKey): seq<SortKey> {
    if ks == [] || KeyLess(ks[|ks| - 1], k) then ks + [k]
    else InsertKey(ks[..|ks| - 1], k) + [ks[|ks| - 1]]
  }

  function SortKeyList(ks: seq<SortKey>): seq<SortKey> {
    if ks == [] then [] else InsertKey(SortKeyList(ks[..|ks| - 1]), ks[|ks| - 1])
  }

  lemma {:induction false} InsertKeyPermutes(ks: seq<SortKey>, k: SortKey)
    ensures multiset(InsertKey(ks, k)) == multiset(ks) + multiset{k}
    decreases |ks|
  {
    if !(ks == [] || KeyLess(ks[|ks| - 1], k)) {
      InsertKeyPermutes(ks[..|ks| - 1], k);
      assert ks == ks[..|ks| - 1] + [ks[|ks| - 1]];
    }
  }

  lemma {:induction false} InsertKeySorted(ks: seq<SortKey>, k: SortKey)
    requires StrictlySorted(ks) && k !in ks
    ensures StrictlySorted(InsertKey(ks, k))
    decreases |ks|
  {
    if ks != [] {
      var init, last := ks[..|ks| - 1], ks[|ks| - 1];
      if KeyLess(last, k) {
        forall i | 0 <= i < |ks| ensures KeyLess(ks[i], k) {
          if i < |ks| - 1 {
            KeyLessStrictTotal(ks[i], last, k);
          }
        }
      } else {
        KeyLessStrictTotal(k, last, k);
        assert KeyLess(k, last);
        assert StrictlySorted(init);
        InsertKeySorted(init, k);
        InsertKeyPermutes(init, k);
        var r := InsertKey(init, k);
        forall i | 0 <= i < |r| ensures KeyLess(r[i], last) {
          assert r[i] in multiset(r);
          if r[i] != k {
            assert r[i] in multiset(init);
            var j :| 0 <= j < |init| && init[j] == r[i];
          }
        }
      }
    }
  }

  lemma {:induction false} SortKeyListPermutes(ks: seq<SortKey>)
    ensures multiset(SortKeyList(ks)) == multiset(ks)
    decreases |ks|
  {
    if ks != [] {
      SortKeyListPermutes(ks[..|ks| - 1]);
      InsertKeyPermutes(SortKeyList(ks[..|ks| - 1]), ks[|ks| - 1]);
      assert ks == ks[..|ks| - 1] + [ks[|ks| - 1]];
    }
  }

  predicate Distinct(ks: seq<SortKey>) {
    forall i, j :: 0 <= i < j < |ks| ==> ks[i] != ks[j]
  }

  /** Sorting distinct keys gives them in strictly increasing order, each exactly once. */
  lemma {:induction false} SortKeyListSorted(ks: seq<SortKey>)
    requires Distinct(ks)
    ensures StrictlySorted(SortKeyList(ks))
    ensures multiset(SortKeyList(ks)) == multiset(ks)
    decreases |ks|
  {
    SortKeyListPermutes(ks);
    if ks != [] {
      var init, last := ks[..|ks| - 1], ks[|ks| - 1];
      assert Distinct(init);
      SortKeyListSorted(init);
      forall j | 0 <= j < |init| ensures init[j] != last {
        assert init[j] == ks[j];
      }
      assert last !in multiset(SortKeyList(init));
      InsertKeySorted(SortKeyList(init), last);
    }
  }
}
