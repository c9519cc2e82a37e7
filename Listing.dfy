/**
 * The directory listing of `getContents`: the entries of a directory
 * split into folder items (with their immediate child counts) and file
 * items, and the file items sorted with directories first, then by name.
 */
module Listing {
  import opened FileTree

  /** `FileItem(name, size, isDir, lastModified)`. */
  datatype FileItem = FileItem(name: string, size: nat, isDir: bool, lastModified: nat)

  /** `FolderItem(name, count)`: a directory and how many entries it holds. */
  datatype FolderItem = FolderItem(name: string, count: nat)

  // ---------------------------------------------------------------------
  // Ordering: compareByDescending { isDir } thenBy { name }
  // ---------------------------------------------------------------------

  /**
   * `String.compareTo(...) <= 0`: lexicographic on characters, so a name
   * comes no later than itself (and than any name it is a prefix of, see
   * `NameLePrefix`).
   */
  function NameLe(a: string, b: string): (r: bool)
    ensures a == b ==> r
  {
    if a == [] then true
    else if b == [] then false
    else if a[0] != b[0] then a[0] < b[0]
    else NameLe(a[1..], b[1..])
  }

  /** A name comes no later than any name it is a prefix of. */
  lemma {:induction false} NameLePrefix(a: string, b: string)
    requires |a| <= |b| && b[..|a|] == a
    ensures NameLe(a, b)
  {
    if a != [] {
      assert b[1..][..|a| - 1] == a[1..];
      NameLePrefix(a[1..], b[1..]);
    }
  }

  lemma {:induction false} NameLeTotal(a: string, b: string)
    ensures NameLe(a, b) || NameLe(b, a)
  {
    if a != [] && b != [] && a[0] == b[0] {
      NameLeTotal(a[1..], b[1..]);
    }
  }

  lemma {:induction false} NameLeTransitive(a: string, b: string, c: string)
    requires NameLe(a, b) && NameLe(b, c)
    ensures NameLe(a, c)
  {
    if a != [] && b != [] && c != [] && a[0] == b[0] && b[0] == c[0] {
      NameLeTransitive(a[1..], b[1..], c[1..]);
    }
  }

  lemma {:induction false} NameLeAntisymmetric(a: string, b: string)
    requires NameLe(a, b) && NameLe(b, a)
    ensures a == b
  {
    if a != [] && b != [] {
      NameLeAntisymmetric(a[1..], b[1..]);
      assert a == [a[0]] + a[1..] && b == [b[0]] + b[1..];
    }
  }

  /**
   * The comparator of `sortWith`: of a directory and a file the directory
   * comes first; two of the same kind are ordered by name.
   */
  function ItemLe(x: FileItem, y: FileItem): (r: bool)
    ensures x.isDir != y.isDir ==> (r <==> x.isDir)
    ensures x.isDir == y.isDir ==> (r <==> NameLe(x.name, y.name))
    ensures x.isDir == y.isDir && x.name == y.name ==> r
  {
    (x.isDir && !y.isDir) || (x.isDir == y.isDir && NameLe(x.name, y.name))
  }

  lemma ItemLeTotal(x: FileItem, y: FileItem)
    ensures ItemLe(x, y) || ItemLe(y, x)
  {
    NameLeTotal(x.name, y.name);
  }

  lemma ItemLeTransitive(x: FileItem, y: FileItem, z: FileItem)
    requires ItemLe(x, y) && ItemLe(y, z)
    ensures ItemLe(x, z)
  {
    if x.isDir == y.isDir == z.isDir {
      NameLeTransitive(x.name, y.name, z.name);
    }
  }

  predicate Sorted(s: seq<FileItem>)
  {
    forall i, j :: 0 <= i < j < |s| ==> ItemLe(s[i], s[j])
  }

  // ---------------------------------------------------------------------
  // The sort (stable insertion sort under ItemLe)
  // ---------------------------------------------------------------------

  /** Puts `x` before the first element it is ordered before: one more copy of `x`, nothing else. */
  function Insert(x: FileItem, s: seq<FileItem>): (r: seq<FileItem>)
    ensures multiset(r) == multiset(s) + multiset{x}
  {
    if s == [] || ItemLe(x, s[0]) then [x] + s
    else
      assert s == [s[0]] + s[1..];
      [s[0]] + Insert(x, s[1..])
  }

  lemma {:induction false} InsertSorted(x: FileItem, s: seq<FileItem>)
    requires Sorted(s)
    ensures Sorted(Insert(x, s))
  {
    if s == [] {
    } else if ItemLe(x, s[0]) {
      forall j | 0 < j < |s|
        ensures ItemLe(x, s[j])
      {
        ItemLeTransitive(x, s[0], s[j]);
      }
    } else {
      var t := Insert(x, s[1..]);
      InsertSorted(x, s[1..]);
      ItemLeTotal(x, s[0]);
      forall j | 0 <= j < |t|
        ensures ItemLe(s[0], t[j])
      {
        assert t[j] in multiset(t);
        assert t[j] == x || t[j] in multiset(s[1..]);
        if t[j] != x {
          var k :| 0 <= k < |s[1..]| && s[1..][k] == t[j];
          assert s[k + 1] == t[j];
        }
      }
      var r := [s[0]] + t;
      forall i, j | 0 <= i < j < |r|
        ensures ItemLe(r[i], r[j])
      {
        if i > 0 {
          assert r[i] == t[i - 1] && r[j] == t[j - 1];
        }
      }
    }
  }

  /**
   * `filesList.sortWith(compareByDescending { it.isDir }.thenBy { it.name })`:
   * the entries given, each as often as given, ordered directories first,
   * then by name.
   */
  function SortFiles(s: seq<FileItem>): (r: seq<FileItem>)
    ensures multiset(r) == multiset(s)
    ensures Sorted(r)
  {
    if s == [] then []
    else
      var t := SortFiles(s[1..]);
      InsertSorted(s[0], t);
      assert s == [s[0]] + s[1..];
      Insert(s[0], t)
  }

  /**
   * When no entry is a directory (always so for `filesList`), the order
   * is by name alone, and distinct names come out strictly ascending.
   */
  lemma SortedFilesByName(s: seq<FileItem>)
    requires Sorted(s)
    requires forall k :: 0 <= k < |s| ==> !s[k].isDir
    ensures forall i, j :: 0 <= i < j < |s| ==> NameLe(s[i].name, s[j].name)
    ensures (forall i, j :: 0 <= i < j < |s| ==> s[i].name != s[j].name) ==>
      forall i, j :: 0 <= i < j < |s| ==> !NameLe(s[j].name, s[i].name)
  {
    forall i, j | 0 <= i < j < |s| && s[i].name != s[j].name
      ensures !NameLe(s[j].name, s[i].name)
    {
      if NameLe(s[j].name, s[i].name) {
        NameLeAntisymmetric(s[i].name, s[j].name);
      }
    }
  }

  /** 'A' (65) sorts before 'a' (97), which sorts before 'b' (98). */
  lemma ExampleNameOrder()
    ensures NameLe("A.txt", "a.txt") && !NameLe("a.txt", "A.txt")
    ensures NameLe("a.txt", "b.txt") && !NameLe("b.txt", "a.txt")
    ensures NameLe("A.txt", "b.txt") && !NameLe("b.txt", "A.txt")
  {
    assert "A.txt"[0] < "a.txt"[0] < "b.txt"[0];
  }

  /**
   * The byte order of the example listing: "b.txt", "a.txt", "A.txt"
   * sort as "A.txt", "a.txt", "b.txt".
   */
  lemma ExampleOrder(b: FileItem, a: FileItem, capitalA: FileItem)
    requires b.name == "b.txt" && a.name == "a.txt" && capitalA.name == "A.txt"
    requires !b.isDir && !a.isDir && !capitalA.isDir
    ensures SortFiles([b, a, capitalA]) == [capitalA, a, b]
  {
    ExampleNameOrder();
    assert [b, a, capitalA][1..] == [a, capitalA];
    assert [a, capitalA][1..] == [capitalA];
    assert SortFiles([capitalA]) == [capitalA] by {
      assert [capitalA][1..] == [];
    }
    assert Insert(a, [capitalA]) == [capitalA, a] by {
      assert [capitalA][1..] == [];
      assert Insert(a, []) == [a];
    }
    assert SortFiles([a, capitalA]) == [capitalA, a];
    assert Insert(b, [capitalA, a]) == [capitalA, a, b] by {
      assert [capitalA, a][1..] == [a];
      assert [a][1..] == [];
      assert Insert(b, []) == [b];
      assert Insert(b, [a]) == [a, b];
    }
  }

  // ---------------------------------------------------------------------
  // The partition: one pass over the entries in listing order
  // ---------------------------------------------------------------------

  /** The folder items for the directories among `names` (children of `d`), in order. */
  function FoldersOf(m: Tree, d: Path, names: seq<string>): (r: seq<FolderItem>)
    ensures |r| <= |names|
    ensures forall k :: 0 <= k < |r| ==>
      r[k].name in names && IsDir(m, d + [r[k].name]) && r[k].count == |Children(m, d + [r[k].name])|
  {
    if names == [] then []
    else
      var rest := FoldersOf(m, d, names[..|names| - 1]);
      var n := names[|names| - 1];
      if IsDir(m, d + [n]) then rest + [FolderItem(n, |Children(m, d + [n])|)] else rest
  }

  /** The file items for the other entries among `names`, in order. */
  function FilesOf(m: Tree, d: Path, names: seq<string>): (r: seq<FileItem>)
    ensures |r| <= |names|
    ensures forall k :: 0 <= k < |r| ==>
      r[k].name in names && !r[k].isDir && d + [r[k].name] in m &&
      m[d + [r[k].name]] == File(r[k].size, r[k].lastModified)
  {
    if names == [] then []
    else
      var rest := FilesOf(m, d, names[..|names| - 1]);
      var n := names[|names| - 1];
      if d + [n] in m && m[d + [n]].File? then
        rest + [FileItem(n, m[d + [n]].length, false, m[d + [n]].lastModified)]
      else rest
  }

  function FolderNames(xs: seq<FolderItem>): seq<string>
  {
    if xs == [] then [] else FolderNames(xs[..|xs| - 1]) + [xs[|xs| - 1].name]
  }

  function FileNames(xs: seq<FileItem>): seq<string>
  {
    if xs == [] then [] else FileNames(xs[..|xs| - 1]) + [xs[|xs| - 1].name]
  }

  /**
   * Every entry lands in exactly one of the two lists: taken together the
   * folder names and file names are the listed names, each as often.
   */
  lemma {:induction false} ListingPartition(m: Tree, d: Path, names: seq<string>)
    requires forall k :: 0 <= k < |names| ==> d + [names[k]] in m
    ensures multiset(FolderNames(FoldersOf(m, d, names))) + multiset(FileNames(FilesOf(m, d, names)))
            == multiset(names)
  {
    if names != [] {
      var init := names[..|names| - 1];
      var n := names[|names| - 1];
      ListingPartition(m, d, init);
      PartitionStep(m, d, names);
      MultisetSnoc(names);
    }
  }

  lemma MultisetSnoc<T>(xs: seq<T>)
    requires xs != []
    ensures multiset(xs) == multiset(xs[..|xs| - 1]) + multiset{xs[|xs| - 1]}
  {
    assert xs == xs[..|xs| - 1] + [xs[|xs| - 1]];
  }

  /** The last name lands in the folder list or in the file list, not both. */
  lemma PartitionStep(m: Tree, d: Path, names: seq<string>)
    requires names != [] && d + [names[|names| - 1]] in m
    ensures var init := names[..|names| - 1];
      var n := names[|names| - 1];
      multiset(FolderNames(FoldersOf(m, d, names))) + multiset(FileNames(FilesOf(m, d, names))) ==
      multiset(FolderNames(FoldersOf(m, d, init))) + multiset(FileNames(FilesOf(m, d, init))) + multiset{n}
  {
    var init := names[..|names| - 1];
    var n := names[|names| - 1];
    var fo := FoldersOf(m, d, init);
    var fi := FilesOf(m, d, init);
    if IsDir(m, d + [n]) {
      var fo' := fo + [FolderItem(n, |Children(m, d + [n])|)];
      assert fo'[..|fo'| - 1] == fo;
      assert FolderNames(fo') == FolderNames(fo) + [n];
    } else {
      var fi' := fi + [FileItem(n, m[d + [n]].length, false, m[d + [n]].lastModified)];
      assert fi'[..|fi'| - 1] == fi;
      assert FileNames(fi') == FileNames(fi) + [n];
    }
  }

  /** The folders keep listing order: they follow the directories among the names. */
  lemma {:induction false} FoldersInListingOrder(m: Tree, d: Path, names: seq<string>, i: nat, j: nat)
    requires 0 <= i < j < |FoldersOf(m, d, names)|
    ensures exists a, b :: (0 <= a < b < |names| &&
      names[a] == FoldersOf(m, d, names)[i].name && names[b] == FoldersOf(m, d, names)[j].name)
  {
    var init := names[..|names| - 1];
    var n := names[|names| - 1];
    var fo := FoldersOf(m, d, init);
    if j < |fo| {
      FoldersInListingOrder(m, d, init, i, j);
      var a, b :| 0 <= a < b < |init| && init[a] == fo[i].name && init[b] == fo[j].name;
      assert names[a] == init[a] && names[b] == init[b];
    } else {
      assert FoldersOf(m, d, names)[i].name in init;
      var a :| 0 <= a < |init| && init[a] == FoldersOf(m, d, names)[i].name;
      assert names[a] == init[a];
      assert FoldersOf(m, d, names)[j].name == names[|names| - 1];
    }
  }
}
