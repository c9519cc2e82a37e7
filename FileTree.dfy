/**
 * The host filesystem as the view model sees it through `java.io.File`:
 * a finite map from absolute locations to what occupies them, and the
 * primitives the view model calls (`exists`, `isDirectory`,
 * `listFiles`, `delete`, `mkdirs`, `createNewFile`), each specified
 * by what it does to the map.
 */
module FileTree {
  import opened Wrappers
  import opened PathStrings

  /** A location: the segments of an absolute path, outermost first; [] is "/". */
  type Path = seq<string>

  /** What occupies a location. Size and timestamp take part in no logic. */
  datatype Node = File(length: nat, lastModified: nat) | Directory

  type Tree = map<Path, Node>

  /** `p` is `d` or lies below it. */
  predicate Under(p: Path, d: Path) {
    |d| <= |p| && p[..|d|] == d
  }

  /** `p` lies below the child of `d` named by one of `names`. */
  predicate BelowChild(p: Path, d: Path, names: set<string>) {
    |d| < |p| && p[..|d|] == d && p[|d|] in names
  }

  predicate IsDir(m: Tree, p: Path) {
    p in m && m[p].Directory?
  }

  /**
   * A tree the host can hold: every location other than "/" sits in a
   * directory, and every location is made of proper segments.
   */
  ghost predicate ValidTree(m: Tree) {
    (forall p {:trigger Located(m, p)} | Located(m, p) && p != [] :: IsDir(m, p[..|p| - 1])) &&
    (forall p | p in m :: AllSegments(p))
  }

  /**
   * `p` is a location of `m`. The tree invariant is stated over this
   * predicate rather than over `p in m`, so that knowing a parent is in
   * the tree does not by itself bring in the grandparent, and so on.
   */
  predicate Located(m: Tree, p: Path) {
    p in m
  }

  /** The parent of every location other than "/" is a directory. */
  lemma ParentIsDirectory(m: Tree, p: Path)
    requires ValidTree(m) && p in m && p != []
    ensures IsDir(m, p[..|p| - 1])
  {
    assert Located(m, p);
  }

  /** The names of the immediate children of `d`. */
  function Children(m: Tree, d: Path): set<string> {
    set p | p in m && |p| == |d| + 1 && p[..|d|] == d :: p[|d|]
  }

  /** Every location at or below `d`. */
  function Subtree(m: Tree, d: Path): set<Path> {
    set p | p in m && Under(p, d)
  }

  /** The tree without `d` and everything below it. */
  function RemoveSubtree(m: Tree, d: Path): (r: Tree)
    ensures forall p :: p in r <==> p in m && !Under(p, d)
    ensures forall p :: p in r ==> r[p] == m[p]
  {
    map p | p in m && !Under(p, d) :: m[p]
  }

  /** The tree without the subtrees of the children of `d` named in `names`. */
  function RemoveChildren(m: Tree, d: Path, names: set<string>): (r: Tree)
    ensures forall p :: p in r <==> p in m && !BelowChild(p, d, names)
    ensures forall p :: p in r ==> r[p] == m[p]
  {
    map p | p in m && !BelowChild(p, d, names) :: m[p]
  }

  /** Files at or below `d`. */
  function FilesUnder(m: Tree, d: Path): set<Path> {
    set p | p in m && Under(p, d) && m[p].File?
  }

  /** Files below the children of `d` named in `names`. */
  function FilesBelowChildren(m: Tree, d: Path, names: set<string>): set<Path> {
    set p | p in m && BelowChild(p, d, names) && m[p].File?
  }

  // ---------------------------------------------------------------------
  // Facts about trees
  // ---------------------------------------------------------------------

  lemma ChildrenMembership(m: Tree, d: Path, c: string)
    ensures c in Children(m, d) <==> d + [c] in m
  {
    var q := d + [c];
    assert q[..|d|] == d && q[|d|] == c;
    if c in Children(m, d) {
      var p :| p in m && |p| == |d| + 1 && p[..|d|] == d && p[|d|] == c;
      assert p == p[..|d|] + [p[|d|]];
    }
  }

  /** Every proper ancestor of a location in a valid tree is a directory in it. */
  lemma {:induction false} AncestorIsDirectory(m: Tree, q: Path, k: nat)
    requires ValidTree(m) && q in m && k < |q|
    ensures IsDir(m, q[..k])
    decreases |q| - k
  {
    var parent := q[..|q| - 1];
    ParentIsDirectory(m, q);
    if k < |q| - 1 {
      AncestorIsDirectory(m, parent, k);
      assert parent[..k] == q[..k];
    }
  }

  /** A file, or a location not in the tree, has nothing below it. */
  lemma LeafSubtree(m: Tree, f: Path)
    requires ValidTree(m)
    requires f !in m || m[f].File?
    ensures RemoveSubtree(m, f) == m - {f}
    ensures Children(m, f) == {}
  {
    forall p | p in m && Under(p, f) && p != f
      ensures false
    {
      AncestorIsDirectory(m, p, |f|);
    }
    var lhs := RemoveSubtree(m, f);
    var rhs := m - {f};
    assert f !in lhs by {
      assert f[..|f|] == f;
    }
    assert lhs.Keys == rhs.Keys;
    forall c | c in Children(m, f)
      ensures false
    {
      ChildrenMembership(m, f, c);
      assert (f + [c])[..|f|] == f;
      AncestorIsDirectory(m, f + [c], |f|);
    }
  }

  /** Removing a subtree keeps the tree valid. */
  lemma RemoveSubtreeValid(m: Tree, d: Path)
    requires ValidTree(m)
    ensures ValidTree(RemoveSubtree(m, d))
  {
    var r := RemoveSubtree(m, d);
    forall p | Located(r, p) && p != []
      ensures IsDir(r, p[..|p| - 1])
    {
      var parent := p[..|p| - 1];
      ParentIsDirectory(m, p);
      assert |d| <= |parent| ==> p[..|d|] == parent[..|d|];
    }
  }

  /** The locations below the child `c` of `d` are those below `d` whose next segment is `c`. */
  lemma UnderChild(p: Path, d: Path, c: string)
    ensures Under(p, d + [c]) <==> |d| < |p| && p[..|d|] == d && p[|d|] == c
  {
    if Under(p, d + [c]) {
      assert p[..|d|] == (d + [c])[..|d|];
      assert p[|d|] == (d + [c])[|d|];
    }
    if |d| < |p| && p[..|d|] == d && p[|d|] == c {
      assert p[..|d| + 1] == d + [c];
    }
  }

  /** Removing the subtree of one more child of `d` extends the removed set of children. */
  lemma RemoveOneMoreChild(m: Tree, d: Path, names: set<string>, c: string)
    ensures RemoveSubtree(RemoveChildren(m, d, names), d + [c]) == RemoveChildren(m, d, names + {c})
  {
    var a := RemoveSubtree(RemoveChildren(m, d, names), d + [c]);
    var b := RemoveChildren(m, d, names + {c});
    forall p
      ensures p in a <==> p in b
    {
      UnderChild(p, d, c);
    }
    assert a.Keys == b.Keys;
  }

  /**
   * Once the subtrees of all children of a directory are gone, the
   * directory has no children, and removing it too removes the whole
   * subtree.
   */
  lemma AllChildrenRemoved(m: Tree, d: Path)
    requires ValidTree(m) && IsDir(m, d)
    ensures Children(RemoveChildren(m, d, Children(m, d)), d) == {}
    ensures RemoveChildren(m, d, Children(m, d)) - {d} == RemoveSubtree(m, d)
  {
    var names := Children(m, d);
    var r := RemoveChildren(m, d, names);
    forall p | p in m && Under(p, d) && p != d
      ensures BelowChild(p, d, names)
    {
      StrictlyBelowIsBelowChild(m, d, p);
    }
    forall c | c in Children(r, d)
      ensures false
    {
      ChildrenMembership(r, d, c);
      ChildIsBelowChild(d, c, names);
    }
    var lhs := r - {d};
    var rhs := RemoveSubtree(m, d);
    forall p
      ensures p in lhs <==> p in rhs
    {
    }
    assert lhs.Keys == rhs.Keys;
  }

  /** A location strictly below a directory lies below one of its children. */
  lemma StrictlyBelowIsBelowChild(m: Tree, d: Path, p: Path)
    requires ValidTree(m) && p in m && Under(p, d) && p != d
    ensures BelowChild(p, d, Children(m, d))
  {
    var q := p[..|d| + 1];
    if |d| + 1 < |p| {
      AncestorIsDirectory(m, p, |d| + 1);
    } else {
      assert q == p;
    }
    assert q[..|d|] == d;
    assert q == d + [p[|d|]];
    ChildrenMembership(m, d, p[|d|]);
  }

  lemma ChildIsBelowChild(d: Path, c: string, names: set<string>)
    requires c in names
    ensures BelowChild(d + [c], d, names)
  {
    assert (d + [c])[..|d|] == d && (d + [c])[|d|] == c;
  }

  lemma ProperSubsetSmaller<T>(a: set<T>, b: set<T>)
    requires a < b
    ensures |a| < |b|
  {
    var x :| x in b && x !in a;
    assert a <= b - {x};
    assert |b - {x}| == |b| - 1;
    SubsetNoLarger(a, b - {x});
  }

  lemma {:induction false} SubsetNoLarger<T>(a: set<T>, b: set<T>)
    requires a <= b
    ensures |a| <= |b|
    decreases |b|
  {
    if a != {} {
      var x :| x in a;
      SubsetNoLarger(a - {x}, b - {x});
    }
  }

  /**
   * The subtree of a child, in a tree that has only lost locations, is
   * smaller than the subtree of its parent: recursion into children ends.
   */
  lemma ChildSubtreeSmaller(now: Tree, before: Tree, d: Path, c: string)
    requires now.Keys <= before.Keys && d in before
    ensures |Subtree(now, d + [c])| < |Subtree(before, d)|
  {
    forall p | p in Subtree(now, d + [c])
      ensures p in Subtree(before, d)
    {
      assert p[..|d|] == (d + [c])[..|d|];
    }
    assert d in Subtree(before, d);
    assert d !in Subtree(now, d + [c]);
    ProperSubsetSmaller(Subtree(now, d + [c]), Subtree(before, d));
  }

  /** The files below a directory are the files below its children. */
  lemma FilesBelowAllChildren(m: Tree, d: Path)
    requires ValidTree(m) && IsDir(m, d)
    ensures FilesBelowChildren(m, d, Children(m, d)) == FilesUnder(m, d)
  {
    forall p | p in FilesUnder(m, d)
      ensures p in FilesBelowChildren(m, d, Children(m, d))
    {
      StrictlyBelowIsBelowChild(m, d, p);
    }
  }

  /** The files below one more child add the files of that child's subtree. */
  lemma FilesBelowOneMoreChild(m: Tree, d: Path, names: set<string>, c: string)
    requires c !in names
    ensures FilesBelowChildren(m, d, names + {c}) == FilesBelowChildren(m, d, names) + FilesUnder(m, d + [c])
    ensures FilesBelowChildren(m, d, names) !! FilesUnder(m, d + [c])
  {
    forall p
      ensures p in FilesBelowChildren(m, d, names + {c}) <==>
              p in FilesBelowChildren(m, d, names) || p in FilesUnder(m, d + [c])
      ensures !(p in FilesBelowChildren(m, d, names) && p in FilesUnder(m, d + [c]))
    {
      UnderChild(p, d, c);
    }
  }

  /**
   * One step of emptying `d`: with the children in `done` already removed,
   * the child `c` is still there, its subtree is smaller than that of `d`,
   * it is a file unless it is a directory, and removing its subtree
   * removes one more child.
   */
  lemma DeleteChildStep(before: Tree, d: Path, done: set<string>, c: string)
    requires ValidTree(RemoveChildren(before, d, done)) && d in before
    requires c in Children(before, d) && c !in done
    ensures var now := RemoveChildren(before, d, done);
      d + [c] in now &&
      |Subtree(now, d + [c])| < |Subtree(before, d)| &&
      (!IsDir(now, d + [c]) ==> now[d + [c]].File? && RemoveSubtree(now, d + [c]) == now - {d + [c]}) &&
      RemoveSubtree(now, d + [c]) == RemoveChildren(before, d, done + {c})
  {
    var now := RemoveChildren(before, d, done);
    var child := d + [c];
    ChildrenMembership(before, d, c);
    assert child[..|d|] == d && child[|d|] == c;
    assert child in now;
    ChildSubtreeSmaller(now, before, d, c);
    if !IsDir(now, child) {
      LeafSubtree(now, child);
    }
    RemoveOneMoreChild(before, d, done, c);
  }

  /**
   * One step of collecting the files below `d`: the child `c` is a proper
   * segment with a smaller subtree, a file is the only file below itself,
   * and its files join those of the children already visited.
   */
  lemma CollectChildStep(m: Tree, d: Path, done: set<string>, c: string)
    requires ValidTree(m) && d in m
    requires c in Children(m, d) && c !in done
    ensures d + [c] in m && IsSegment(c)
    ensures |Subtree(m, d + [c])| < |Subtree(m, d)|
    ensures !IsDir(m, d + [c]) ==> FilesUnder(m, d + [c]) == {d + [c]}
    ensures FilesBelowChildren(m, d, done + {c}) == FilesBelowChildren(m, d, done) + FilesUnder(m, d + [c])
    ensures |FilesBelowChildren(m, d, done + {c})| == |FilesBelowChildren(m, d, done)| + |FilesUnder(m, d + [c])|
  {
    var child := d + [c];
    ChildrenMembership(m, d, c);
    assert child[|d|] == c;
    assert AllSegments(child);
    ChildSubtreeSmaller(m, m, d, c);
    if !IsDir(m, child) {
      FileSubtreeIsItself(m, child);
    }
    FilesBelowOneMoreChild(m, d, done, c);
  }

  // ---------------------------------------------------------------------
  // mkdirs
  // ---------------------------------------------------------------------

  /** `p` and all of its ancestors. */
  function Prefixes(p: Path): set<Path> {
    set i | 0 <= i <= |p| :: p[..i]
  }

  /** Some proper ancestor of `p` is a file, so no directory can be made at `p`. */
  predicate BlockedByFile(m: Tree, p: Path) {
    exists i | 0 <= i < |p| :: p[..i] in m && m[p[..i]].File?
  }

  /**
   * What `File.mkdirs()` leaves behind. An existing location leaves the
   * tree as it is; a missing one becomes a directory exactly when no
   * ancestor is a file. Nothing that was there changes, and everything
   * added is a directory on the way to `p`.
   */
  function MkdirsResult(m: Tree, p: Path): (r: Tree)
    ensures p in m ==> r == m
    ensures p !in m ==> (IsDir(r, p) <==> !BlockedByFile(m, p))
    ensures forall q :: q in m ==> q in r && r[q] == m[q]
    ensures forall q :: q in r && q !in m ==> q in Prefixes(p) && r[q] == Directory
  {
    assert p[..|p|] == p;
    assert p in Prefixes(p);
    if p in m || BlockedByFile(m, p) then m
    else m + map q | q in Prefixes(p) && q !in m :: Directory
  }

  /** `mkdirs` keeps a valid tree valid. */
  lemma MkdirsValid(m: Tree, p: Path)
    requires ValidTree(m) && AllSegments(p)
    ensures ValidTree(MkdirsResult(m, p))
  {
    var r := MkdirsResult(m, p);
    if r != m {
      forall q | Located(r, q) && q != []
        ensures IsDir(r, q[..|q| - 1])
      {
        if q in m {
          ParentIsDirectory(m, q);
        } else {
          var i :| 0 <= i <= |p| && q == p[..i];
          assert i > 0;
          var parent := p[..i - 1];
          assert q[..|q| - 1] == parent;
          assert parent in Prefixes(p);
          if parent in m {
            assert !(parent in m && m[parent].File?);
          }
        }
      }
      forall q | q in r
        ensures AllSegments(q)
      {
        if q !in m {
          var i :| 0 <= i <= |p| && q == p[..i];
          assert forall k :: 0 <= k < |q| ==> q[k] == p[k];
        }
      }
    }
  }

  /** Asking for the same directory twice is the same as asking once. */
  lemma MkdirsIdempotent(m: Tree, p: Path)
    ensures MkdirsResult(MkdirsResult(m, p), p) == MkdirsResult(m, p)
  {
  }

  // ---------------------------------------------------------------------
  // The host filesystem object
  // ---------------------------------------------------------------------

  predicate Distinct<T(==)>(xs: seq<T>) {
    forall i, j :: 0 <= i < j < |xs| ==> xs[i] != xs[j]
  }

  /** A sequence without repetitions has as many elements as its set. */
  lemma {:induction false} DistinctCard<T>(xs: seq<T>)
    requires Distinct(xs)
    ensures |set x | x in xs| == |xs|
  {
    if xs != [] {
      var init := xs[..|xs| - 1];
      DistinctCard(init);
      assert (set x | x in xs) == (set x | x in init) + {xs[|xs| - 1]} by {
        assert xs == init + [xs[|xs| - 1]];
      }
      assert xs[|xs| - 1] !in (set x | x in init);
    }
  }

  /** The elements among the first `i` entries of `xs`. */
  function FirstElems<T>(xs: seq<T>, i: nat): set<T>
    requires i <= |xs|
  {
    set x | x in xs[..i]
  }

  lemma FirstElemsStep<T>(xs: seq<T>, i: nat)
    requires i < |xs|
    ensures FirstElems(xs, i + 1) == FirstElems(xs, i) + {xs[i]}
    ensures Distinct(xs) ==> xs[i] !in FirstElems(xs, i)
    ensures xs[i] in set x | x in xs
  {
    assert xs[..i + 1] == xs[..i] + [xs[i]];
  }

  lemma FirstElemsAll<T>(xs: seq<T>)
    ensures FirstElems(xs, |xs|) == set x | x in xs
  {
    assert xs[..|xs|] == xs;
  }

  /** The only file at or below a file is the file itself. */
  lemma FileSubtreeIsItself(m: Tree, f: Path)
    requires ValidTree(m) && f in m && m[f].File?
    ensures FilesUnder(m, f) == {f}
  {
    LeafSubtree(m, f);
    assert f[..|f|] == f;
    forall p | p in FilesUnder(m, f)
      ensures p == f
    {
      assert p !in RemoveSubtree(m, f);
    }
  }

  /** Outcome of `File.createNewFile()`; `NoParent` is the IOException it raises. */
  datatype CreateOutcome = Created | AlreadyExists | NoParent

  class FileSystem {
    var nodes: Tree

    ghost predicate Valid()
      reads this
    {
      ValidTree(nodes)
    }

    constructor (initial: Tree)
      requires ValidTree(initial)
      ensures Valid() && nodes == initial
    {
      nodes := initial;
    }

    /**
     * `File.exists()`: `p` is a location of the tree; in a valid tree
     * every existing location other than "/" sits in a directory.
     */
    function Exists(p: Path): (r: bool)
      reads this
      ensures r <==> p in nodes
      ensures Valid() && r && p != [] ==> IsDir(nodes, p[..|p| - 1])
    {
      Located(nodes, p)
    }

    /**
     * `File.isDirectory()`: only an existing location is a directory, and
     * an existing location that is not one is a file.
     */
    function IsDirectory(p: Path): (r: bool)
      reads this
      ensures r ==> Exists(p)
      ensures Exists(p) && !r ==> nodes[p].File?
    {
      IsDir(nodes, p)
    }

    /**
     * `File.listFiles()`: null unless `p` is a directory, otherwise the
     * names of its children, each once, in an order the host chooses.
     */
    method ListFiles(p: Path) returns (r: Option<seq<string>>)
      ensures r.None? <==> !IsDir(nodes, p)
      ensures r.Some? ==> Distinct(r.value) && (set x | x in r.value) == Children(nodes, p)
    {
      if !IsDir(nodes, p) {
        return None;
      }
      var rest := Children(nodes, p);
      var out: seq<string> := [];
      while rest != {}
        invariant Distinct(out)
        invariant (set x | x in out) + rest == Children(nodes, p)
        invariant forall x :: x in out ==> x !in rest
        decreases |rest|
      {
        var c :| c in rest;
        out := out + [c];
        rest := rest - {c};
      }
      return Some(out);
    }

    /**
     * `File.delete()`: removes a file or an empty directory and reports
     * whether it did; anything else is left alone.
     */
    method Delete(p: Path) returns (deleted: bool)
      requires Valid()
      modifies this
      ensures Valid()
      ensures deleted <==> old(p in nodes && (nodes[p].File? || Children(nodes, p) == {}))
      ensures nodes == if deleted then old(nodes) - {p} else old(nodes)
    {
      deleted := p in nodes && (nodes[p].File? || Children(nodes, p) == {});
      if deleted {
        ghost var m := nodes - {p};
        forall q | Located(m, q) && q != []
          ensures IsDir(m, q[..|q| - 1])
        {
          ParentIsDirectory(nodes, q);
          if q[..|q| - 1] == p {
            if nodes[p].File? {
              LeafSubtree(nodes, p);
            }
            assert q == p + [q[|p|]];
            ChildrenMembership(nodes, p, q[|p|]);
            assert false;
          }
        }
        nodes := nodes - {p};
      }
    }

    /** `File.mkdirs()`: true when it made the directory `p`. */
    method Mkdirs(p: Path) returns (made: bool)
      requires Valid() && AllSegments(p)
      modifies this
      ensures Valid()
      ensures nodes == MkdirsResult(old(nodes), p)
      ensures made <==> old(p !in nodes) && !BlockedByFile(old(nodes), p)
    {
      MkdirsValid(nodes, p);
      made := p !in nodes && !BlockedByFile(nodes, p);
      nodes := MkdirsResult(nodes, p);
    }

    /**
     * `File.createNewFile()`: makes an empty file when nothing is at `p`
     * and its parent is a directory; reports an existing location; raises
     * an IOException when there is no parent directory.
     */
    method CreateNewFile(p: Path, now: nat) returns (r: CreateOutcome)
      requires Valid() && AllSegments(p)
      modifies this
      ensures Valid()
      ensures r == AlreadyExists <==> old(p in nodes)
      ensures r == Created <==> old(p !in nodes) && p != [] && old(IsDir(nodes, p[..|p| - 1]))
      ensures nodes == if r == Created then old(nodes)[p := File(0, now)] else old(nodes)
    {
      if p in nodes {
        r := AlreadyExists;
      } else if p != [] && IsDir(nodes, p[..|p| - 1]) {
        ghost var m := nodes[p := File(0, now)];
        forall q | Located(m, q) && q != []
          ensures IsDir(m, q[..|q| - 1])
        {
          if q != p {
            ParentIsDirectory(nodes, q);
          }
        }
        nodes := nodes[p := File(0, now)];
        r := Created;
      } else {
        r := NoParent;
      }
    }
  }
}
