/**
 * The view model of the file manager: the navigation path stack, the
 * directory listing, the filesystem operations and the pending
 * move/copy transfer. The host filesystem is a `FileSystem` object
 * passed to the operations that touch it.
 */
module ViewModel {
  import opened Wrappers
  import opened PathStrings
  import opened FileTree
  import opened Listing

  /**
   * The stack `setInternalPath(dir)` leaves: `dir` on top, pushed unless
   * it is already the top segment.
   */
  function Pushed(stack: seq<string>, dir: string): (r: seq<string>)
    ensures r == stack + [dir] || r == stack
    ensures r == stack <==> stack != [] && Last(stack) == dir
    ensures r != [] && Last(r) == dir
  {
    if stack == [] || Last(stack) != dir then stack + [dir] else stack
  }

  /** Entering the same directory twice in a row is entering it once. */
  lemma PushIdempotent(stack: seq<string>, dir: string)
    ensures Pushed(Pushed(stack, dir), dir) == Pushed(stack, dir)
  {
  }

  /**
   * The location `File(joinPath(parts...))` stands for: a path of proper
   * segments, the same as for the plain join (the "//" collapse does not
   * change it).
   */
  function Resolve(parts: seq<string>): (r: Path)
    ensures AllSegments(r)
    ensures r == Segments(Join(parts))
  {
    CollapseKeepsSegments(Join(parts));
    Segments(JoinPath(parts))
  }

  /** What `createTextNote` returns: the new note's path, `FILE_EXIST`, or the IOException it lets escape. */
  datatype NoteResult = NotePath(path: string) | FileExist | NoteIOError

  class AppViewModel {
    /** `getFilesDir()`: the sandbox root under the app's private storage. */
    const filesDir: string

    var internalPath: seq<string>
    var filesList: seq<FileItem>
    var folderList: seq<FolderItem>

    var moveFileFrom: Option<string>
    var moveFileTo: Option<string>

    constructor (filesDir: string)
      ensures this.filesDir == filesDir
      ensures internalPath == [] && filesList == [] && folderList == []
      ensures moveFileFrom == None && moveFileTo == None
    {
      this.filesDir := filesDir;
      internalPath := [];
      filesList := [];
      folderList := [];
      moveFileFrom := None;
      moveFileTo := None;
    }

    // -------------------------------------------------------------------
    // The navigation path stack
    // -------------------------------------------------------------------

    /**
     * `getInternalPath()`: the segments joined with the separator; the
     * root is "", and a path of proper segments reads back as itself.
     */
    function GetInternalPath(): (r: string)
      reads this
      ensures internalPath == [] ==> r == ""
      ensures |internalPath| == 1 ==> r == internalPath[0]
    {
      Join(internalPath)
    }

    /** A stack of proper segments reads back, as a path, as those segments in order. */
    lemma GetInternalPathSegments()
      requires AllSegments(internalPath)
      ensures Segments(GetInternalPath()) == internalPath
    {
      SegmentsOfJoin(internalPath);
    }

    /** `setInternalPath(dir)`: enter `dir` unless it is already the top. */
    method SetInternalPath(dir: string)
      modifies this`internalPath
      ensures internalPath == Pushed(old(internalPath), dir)
    {
      if internalPath == [] || Last(internalPath) != dir {
        internalPath := internalPath + [dir];
      }
    }

    /**
     * `setGetPreviousPath()`: leave the current directory and return its
     * segment. `last()` runs before the emptiness guard, so on an empty
     * stack it throws; the guard never sees an empty stack.
     */
    method SetGetPreviousPath() returns (lastPath: string)
      requires internalPath != []
      modifies this`internalPath
      ensures old(internalPath) == internalPath + [lastPath]
      ensures IsRootDirectory() <==> old(IsPreviousRootDirectory())
    {
      lastPath := Last(internalPath);
      if internalPath != [] {
        internalPath := internalPath[..|internalPath| - 1];
      }
    }

    /** `isRootDirectory()`: no segment on the stack, so the internal path is "". */
    function IsRootDirectory(): (r: bool)
      reads this
      ensures r <==> internalPath == []
      ensures r ==> GetInternalPath() == ""
    {
      |internalPath| == 0
    }

    /** `isPreviousRootDirectory()`: going up once reaches the root. */
    function IsPreviousRootDirectory(): (r: bool)
      reads this
      ensures r <==> |internalPath| == 1
      ensures r ==> GetInternalPath() == internalPath[0]
    {
      |internalPath| == 1
    }

    // -------------------------------------------------------------------
    // Creating directories and notes
    // -------------------------------------------------------------------

    /**
     * `createDir(internalPath, newDirName)`, its first argument called
     * `relPath` here: make the directory and any missing parents.
     */
    method CreateDir(fs: FileSystem, relPath: string, newDirName: string) returns (r: int)
      requires fs.Valid()
      modifies fs
      ensures fs.Valid()
      ensures r == 1
      ensures fs.nodes == MkdirsResult(old(fs.nodes), Resolve([filesDir, relPath, newDirName]))
    {
      var dir := Resolve([filesDir, relPath, newDirName]);
      if !fs.Exists(dir) {
        var _ := fs.Mkdirs(dir);
      }
      return 1;
    }

    /** `initRootDir()`: make the sandbox root and any missing parents. */
    method InitRootDir(fs: FileSystem) returns (r: int)
      requires fs.Valid()
      modifies fs
      ensures fs.Valid()
      ensures r == 1
      ensures fs.nodes == MkdirsResult(old(fs.nodes), Segments(filesDir))
    {
      var dir := Segments(filesDir);
      if !fs.Exists(dir) {
        var _ := fs.Mkdirs(dir);
      }
      return 1;
    }

    /**
     * `createTextNote(noteName)`: an empty file in the current directory;
     * its path when created, `FILE_EXIST` when the name is taken.
     */
    method CreateTextNote(fs: FileSystem, noteName: string, now: nat) returns (r: NoteResult)
      requires fs.Valid()
      modifies fs
      ensures fs.Valid()
      ensures var filePath := JoinPath([filesDir, GetInternalPath(), noteName]);
        var p := Segments(filePath);
        (r == FileExist <==> old(p in fs.nodes)) &&
        (r.NotePath? <==> old(p !in fs.nodes) && p != [] && old(IsDir(fs.nodes, p[..|p| - 1]))) &&
        (r.NotePath? ==> r.path == filePath && fs.nodes == old(fs.nodes)[p := File(0, now)]) &&
        (!r.NotePath? ==> fs.nodes == old(fs.nodes))
    {
      var filePath := JoinPath([filesDir, GetInternalPath(), noteName]);
      var p := Segments(filePath);
      var outcome := fs.CreateNewFile(p, now);
      match outcome {
        case Created => r := NotePath(filePath);
        case AlreadyExists => r := FileExist;
        case NoParent => r := NoteIOError;
      }
    }

    // -------------------------------------------------------------------
    // The listing
    // -------------------------------------------------------------------

    /**
     * `getContents(internalPath)`, its argument called `relPath` here:
     * clear both lists, then put each entry of the directory (in the
     * host's listing order, `listing`) into the folder list with its child
     * count or into the file list, and sort the file list. A location that
     * is not a directory lists as null, and `contents!!` throws after the
     * lists were cleared; `None` stands for that exception.
     */
    method GetContents(fs: FileSystem, relPath: string)
      returns (r: Option<(seq<FileItem>, seq<FolderItem>)>, ghost listing: seq<string>)
      requires fs.Valid()
      modifies this`filesList, this`folderList
      ensures var d := Resolve([filesDir, relPath]);
        (r.None? <==> !IsDir(fs.nodes, d)) &&
        (r.None? ==> filesList == [] && folderList == []) &&
        (r.Some? ==>
          Distinct(listing) && (set x | x in listing) == Children(fs.nodes, d) &&
          folderList == FoldersOf(fs.nodes, d, listing) &&
          filesList == SortFiles(FilesOf(fs.nodes, d, listing)) &&
          r.value == (filesList, folderList))
    {
      var d := Resolve([filesDir, relPath]);
      var contents := fs.ListFiles(d);
      filesList := [];
      folderList := [];
      if contents.None? {
        return None, [];
      }
      var names := contents.value;
      listing := names;
      var i := 0;
      while i < |names|
        invariant 0 <= i <= |names|
        invariant folderList == FoldersOf(fs.nodes, d, names[..i])
        invariant filesList == FilesOf(fs.nodes, d, names[..i])
      {
        var item := d + [names[i]];
        assert names[..i + 1][..i] == names[..i];
        if fs.IsDirectory(item) {
          var inside := fs.ListFiles(item);
          var fileCount := if inside.Some? then |inside.value| else 0;
          DistinctCard(inside.value);
          folderList := folderList + [FolderItem(names[i], fileCount)];
        } else {
          assert names[i] in Children(fs.nodes, d);
          ChildrenMembership(fs.nodes, d, names[i]);
          var node := fs.nodes[item];
          filesList := filesList + [FileItem(names[i], node.length, false, node.lastModified)];
        }
        i := i + 1;
      }
      assert names[..|names|] == names;
      filesList := SortFiles(filesList);
      r := Some((filesList, folderList));
    }

    // -------------------------------------------------------------------
    // Deleting
    // -------------------------------------------------------------------

    /**
     * `deleteDirectory(fileToDelete)`: delete each entry, recursing into
     * directories, then the directory itself; -1 when the location does
     * not list as a directory (`dirContents!!` throws), with nothing
     * deleted.
     */
    method DeleteDirectory(fs: FileSystem, d: Path) returns (r: int)
      requires fs.Valid()
      modifies fs
      ensures fs.Valid()
      ensures r == if old(IsDir(fs.nodes, d)) then 1 else -1
      ensures fs.nodes == if old(IsDir(fs.nodes, d)) then RemoveSubtree(old(fs.nodes), d) else old(fs.nodes)
      decreases |Subtree(fs.nodes, d)|
    {
      var dirContents := fs.ListFiles(d);
      if dirContents.None? {
        return -1;
      }
      var names := dirContents.value;
      ghost var before := fs.nodes;
      var i := 0;
      while i < |names|
        invariant 0 <= i <= |names|
        invariant fs.Valid()
        invariant fs.nodes == RemoveChildren(before, d, FirstElems(names, i))
      {
        var child := d + [names[i]];
        FirstElemsStep(names, i);
        DeleteChildStep(before, d, FirstElems(names, i), names[i]);
        if fs.IsDirectory(child) {
          var _ := DeleteDirectory(fs, child);
        } else {
          var _ := fs.Delete(child);
        }
        i := i + 1;
      }
      FirstElemsAll(names);
      AllChildrenRemoved(before, d);
      var _ := fs.Delete(d);
      return 1;
    }

    /**
     * `deleteFolder(folder, internalPath)`, its last argument called
     * `relPath` here: when the location exists, delete it recursively and
     * then delete it; whatever it was, the location and everything below
     * it are gone, and the status is 1.
     */
    method DeleteFolder(fs: FileSystem, folder: FolderItem, relPath: string) returns (r: int)
      requires fs.Valid()
      modifies fs
      ensures fs.Valid()
      ensures r == 1
      ensures fs.nodes == RemoveSubtree(old(fs.nodes), Resolve([filesDir, relPath, folder.name]))
      ensures old(Resolve([filesDir, relPath, folder.name]) !in fs.nodes) ==> fs.nodes == old(fs.nodes)
    {
      var p := Resolve([filesDir, relPath, folder.name]);
      if fs.Exists(p) {
        if fs.nodes[p].File? {
          LeafSubtree(fs.nodes, p);
        }
        var _ := DeleteDirectory(fs, p);
        var _ := fs.Delete(p);
      } else {
        LeafSubtree(fs.nodes, p);
      }
      return 1;
    }

    /**
     * `deleteFile(file, internalPath)`, its last argument called `relPath`
     * here: when the location exists, delete it recursively if the item
     * says it is a directory, then delete it. An item not marked as a
     * directory removes a file or an empty directory only. A missing
     * location is left alone. The status is 1.
     */
    method DeleteFile(fs: FileSystem, file: FileItem, relPath: string) returns (r: int)
      requires fs.Valid()
      modifies fs
      ensures fs.Valid()
      ensures r == 1
      ensures var p := Resolve([filesDir, relPath, file.name]);
        var removable := old(p in fs.nodes && (fs.nodes[p].File? || Children(fs.nodes, p) == {}));
        (old(p !in fs.nodes) ==> fs.nodes == old(fs.nodes)) &&
        (file.isDir ==> fs.nodes == RemoveSubtree(old(fs.nodes), p)) &&
        (!file.isDir ==> fs.nodes == if removable then old(fs.nodes) - {p} else old(fs.nodes))
    {
      var p := Resolve([filesDir, relPath, file.name]);
      if fs.Exists(p) {
        if file.isDir {
          if fs.nodes[p].File? {
            LeafSubtree(fs.nodes, p);
          }
          var _ := DeleteDirectory(fs, p);
        }
        var _ := fs.Delete(p);
      } else {
        LeafSubtree(fs.nodes, p);
      }
      return 1;
    }

    // -------------------------------------------------------------------
    // Collecting every file below a directory
    // -------------------------------------------------------------------

    /**
     * `recursiveDirectoryRead(path, filesArray)`: appends the path of
     * every file below `path`, each once.
     * `directoryContents!!` throws unless `path` is a directory.
     */
    method RecursiveDirectoryRead(fs: FileSystem, path: string, filesArray: seq<string>) returns (r: seq<string>)
      requires fs.Valid() && IsDir(fs.nodes, Segments(path))
      ensures |r| >= |filesArray| && r[..|filesArray|] == filesArray
      ensures SegmentSet(r[|filesArray|..]) == FilesUnder(fs.nodes, Segments(path))
      ensures |r| - |filesArray| == |FilesUnder(fs.nodes, Segments(path))|
      decreases |Subtree(fs.nodes, Segments(path))|
    {
      var d := Segments(path);
      var directoryContents := fs.ListFiles(d);
      var names := directoryContents.value;
      r := filesArray;
      var i := 0;
      while i < |names|
        invariant 0 <= i <= |names|
        invariant |r| >= |filesArray| && r[..|filesArray|] == filesArray
        invariant SegmentSet(r[|filesArray|..]) == FilesBelowChildren(fs.nodes, d, FirstElems(names, i))
        invariant |r| - |filesArray| == |FilesBelowChildren(fs.nodes, d, FirstElems(names, i))|
      {
        var name := names[i];
        FirstElemsStep(names, i);
        CollectChildStep(fs.nodes, d, FirstElems(names, i), name);
        var filePath := JoinPath([path, name]);
        ChildPath(path, name);
        ghost var prev := r;
        if fs.IsDirectory(Segments(filePath)) {
          r := RecursiveDirectoryRead(fs, filePath, r);
        } else {
          r := r + [filePath];
          assert r[|prev|..] == [filePath];
          SegmentSetSingle(filePath);
        }
        CollectedChild(fs.nodes, d, FirstElems(names, i), name, filesArray, prev, r);
        i := i + 1;
      }
      FirstElemsAll(names);
      FilesBelowAllChildren(fs.nodes, d);
    }

    // -------------------------------------------------------------------
    // The pending transfer
    // -------------------------------------------------------------------

    /**
     * `moveFile()`: move `moveFileFrom` to `moveFileTo`; 1 when both are
     * set and the host move succeeds, -1 otherwise. Either way the
     * pending transfer is cleared by the `finally` block.
     */
    method MoveFile(moved: bool) returns (r: int)
      modifies this`moveFileFrom, this`moveFileTo
      ensures moveFileFrom == None && moveFileTo == None
      ensures r == if old(moveFileFrom).Some? && old(moveFileTo).Some? && moved then 1 else -1
    {
      if moveFileFrom.None? || moveFileTo.None? || !moved {
        r := -1;
      } else {
        r := 1;
      }
      moveFileFrom := None;
      moveFileTo := None;
    }

    /**
     * `copyFile()`: copy the bytes of `moveFileFrom` into `moveFileTo`;
     * 1 when both are set and the host copy succeeds, -1 otherwise.
     * Either way the pending transfer is cleared by the `finally` block.
     */
    method CopyFile(copied: bool) returns (r: int)
      modifies this`moveFileFrom, this`moveFileTo
      ensures moveFileFrom == None && moveFileTo == None
      ensures r == 1 <==> old(moveFileFrom).Some? && old(moveFileTo).Some? && copied
      ensures r == 1 || r == -1
    {
      r := -1;
      if moveFileFrom.Some? && moveFileTo.Some? && copied {
        r := 1;
      }
      moveFileFrom := None;
      moveFileTo := None;
    }
  }

  /** The locations a list of path strings names. */
  function SegmentSet(ss: seq<string>): set<Path>
  {
    set s | s in ss :: Segments(s)
  }

  /** `joinPath(path, name)` for a proper segment `name` names the child `name` of `path`. */
  lemma ChildPath(path: string, name: string)
    requires IsSegment(name)
    ensures Segments(JoinPath([path, name])) == Segments(path) + [name]
  {
    JoinPathSegments2(path, name);
    assert Segments(name) == [name];
  }

  lemma SegmentSetSingle(s: string)
    ensures SegmentSet([s]) == {Segments(s)}
  {
    assert s in [s];
  }

  /**
   * One child collected: when `prev` holds the files below the children
   * in `done`, and `r` extends it by the files under child `c`, then `r`
   * holds the files below `done + {c}`.
   */
  lemma CollectedChild(m: Tree, d: Path, done: set<string>, c: string,
                       base: seq<string>, prev: seq<string>, r: seq<string>)
    requires |base| <= |prev| <= |r| && prev[..|base|] == base && r[..|prev|] == prev
    requires SegmentSet(prev[|base|..]) == FilesBelowChildren(m, d, done)
    requires |prev| - |base| == |FilesBelowChildren(m, d, done)|
    requires SegmentSet(r[|prev|..]) == FilesUnder(m, d + [c])
    requires |r| - |prev| == |FilesUnder(m, d + [c])|
    requires FilesBelowChildren(m, d, done + {c}) == FilesBelowChildren(m, d, done) + FilesUnder(m, d + [c])
    requires |FilesBelowChildren(m, d, done + {c})| == |FilesBelowChildren(m, d, done)| + |FilesUnder(m, d + [c])|
    ensures r[..|base|] == base
    ensures SegmentSet(r[|base|..]) == FilesBelowChildren(m, d, done + {c})
    ensures |r| - |base| == |FilesBelowChildren(m, d, done + {c})|
  {
    AppendedPaths(base, prev, r);
  }

  /**
   * Appending to a list that extends `base` keeps `base` in front, and the
   * locations added after `base` are those before plus the new ones.
   */
  lemma AppendedPaths(base: seq<string>, prev: seq<string>, r: seq<string>)
    requires |base| <= |prev| <= |r| && prev[..|base|] == base && r[..|prev|] == prev
    ensures r[..|base|] == base
    ensures SegmentSet(r[|base|..]) == SegmentSet(prev[|base|..]) + SegmentSet(r[|prev|..])
  {
    assert r[..|base|] == r[..|prev|][..|base|];
    assert r[|base|..] == prev[|base|..] + r[|prev|..];
  }
}
