# SafeSpace file manager view model, in Dafny

SafeSpace is an Android file manager that works inside the app's private storage. Its
`AppViewModel` class holds three things:

- the navigation path stack: the directories entered below the sandbox root;
- the current listing: a folder list and a sorted file list;
- a pending move or copy: a source path and a target path.

It also performs the filesystem operations behind the screens: create, list, delete,
collect and transfer.

This project models that class and proves properties of the model. The model has five
modules:

- `Wrappers`: the `Option` type.
- `PathStrings`: the string side.
  - `Join` is `joinToString("/")`. `Collapse` is `replace("//", "/")`, which rewrites
    non-overlapping pairs from left to right. `JoinPath` is `joinPath`.
  - `Split` is Kotlin's `split` with a one-character literal delimiter.
  - `Segments` is the way `java.io.File` reads a path string: split at `/`, then drop the
    empty pieces.
  - `Extension` and `RenameTarget` are the new-name rule of `renameFile`.
- `FileTree`: the host filesystem.
  - A tree is a map from locations to nodes. A location is a sequence of segments. A node
    is a file, with its length and timestamp, or a directory.
  - `ValidTree` is the invariant: every location has a directory as its parent, and every
    segment is proper.
  - The class `FileSystem` holds the map and the `java.io.File` primitives the view model
    calls: `exists`, `isDirectory`, `listFiles`, `delete`, `mkdirs` and `createNewFile`.
    Each is specified by a function of the map.
  - `listFiles` returns the children in an order the host chooses. Its contract fixes only
    the set of names, without repeats.
- `Listing`: `FileItem` and `FolderItem`, and the split of a directory's entries into the
  two lists.
  - The comparator of `sortWith` puts directories first, then orders by name with
    `String.compareTo`.
  - `SortFiles` is a stable sort under that comparator.
- `ViewModel`: the class `AppViewModel`.
  - Its fields are `internalPath`, `filesList`, `folderList`, `moveFileFrom` and
    `moveFileTo`.
  - `getFilesDir()` is the constant `filesDir`, fixed when the object is made.
  - The filesystem is a `FileSystem` object passed to each operation that touches it.

Error paths follow the code.

- **`setGetPreviousPath`.** It calls `last()` before its emptiness guard, so on an empty
  stack it throws. The guard on the next line can never be false. The method therefore
  requires a non-empty stack.
- **`getContents`.**
  - It clears both lists before `contents!!`.
  - When the location is not a directory, it throws with the lists already empty. The model
    returns `None` in that case and leaves both lists empty.
- **`deleteDirectory`.** A location that does not list as a directory makes `dirContents!!`
  throw. The exception is caught, so the result is -1 and nothing is deleted.
- **`deleteFile` and `deleteFolder`.** A file marked as a directory reaches
  `deleteDirectory`, which returns -1. The final `delete()` then removes the file.
- **`recursiveDirectoryRead`.** It does not catch the exception from
  `directoryContents!!`. The method therefore requires a directory.
- **`createTextNote`.** `createNewFile` throws an IOException when the parent is missing or
  is not a directory. `createTextNote` does not catch it, so the model has a third outcome,
  `NoteIOError`.

## Model

| member | source | states |
|---|---|---|
| ViewModel.AppViewModel.constructor | app/src/main/java/org/android/safespace/viewmodel/AppViewModel.kt:27-32 | a new view model has an empty stack, empty lists and no pending transfer, with `filesDir` as its root |
| ViewModel.AppViewModel.GetInternalPath | app/src/main/java/org/android/safespace/viewmodel/AppViewModel.kt:39-41 | the root reads as ""; a single segment reads as itself |
| ViewModel.AppViewModel.GetInternalPathSegments | app/src/main/java/org/android/safespace/viewmodel/AppViewModel.kt:39-41 | a stack of proper segments reads back, parsed as a path, as the same segments in order |
| ViewModel.Pushed | app/src/main/java/org/android/safespace/viewmodel/AppViewModel.kt:43-47 | the stack after entering `dir` has `dir` on top; it is `dir` appended to the old stack, or the old stack exactly when its top already was `dir` |
| ViewModel.PushIdempotent | app/src/main/java/org/android/safespace/viewmodel/AppViewModel.kt:43-47 | entering the same directory twice in a row leaves the stack of entering it once |
| ViewModel.AppViewModel.SetInternalPath | app/src/main/java/org/android/safespace/viewmodel/AppViewModel.kt:43-47 | the new stack is the pushed stack |
| ViewModel.AppViewModel.SetGetPreviousPath | app/src/main/java/org/android/safespace/viewmodel/AppViewModel.kt:49-53 | on a non-empty stack, returns the old top and leaves exactly the old prefix; afterwards the stack is at the root exactly when it was one level below it |
| ViewModel.AppViewModel.IsRootDirectory | app/src/main/java/org/android/safespace/viewmodel/AppViewModel.kt:55-57 | true exactly when the stack is empty, and then the internal path is "" |
| ViewModel.AppViewModel.IsPreviousRootDirectory | app/src/main/java/org/android/safespace/viewmodel/AppViewModel.kt:377-382 | true exactly when the stack holds one segment, and then the internal path is that segment |
| PathStrings.Join | app/src/main/java/org/android/safespace/viewmodel/AppViewModel.kt:40 | no parts join to ""; otherwise the result starts with the first part, followed by a separator when more parts follow |
| PathStrings.SplitOfJoin | app/src/main/java/org/android/safespace/viewmodel/AppViewModel.kt:40 | splitting the join of separator-free parts at the separator gives the parts back |
| PathStrings.JoinPath | app/src/main/java/org/android/safespace/viewmodel/AppViewModel.kt:59-63 | the result is never longer than the plain separator join of the parts |
| PathStrings.Collapse | app/src/main/java/org/android/safespace/viewmodel/AppViewModel.kt:61 | the `replace("//", "/")` never lengthens a string, and shortens one that starts with "//" |
| PathStrings.JoinPathOfSegments | app/src/main/java/org/android/safespace/viewmodel/AppViewModel.kt:59-63 | when every part is non-empty and holds no separator, joinPath is the plain join |
| PathStrings.EmptyMiddlePart | app/src/main/java/org/android/safespace/viewmodel/AppViewModel.kt:59-63 | joinPath("a", "", "b") is "a/b" for separator-free a and b |
| PathStrings.CollapseSkipsPlainPrefix | app/src/main/java/org/android/safespace/viewmodel/AppViewModel.kt:61 | a prefix without separators passes through the collapse unchanged |
| PathStrings.CollapseKeepsSegments | app/src/main/java/org/android/safespace/viewmodel/AppViewModel.kt:61 | the collapse never changes which location a path string names |
| PathStrings.JoinPathSegments2 | app/src/main/java/org/android/safespace/viewmodel/AppViewModel.kt:365 | joinPath(a, b) names the location of a followed by that of b |
| PathStrings.JoinPathSegments3 | app/src/main/java/org/android/safespace/viewmodel/AppViewModel.kt:115 | joinPath(a, b, c) names the location of a, then of b, then of c |
| PathStrings.Segments | app/src/main/java/org/android/safespace/viewmodel/AppViewModel.kt:117 | the location `File(path)` stands for is a list of proper segments, and a proper segment names itself |
| ViewModel.Resolve | app/src/main/java/org/android/safespace/viewmodel/AppViewModel.kt:115-117 | the location of `File(joinPath(...))` is a list of proper segments, the same as for the plain join without the "//" collapse |
| PathStrings.SegmentsOfJoin | app/src/main/java/org/android/safespace/viewmodel/AppViewModel.kt:40 | joining proper segments with the separator and parsing the result gives the same segments |
| PathStrings.Split | app/src/main/java/org/android/safespace/viewmodel/AppViewModel.kt:195 | the literal split never gives an empty list, not even for the empty string |
| PathStrings.JoinOfSplit | app/src/main/java/org/android/safespace/viewmodel/AppViewModel.kt:195 | joining the pieces of a split on the separator gives the string back |
| PathStrings.SplitAtDelimiter | app/src/main/java/org/android/safespace/viewmodel/AppViewModel.kt:195 | splitting at one occurrence of the delimiter splits the two sides independently |
| PathStrings.LastPieceIsSuffix | app/src/main/java/org/android/safespace/viewmodel/AppViewModel.kt:195 | the last piece of a split is a suffix of the string without the delimiter, preceded by the delimiter when the string holds one |
| PathStrings.Extension | app/src/main/java/org/android/safespace/viewmodel/AppViewModel.kt:195 | `split(".").last()` holds no '.', is a suffix of the name, is preceded by a '.' when the name holds one, and is the whole name otherwise |
| PathStrings.RenameTarget | app/src/main/java/org/android/safespace/viewmodel/AppViewModel.kt:194-198 | a name without '.' is replaced by the new name; a name with '.' becomes the new name, a '.', and the text after the old name's last '.' |
| PathStrings.RenameKeepsExtension | app/src/main/java/org/android/safespace/viewmodel/AppViewModel.kt:194-198 | "stem.ext" renamed to n becomes "n.ext" |
| FileTree.FileSystem.Exists | app/src/main/java/org/android/safespace/viewmodel/AppViewModel.kt:119 | `exists()` holds exactly for a location of the tree, and in a valid tree such a location other than "/" sits in a directory |
| FileTree.FileSystem.IsDirectory | app/src/main/java/org/android/safespace/viewmodel/AppViewModel.kt:159 | `isDirectory` holds only for an existing location, and an existing location that is not a directory is a file |
| FileTree.FileSystem.ListFiles | app/src/main/java/org/android/safespace/viewmodel/AppViewModel.kt:153 | `listFiles()` gives null exactly for a location that is not a directory, and otherwise the names of its children, each once |
| FileTree.FileSystem.Delete | app/src/main/java/org/android/safespace/viewmodel/AppViewModel.kt:217 | `delete()` removes the location exactly when it is a file or an empty directory, keeps the tree valid, and changes nothing else |
| FileTree.FileSystem.Mkdirs | app/src/main/java/org/android/safespace/viewmodel/AppViewModel.kt:120 | `mkdirs()` adds the location and its missing ancestors as directories unless it exists or a file is in the way, and reports whether it made it |
| FileTree.FileSystem.CreateNewFile | app/src/main/java/org/android/safespace/viewmodel/AppViewModel.kt:313 | `createNewFile()` adds an empty file when nothing is there and the parent is a directory, reports an existing location, and raises otherwise |
| FileTree.MkdirsResult | app/src/main/java/org/android/safespace/viewmodel/AppViewModel.kt:120 | a location already there leaves the tree unchanged; otherwise mkdirs makes it a directory exactly when no file is in the way; no existing location changes, and every added location is a directory on the way to it |
| FileTree.MkdirsValid | app/src/main/java/org/android/safespace/viewmodel/AppViewModel.kt:119-121 | mkdirs keeps the tree valid |
| FileTree.MkdirsIdempotent | app/src/main/java/org/android/safespace/viewmodel/AppViewModel.kt:119-121 | creating the same directory twice is creating it once |
| ViewModel.AppViewModel.CreateDir | app/src/main/java/org/android/safespace/viewmodel/AppViewModel.kt:112-129 | the tree after createDir is mkdirs of the joined location, and the status is 1 |
| ViewModel.AppViewModel.InitRootDir | app/src/main/java/org/android/safespace/viewmodel/AppViewModel.kt:131-147 | the tree after initRootDir is mkdirs of the sandbox root, and the status is 1 |
| ViewModel.AppViewModel.CreateTextNote | app/src/main/java/org/android/safespace/viewmodel/AppViewModel.kt:308-321 | `FILE_EXIST` exactly when the location was taken; the path exactly when it was free with a directory as parent, and then an empty file is there; otherwise the IOException, and in both of these cases the tree is unchanged |
| ViewModel.AppViewModel.GetContents | app/src/main/java/org/android/safespace/viewmodel/AppViewModel.kt:149-185 | `None` stands for the exception `contents!!` throws for a non-directory, after both lists were cleared; otherwise, for the host listing (each child once), the folder list is the directories in listing order with their child counts, the file list is the other entries sorted, and the pair returned is the two lists |
| Listing.FoldersOf | app/src/main/java/org/android/safespace/viewmodel/AppViewModel.kt:159-165 | every folder item is a listed directory with its number of immediate children |
| Listing.FilesOf | app/src/main/java/org/android/safespace/viewmodel/AppViewModel.kt:167-177 | every file item is a listed file, with `isDir` false and that file's length and timestamp |
| Listing.ListingPartition | app/src/main/java/org/android/safespace/viewmodel/AppViewModel.kt:158-178 | every listed entry lands in exactly one of the two lists: the folder names and file names together are the listed names, each as often |
| Listing.PartitionStep | app/src/main/java/org/android/safespace/viewmodel/AppViewModel.kt:159-177 | one more entry adds its name to exactly one of the two lists |
| Listing.FoldersInListingOrder | app/src/main/java/org/android/safespace/viewmodel/AppViewModel.kt:158-165 | folder items appear in the order of the listing |
| Listing.SortFiles | app/src/main/java/org/android/safespace/viewmodel/AppViewModel.kt:181 | the sorted file list holds exactly the entries it was given, each as often, ordered directories first, then by name |
| Listing.Insert | app/src/main/java/org/android/safespace/viewmodel/AppViewModel.kt:181 | inserting adds one copy of the entry and changes nothing else in the multiset |
| Listing.SortedFilesByName | app/src/main/java/org/android/safespace/viewmodel/AppViewModel.kt:173-181 | with no directory among them, which always holds for the file list, the order is by name alone, strictly ascending for distinct names |
| Listing.InsertSorted | app/src/main/java/org/android/safespace/viewmodel/AppViewModel.kt:181 | inserting into a sorted list keeps it sorted |
| Listing.ItemLe | app/src/main/java/org/android/safespace/viewmodel/AppViewModel.kt:181 | of a directory and a file the directory comes first; two entries of the same kind are ordered by name, so equal names are ordered both ways |
| Listing.NameLe | app/src/main/java/org/android/safespace/viewmodel/AppViewModel.kt:181 | `compareTo(...) <= 0` holds of a name and itself |
| Listing.NameLePrefix | app/src/main/java/org/android/safespace/viewmodel/AppViewModel.kt:181 | `compareTo(...) <= 0` holds whenever the first name is a prefix of the second |
| Listing.NameLeTotal | app/src/main/java/org/android/safespace/viewmodel/AppViewModel.kt:181 | the name order compares any two names |
| Listing.NameLeTransitive | app/src/main/java/org/android/safespace/viewmodel/AppViewModel.kt:181 | the name order is transitive |
| Listing.NameLeAntisymmetric | app/src/main/java/org/android/safespace/viewmodel/AppViewModel.kt:181 | two names ordered both ways are equal |
| Listing.ExampleOrder | app/src/main/java/org/android/safespace/viewmodel/AppViewModel.kt:181 | "b.txt", "a.txt", "A.txt" sort as "A.txt", "a.txt", "b.txt" |
| ViewModel.AppViewModel.DeleteDirectory | app/src/main/java/org/android/safespace/viewmodel/AppViewModel.kt:245-261 | on a directory, removes it and every location below it, leaves everything else unchanged, and returns 1; on anything else changes nothing and returns -1 |
| FileTree.DeleteChildStep | app/src/main/java/org/android/safespace/viewmodel/AppViewModel.kt:248-254 | one loop step: the child is still present, its subtree is smaller, it is a file unless it is a directory, and removing its subtree removes one more child |
| FileTree.RemoveOneMoreChild | app/src/main/java/org/android/safespace/viewmodel/AppViewModel.kt:248-254 | removing one more child's subtree extends the removal of the children already deleted |
| FileTree.AllChildrenRemoved | app/src/main/java/org/android/safespace/viewmodel/AppViewModel.kt:248-255 | once every child is removed the directory is empty, and removing it then removes the whole subtree |
| FileTree.RemoveSubtreeValid | app/src/main/java/org/android/safespace/viewmodel/AppViewModel.kt:245-261 | removing a subtree keeps the tree valid |
| FileTree.LeafSubtree | app/src/main/java/org/android/safespace/viewmodel/AppViewModel.kt:252 | the subtree of a file or a missing location is at most that location, with no children |
| FileTree.ChildSubtreeSmaller | app/src/main/java/org/android/safespace/viewmodel/AppViewModel.kt:250 | a child's subtree is smaller than its parent's, so the recursion ends |
| ViewModel.AppViewModel.DeleteFolder | app/src/main/java/org/android/safespace/viewmodel/AppViewModel.kt:228-243 | the location and everything below it are gone, whatever it was, nothing else changes, and the status is 1; a missing location leaves the tree unchanged |
| ViewModel.AppViewModel.DeleteFile | app/src/main/java/org/android/safespace/viewmodel/AppViewModel.kt:209-226 | a missing location leaves the tree unchanged; an item marked as a directory removes the whole subtree; any other item removes the location only when it is a file or an empty directory; the status is 1 |
| ViewModel.AppViewModel.RecursiveDirectoryRead | app/src/main/java/org/android/safespace/viewmodel/AppViewModel.kt:353-375 | keeps the given list in front and appends one path per file below the directory, each file once and nothing else |
| FileTree.CollectChildStep | app/src/main/java/org/android/safespace/viewmodel/AppViewModel.kt:364-370 | one loop step: the child is a proper segment with a smaller subtree, a file contributes only itself, and its files join those already collected without overlap |
| FileTree.FilesBelowOneMoreChild | app/src/main/java/org/android/safespace/viewmodel/AppViewModel.kt:364-370 | the files below one more child are those already collected plus that child's, with no overlap |
| FileTree.FilesBelowAllChildren | app/src/main/java/org/android/safespace/viewmodel/AppViewModel.kt:364-371 | the files below all children are all the files below the directory |
| FileTree.FileSubtreeIsItself | app/src/main/java/org/android/safespace/viewmodel/AppViewModel.kt:369 | a file is the only file at or below itself |
| ViewModel.AppViewModel.MoveFile | app/src/main/java/org/android/safespace/viewmodel/AppViewModel.kt:263-281 | the pending transfer is cleared on every outcome; the status is 1 exactly when both ends were set and the host move succeeded, and -1 otherwise |
| ViewModel.AppViewModel.CopyFile | app/src/main/java/org/android/safespace/viewmodel/AppViewModel.kt:283-306 | the pending transfer is cleared on every outcome; the status is 1 exactly when both ends were set and the host copy succeeded, and -1 otherwise |

## Left out

- `importFile`, `exportItems` and `exportFilesToDownloadsFolder` (lines 65-110 and 323-351)
  are left out. They are ContentResolver queries, MediaStore inserts and stream copies
  through platform libraries.
- `renameFile` is modelled as its new-name rule only. The `renameTo` call, its effect on
  the tree and its status are left out.
- MoveFile and CopyFile: the byte transfer and `Files.move` with `REPLACE_EXISTING` are left
  out. Their success is a boolean parameter, and the tree is not changed. A null end makes
  `Paths.get` or the stream constructor throw, so it counts as a failure.
- `getFilesDir()` is the constant `filesDir`. The application's storage path,
  `Constants.ROOT` and the ViewModel lifecycle are not part of this model.
- `Constants.FILE_EXIST` is modelled as the constructor `FileExist`. Its string value is not
  part of this model.
- CreateDir, InitRootDir, DeleteFile, DeleteFolder: the `return 0` branches are not modelled.
  `exists`, `mkdirs` and `delete` report failure through their return value and never raise
  `FileSystemException`. A `SecurityException` from a security manager, the only exception
  left, is not modelled, so the status is always 1.
- DeleteDirectory: I/O failures in the middle of the recursion are not modelled. Deletion on
  the tree always succeeds when allowed. The -1 status of a recursive call is ignored, as in
  the source.
- RecursiveDirectoryRead: the order of the appended paths, depth first in the host's listing
  order, is not stated; the contract fixes which paths are appended and that each appears once.
- RecursiveDirectoryRead: the list is a value. The source appends into the caller's
  `ArrayList` and returns that same object. The model returns the extended sequence, so the
  aliasing is not captured.
- Segments and Resolve: `.` and `..` are ordinary names, and a path string is not resolved
  against a working directory, so `"a"` and `"/a"` name the same location. The host resolves
  `..` to the parent. For example, `createDir("", "..")` on the host finds the root's parent
  and creates nothing; the model creates a directory named `..` inside the root, and a later
  listing shows it as a folder. Likewise, names like `"../x"` reach outside the sandbox on the
  host but stay inside it in the model. The model covers names without dot segments.
- GetContents: the source returns the two field lists themselves. A later call clears and
  refills a result the caller still holds. The model returns the two lists as values, so this
  aliasing is not captured.
- GetContents: `sortWith` is a library sort. It is modelled as a stable insertion sort under
  the same comparator. Only ordering and permutation are proved, not stability. The in-place
  update of `filesList` is a reassignment of the field.
- Listing.NameLe: `String.compareTo` compares UTF-16 code units. The model compares Dafny
  characters, which agree on the Basic Multilingual Plane.
- Sizes and timestamps are opaque naturals read from the tree. `CreateNewFile` stamps a new
  file with a time given as a parameter.
- The filesystem is an object passed to each operation, not a field. Concurrent changes by
  other processes are not modelled.
