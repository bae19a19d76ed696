# stalxed/filesystem in Dafny

This is a model of the PHP library `Stalxed\FileSystem`, a thin object layer over PHP's native file calls. The model covers:

- `File` and `FileObject`: line-stream queries on one text file, plus create, delete, put/append, chmod and copy.
- `Directory` and `DirectoryObject`: recursive walks that measure, test, clear, chmod and copy a directory tree.
- `FileInfo`: classification of a pathname and the control object it hands out.
- The `Control\File`, `Control\Directory`, `Control\Link` and `Control\Symlink` controls.
- The `Symlink` info object.
- The library's `RuntimeException` message format.

How the pieces are modelled:

- **The filesystem** is a map from paths to entries (`FileSystems.Tree`).
  - A path is a sequence of components. An entry is a file with content and mode, a directory with a mode, or a symbolic link.
  - Every native call the library makes is a function from one tree to the next, or to a refusal. The calls are mkdir, rmdir, unlink, touch, chmod, copy, and fopen for writing or truncating.
  - Adding or removing an entry needs the owner-write bit (0200) on the directory that holds it. Reading needs the owner-read bit (0400).
- **The host** (`Hosts.Host`) is a class holding the tree, which each native call updates in place.
  - `foreign` is the set of paths that belong to another user; chmod() is refused on them.
  - `vfs` says whether the library's `getRealPath()` answers the pathname itself (the vfs stream wrapper) or realpath().
  - Without vfs, `getRealPath()` of a missing path is false. PHP passes false on as the empty pathname, on which every native call fails.
- **Directory walks** are an order `w` of paths, given as a parameter.
  - `Walks.Yields` requires `w` to list every entry below the directory exactly once.
  - The order is children first for `clear()` and `makeWritableForAll()`, and parents first for the size, emptiness and copy walks.
  - Each walk is specified by a function over `w`: `SumSizes`, `Clear`, `ChmodAll` or `CopyAll`. The loops in `Walks` are proved equal to those functions, and the properties are proved about the functions.
- **The random source** behind `findRandomLine()` is a sequence of draws `r_i` with `0 <= r_i <= i`.

## Model

| member | source | states |
|---|---|---|
| Errors.GenerateMessage | library/Stalxed/FileSystem/Exception/RuntimeException.php:35-41 | the message always starts with the given text; with an empty path it is exactly that text; otherwise it is the text, " Path: ", the path and a final "." |
| Errors.MessageKeepsPath | library/Stalxed/FileSystem/Exception/RuntimeException.php:22-27 | the path handed to the constructor can be read back out of the generated message, so the message names exactly the path getPath() returns |
| Errors.MessagesDiffer | library/Stalxed/FileSystem/Exception/RuntimeException.php:48-51 | two different paths never give the same message |
| Lines.SplitLines | library/Stalxed/FileSystem/FileObject.php:45-53 | the line stream of a content always has at least one line (an empty file has one empty line) |
| Lines.SplitCount | library/Stalxed/FileSystem/FileObject.php:45-53 | the number of lines is the number of "\n" plus one |
| Lines.ConcatSplit | library/Stalxed/FileSystem/FileObject.php:61-69 | concatenating the line stream gives back the content unchanged |
| Lines.SplitShape | library/Stalxed/FileSystem/FileObject.php:79-87 | every line but the last ends in "\n" and holds no other "\n"; the last line holds none |
| Lines.SplitConcat | library/Stalxed/FileSystem/FileObject.php:79-87 | splitting the concatenation of any well-shaped stream gives back that stream (the inverse of ConcatSplit) |
| Lines.DropNewline | library/Stalxed/FileSystem/File.php:379-385 | a line with the newline dropped is the line itself or the line less a final "\n" or "\r\n" |
| Lines.DroppedShape | library/Stalxed/FileSystem/File.php:135-145 | the newline-dropped stream has as many lines as the plain stream, none holding "\n" |
| Lines.JoinDropped | library/Stalxed/FileSystem/File.php:379-385 | joining the dropped lines with "\n" rebuilds the content when no line ends in "\r\n" |
| Lines.NoCarriageReturnJoin | library/Stalxed/FileSystem/File.php:379-385 | a content without "\r" is rebuilt from its dropped lines |
| Lines.FileLines | library/Stalxed/FileSystem/File.php:171-183 | the lines file() reads concatenate to the content; an empty file gives none; the last one is never empty |
| Lines.TrimLeft | library/Stalxed/FileSystem/File.php:171-183 | trim() removes exactly the leading whitespace |
| Lines.TrimRight | library/Stalxed/FileSystem/File.php:171-183 | trim() removes exactly the trailing whitespace |
| Lines.TrimIsInner | library/Stalxed/FileSystem/File.php:171-183 | a trimmed line is a slice of the line with only whitespace cut on each side |
| Lines.TrimEnds | library/Stalxed/FileSystem/File.php:171-183 | a trimmed line neither starts nor ends with whitespace |
| Lines.TrimIdempotent | library/Stalxed/FileSystem/File.php:171-183 | trimming twice is trimming once |
| Lines.TrimAll | library/Stalxed/FileSystem/File.php:171-183 | getLines() keeps the number and order of lines and trims each one |
| Lines.StrPos | library/Stalxed/FileSystem/FileObject.php:167-183 | strpos() finds the first occurrence of the needle, or none when there is no occurrence at all |
| Lines.StrPosFrom | library/Stalxed/FileSystem/FileObject.php:167-183 | the search from an index answers the first occurrence at or after it |
| Lines.Explode | library/Stalxed/FileSystem/FileObject.php:142-156 | explode() with a non-empty delimiter gives at least one part |
| Lines.ExplodeImplode | library/Stalxed/FileSystem/FileObject.php:142-156 | joining the parts with the delimiter gives back the line, and no part holds the delimiter |
| Lines.FirstMatch | library/Stalxed/FileSystem/FileObject.php:142-183 | the search stops at the first matching line; no earlier line matches |
| Lines.FindSpec | library/Stalxed/FileSystem/FileObject.php:142-183 | a line is found exactly when some line matches, and the line found matches and is one of the file's lines |
| Lines.LastLow | library/Stalxed/FileSystem/FileObject.php:190-205 | the chosen index is the last one whose draw is below 1; every later draw is at least 1 |
| Lines.RandomPickStep | library/Stalxed/FileSystem/FileObject.php:190-205 | one more line replaces the pick exactly when its draw is below 1 |
| Lines.RandomPickFound | library/Stalxed/FileSystem/FileObject.php:190-205 | with draws in [0, i], a non-empty stream always yields one of its lines |
| Lines.RandomPickThreeLines | library/Stalxed/FileSystem/FileObject.php:190-205 | draws (0, 0, 1) on "one\ntwo\nthree" pick the second line |
| Lines.RandomPickEmptyLines | library/Stalxed/FileSystem/FileObject.php:190-205 | "first\n\n\nlast\n\n\n" has 7 lines, and draws (0, 0, 1, …) pick the second line, a bare "\n" |
| Paths.Rebase | library/Stalxed/FileSystem/Directory.php:232-258 | the mirror of a source path lies below the destination, at the same depth and with the same trailing components |
| Paths.RebaseInjective | library/Stalxed/FileSystem/Directory.php:232-258 | two different source entries never map to the same mirror |
| Paths.RebaseAbove | library/Stalxed/FileSystem/Directory.php:232-258 | mirroring keeps the ancestor relation in both directions |
| Paths.Render | library/Stalxed/FileSystem/Directory.php:131-136 | a path in an exception message is never empty |
| Paths.Extension | library/Stalxed/FileSystem/File.php:345-370 | the extension holds no dot and is what follows the last dot; a name without a dot has none |
| Paths.TargetNameKeepsExtension | library/Stalxed/FileSystem/File.php:345-370 | a copy given a new name keeps the source's extension |
| Paths.TargetNameExample | library/Stalxed/FileSystem/FileObject.php:232-254 | "test.file" copied as "new_test" becomes "new_test.file"; with no name it keeps "test.file" |
| FileSystems.Mkdir | library/Stalxed/FileSystem/Directory.php:131-136 | mkdir() adds exactly one directory entry with the given mode and keeps everything else |
| FileSystems.Rmdir | library/Stalxed/FileSystem/Directory.php:143-148 | rmdir() removes only an empty directory, and only that entry |
| FileSystems.Unlink | library/Stalxed/FileSystem/File.php:123-128 | unlink() removes only a file or a link, and only that entry |
| FileSystems.Chmod | library/Stalxed/FileSystem/File.php:326-331 | chmod() succeeds exactly on an existing entry another user does not own; it adds and removes nothing, and what the pathname leads to gets the new mode |
| FileSystems.Copy | library/Stalxed/FileSystem/File.php:345-370 | copy() leaves a file at the target with the source's content and adds at most the target |
| FileSystems.MkdirRecursiveOutcome | library/Stalxed/FileSystem/Directory.php:131-136 | mkdir -p keeps every existing entry, adds only the path and its missing ancestors, each as a directory with the mode, and on success leaves a directory with the mode at the path |
| FileSystems.MkdirRecursiveExisting | library/Stalxed/FileSystem/Directory.php:131-136 | mkdir -p on an existing path fails and changes nothing |
| FileSystems.MkdirRecursiveOneLevel | library/Stalxed/FileSystem/Control/Directory.php:24-29 | a missing path in an editable directory is made in one step, with nothing else added |
| FileSystems.AncestorsAreDirs | library/Stalxed/FileSystem/Directory.php:131-136 | every ancestor of an entry is a directory |
| FileCopies.CopyIntoSpec | library/Stalxed/FileSystem/File.php:345-370 | copyTo() as intended keeps every existing entry and adds none but the target; it succeeds exactly when the destination is a directory and the target either exists already or can be copied and chmodded; a fresh copy has the source's content and the given mode |
| FileCopies.CopyIntoAsWrittenSpec | library/Stalxed/FileSystem/File.php:358-369 | copyTo() as written, for every input: a fresh destination holds the source's content at mode 0666, the source gets the requested mode, no other entry changes, none but the target is added, and it fails at chmod() exactly when another user owns the source |
| FileCopies.CopyIntoAsWrittenChangesSource | library/Stalxed/FileSystem/File.php:366 | as written, the mode goes to the source file and the copy keeps the creation mode |
| FileObjects.FileObject.Fgets | library/Stalxed/FileSystem/FileObject.php:45-53 | fgets() gives the line at the cursor and advances it; at the end it raises a runtime error and stays |
| FileObjects.FileObject.GetLineCount | library/Stalxed/FileSystem/FileObject.php:45-53 | the count is the number of lines in the stream, and the cursor ends at the end |
| FileObjects.FileObject.GetContents | library/Stalxed/FileSystem/FileObject.php:61-69 | the contents are the lines from the cursor on, concatenated |
| FileObjects.FileObject.GetLines | library/Stalxed/FileSystem/FileObject.php:79-87 | the lines are the whole stream, in order |
| FileObjects.FileObject.FindLineByNumber | library/Stalxed/FileSystem/FileObject.php:114-131 | line n (a negative n gives line 0) when n is within the stream, null past the end |
| FileObjects.FileObject.Search | library/Stalxed/FileSystem/FileObject.php:142-183 | the loop answers the first matching line, null when there is none; the cursor ends just past the match, since the foreach has read it, or at the end |
| FileObjects.FileObject.FindLineByPart | library/Stalxed/FileSystem/FileObject.php:142-156 | the first line whose k-th part equals the value, or null; the cursor ends just past the match, or at the end |
| FileObjects.FileObject.FindLineByString | library/Stalxed/FileSystem/FileObject.php:167-183 | the first line holding the needle whose first occurrence starts at the position when one is given, or null; the cursor ends just past the match, or at the end |
| FileObjects.FileObject.FindRandomLine | library/Stalxed/FileSystem/FileObject.php:190-205 | the single-pass reservoir pick over the remaining lines with the given draws |
| FileObjects.FileObject.IsEmpty | library/Stalxed/FileSystem/FileObject.php:35-38 | an answer exactly when the file exists; it is true exactly when the size is 0 |
| FileObjects.FileObject.MakeWritableForAll | library/Stalxed/FileSystem/FileObject.php:213-218 | chmod 0777 of the real path; success exactly when the chmod succeeds |
| FileObjects.FileObject.CopyTo | library/Stalxed/FileSystem/FileObject.php:232-254 | the copy as written (CopyIntoAsWritten): copy() from getRealPath(), then chmod() of getRealPath(), the source; every error carries neither message nor path |
| FileObjects.FileObject.CopyToIntended | library/Stalxed/FileSystem/FileObject.php:232-254 | the copy as CopyInto states it, the mode going to the new copy |
| FileObjects.OpenedContent | library/Stalxed/FileSystem/File.php:381 | SplFileObject reads exactly a readable file; a directory is refused with LogicException, anything else with RuntimeException |
| FileObjects.Open | library/Stalxed/FileSystem/FileObject.php:8-14 | new FileObject succeeds exactly on a readable file, with the plain line stream of its content and the cursor on line 0; a directory gives LogicException, anything else RuntimeException |
| Files.File.IsExists | library/Stalxed/FileSystem/File.php:45-48 | true exactly when the path leads to a regular file; false for a directory or a missing path |
| Files.File.IsReadable | library/Stalxed/FileSystem/File.php:55-58 | readable implies existing, and it means the file can be opened for reading |
| Files.File.IsWritable | library/Stalxed/FileSystem/File.php:65-68 | writable implies existing, and the file can be opened for writing |
| Files.File.GetSize | library/Stalxed/FileSystem/File.php:95-98 | a size exactly when the file is readable, and it is the file's size; a directory gives LogicException, anything else RuntimeException |
| Files.File.IsEmpty | library/Stalxed/FileSystem/File.php:75-78 | an answer exactly when readable, true exactly for empty content; otherwise getSize()'s exception |
| Files.File.Create | library/Stalxed/FileSystem/File.php:107-116 | touch then chmod, with the error of each step; on success a file with the mode is there; only an existing path can have an entry changed |
| Files.File.Delete | library/Stalxed/FileSystem/File.php:123-128 | unlink, "Failed to delete file." with the path on failure; on success the entry is gone |
| Files.File.GetLineCount | library/Stalxed/FileSystem/File.php:135-145 | the number of lines in the newline-dropped stream, or the opening's error (LogicException for a directory) |
| Files.File.GetContents | library/Stalxed/FileSystem/File.php:153-161 | the whole content of a readable file; without vfs a readable directory reads as ""; "Failed to read file." otherwise |
| Files.NativeRead | library/Stalxed/FileSystem/File.php:155 | file_get_contents() and file() read a file exactly as it is opened for reading; a directory reads as "" when readable and without vfs, and not at all otherwise; a missing path is not read |
| Files.File.GetLines | library/Stalxed/FileSystem/File.php:171-183 | the lines file() reads, each trimmed in place; a directory that reads gives no lines |
| Files.File.PutContents | library/Stalxed/FileSystem/File.php:194-203 | on success the content is exactly the data, the file being created if missing; a failed lock leaves the file truncated; a directory gives LogicException |
| Files.File.AppendContents | library/Stalxed/FileSystem/File.php:212-221 | on success an existing file's content is its old content followed by the data; a failed lock writes nothing; a directory gives LogicException |
| Files.File.FindLineByNumber | library/Stalxed/FileSystem/File.php:229-245 | line n of the newline-dropped stream, or null past the end; the opening's error otherwise |
| Files.File.FindLineByPart | library/Stalxed/FileSystem/File.php:256-270 | the first matching line of the newline-dropped stream, or null; the opening's error otherwise |
| Files.File.FindLineByString | library/Stalxed/FileSystem/File.php:281-297 | the first line of the newline-dropped stream matching the first-occurrence rule, or null; the opening's error otherwise |
| Files.File.FindRandomLine | library/Stalxed/FileSystem/File.php:304-318 | the reservoir pick over the newline-dropped stream; the opening's error otherwise |
| Files.File.MakeWritableForAll | library/Stalxed/FileSystem/File.php:326-331 | chmod 0777 of the path, "Failed to change permissions." on failure |
| Files.File.CopyTo | library/Stalxed/FileSystem/File.php:345-370 | the copy as written (CopyIntoAsWritten): chmod() of the source after a fresh copy, with File.php's messages, the chmod() failure naming the source |
| Files.File.CopyToIntended | library/Stalxed/FileSystem/File.php:345-370 | the copy as CopyInto states it, the mode and the chmod() failure going to the new copy |
| Walks.WalkRoot | library/Stalxed/FileSystem/Directory.php:275-278 | the iterator opens exactly a readable directory, reached through at most one link |
| Walks.SumSizesIsSetSize | library/Stalxed/FileSystem/Directory.php:105-120 | the sizes added along a walk without repeats are the size of the set it visits |
| Walks.WalkSize | library/Stalxed/FileSystem/Directory.php:105-120 | the size summed over a walk is the total size of the files below the directory |
| Walks.WalkSizeOrderFree | library/Stalxed/FileSystem/DirectoryObject.php:33-48 | any two listing orders give the same size |
| Walks.SumSizesNoFiles | library/Stalxed/FileSystem/Directory.php:105-120 | directories, and links that do not lead to a file, add nothing to the size |
| Walks.SumSizesAppend | library/Stalxed/FileSystem/Directory.php:105-120 | the size of two walks one after the other is the sum of their sizes |
| Walks.EmptyWalk | library/Stalxed/FileSystem/Directory.php:73-88 | the walk is empty exactly when nothing lies below the directory |
| Walks.Clear | library/Stalxed/FileSystem/Directory.php:155-173 | deleting along the walk stops at the first entry that cannot be removed; everything before it is gone and nothing else changed |
| Walks.FirstLocked | library/Stalxed/FileSystem/Directory.php:155-173 | the first entry whose directory is not writable |
| Walks.ClearStopsAtFirstLocked | library/Stalxed/FileSystem/Directory.php:155-173 | on a child-first walk in which no link leads to a directory (rmdir() refuses a link that isDir() accepts), clearing stops exactly at the first entry in a read-only directory, and what came before is removed |
| Walks.ClearEmpties | library/Stalxed/FileSystem/DirectoryObject.php:77-95 | when clearing gets through the walk, the directory is still there and nothing is below it |
| Walks.ClearReadOnlyRoot | library/Stalxed/FileSystem/DirectoryObject.php:84-94 | with a read-only root, the three files of sub are gone and sub remains |
| Walks.ClearReadOnlySub | library/Stalxed/FileSystem/DirectoryObject.php:84-94 | with a read-only sub, nothing is removed |
| Walks.ChmodAll | library/Stalxed/FileSystem/Directory.php:181-197 | chmod along the walk keeps the tree well formed, and the entry it stops at is one chmod() refuses |
| Walks.ChmodAllOutcome | library/Stalxed/FileSystem/Directory.php:181-197 | chmod stops exactly at the first entry another user owns or that leads nowhere (a dangling link chmod() follows); every entry before it leads to mode 0777 and no entry outside the walk changes |
| Walks.AllWritable | library/Stalxed/FileSystem/Directory.php:181-197 | after a complete walk and the final chmod of the directory, every entry and the directory itself have mode 0777 |
| Walks.FirstRefusedShape | library/Stalxed/FileSystem/Directory.php:181-197 | the first refusal depends only on the tree's shape, not on the modes |
| Walks.CopyOne | library/Stalxed/FileSystem/Directory.php:232-258 | one step of coping() keeps every existing entry and the tree well formed |
| Walks.CopyAll | library/Stalxed/FileSystem/Directory.php:232-258 | the copy walk stops exactly at its first failed step and keeps every existing entry |
| Walks.CopyError | library/Stalxed/FileSystem/Directory.php:232-258 | a failed copy walk raises the message of the step that failed |
| Walks.CopyOneMirrors | library/Stalxed/FileSystem/Directory.php:232-258 | after one step, a directory has its mirror and a file has a file at its mirror; fresh copies get the modes |
| Walks.CopyAllMirrors | library/Stalxed/FileSystem/Directory.php:210-258 | after a complete copy walk into a separate destination, every entry has its mirror, and no entry appears outside the mirrors |
| Walks.CopyAllKeys | library/Stalxed/FileSystem/Directory.php:232-258 | a copy walk that gets through into a separate destination adds entries only at the mirrors of the walk |
| Walks.MirroredKept | library/Stalxed/FileSystem/Directory.php:232-258 | a mirror made earlier survives later steps that keep every entry |
| Walks.SumFileSizes | library/Stalxed/FileSystem/Directory.php:105-120 | the loop's total is the sum of the file sizes along the walk |
| Walks.HasEntry | library/Stalxed/FileSystem/Directory.php:73-88 | the loop finds an entry exactly when the walk is not empty |
| Walks.RemoveEach | library/Stalxed/FileSystem/Directory.php:155-173 | the deletion loop ends in the state Clear describes, and it reports whether the entry it stopped at is a directory |
| Walks.ChmodEach | library/Stalxed/FileSystem/Directory.php:181-197 | the chmod loop ends in the state ChmodAll describes |
| Walks.CopyEach | library/Stalxed/FileSystem/Directory.php:232-258 | the copy loop ends in the state CopyAll describes |
| Directories.Directory.SetDirectoryPath | library/Stalxed/FileSystem/Directory.php:33-36 | the object now names the new path |
| Directories.Directory.IsExists | library/Stalxed/FileSystem/Directory.php:43-46 | true exactly for a directory; false for a file or a missing path |
| Directories.Directory.IsReadable | library/Stalxed/FileSystem/Directory.php:53-56 | readable exactly when the walks' iterator can open the directory; implies existing; false for a file or a missing path |
| Directories.Directory.IsWritable | library/Stalxed/FileSystem/Directory.php:63-66 | writable exactly when the directory it leads to takes new entries; implies existing; false for a file or a missing path |
| Directories.WritableTakesEntry | library/Stalxed/FileSystem/Directory.php:63-66 | in a writable directory, mkdir() and creating a file succeed for any name not yet there |
| Directories.Directory.IsEmpty | library/Stalxed/FileSystem/Directory.php:73-88 | an answer exactly when the iterator opens the directory, and it is true exactly when nothing is below it |
| Directories.Directory.GetSize | library/Stalxed/FileSystem/Directory.php:105-120 | the total size of the files at every depth below the directory |
| Directories.Directory.Create | library/Stalxed/FileSystem/Directory.php:131-136 | mkdir -p: on success the path and all its ancestors are directories, the path with the mode; only the path and its missing ancestors are added, each with the mode; an existing path gives an error and nothing changes |
| Directories.Directory.Delete | library/Stalxed/FileSystem/Directory.php:143-148 | removes exactly the empty directory; a non-empty one raises an error and stays |
| Directories.Directory.Clear | library/Stalxed/FileSystem/Directory.php:155-173 | the state and message Clear describes; on success the directory remains and is empty; otherwise what was removed before the first refusal stays removed |
| Directories.Directory.MakeWritableForAll | library/Stalxed/FileSystem/Directory.php:181-197 | the walk, then the directory itself, to 0777, with the failing entry in the message; on success everything has mode 0777 |
| Directories.Directory.CopyTo | library/Stalxed/FileSystem/Directory.php:210-220 | an error unless the destination is a directory; otherwise the state CopyAll describes, keeping every existing entry; on success every entry has its mirror and nothing is added outside the mirrors |
| DirectoryObjects.DirectoryObject.Listed | library/Stalxed/FileSystem/DirectoryObject.php:227-238 | the iterator lists what getRealPath() leads to, or cannot be made |
| DirectoryObjects.DirectoryObject.ListFailure | library/Stalxed/FileSystem/DirectoryObject.php:227-238 | making the iterator fails with SPL's RuntimeException when getRealPath() is false, and with UnexpectedValueException on a directory it cannot open |
| DirectoryObjects.DirectoryObject.GetSize | library/Stalxed/FileSystem/DirectoryObject.php:33-48 | the total size of the files at every depth below the directory; when the iterator cannot be made, its exception |
| DirectoryObjects.DirectoryObject.IsEmpty | library/Stalxed/FileSystem/DirectoryObject.php:55-70 | true exactly when nothing is below the directory; when the iterator cannot be made, its exception |
| DirectoryObjects.DirectoryObject.Clear | library/Stalxed/FileSystem/DirectoryObject.php:77-95 | as Directory.Clear, with messages that carry no path; when the iterator cannot be made, its exception and no change |
| DirectoryObjects.DirectoryObject.MakeWritableForAll | library/Stalxed/FileSystem/DirectoryObject.php:103-119 | the walk to 0777, and then always an error, since the final chmod() names no file; when the iterator cannot be made, its exception and no change |
| DirectoryObjects.DirectoryObject.MakeWritableForAllIntended | library/Stalxed/FileSystem/DirectoryObject.php:103-119 | with the final chmod() on the directory itself: on success everything has mode 0777; when the iterator cannot be made, its exception and no change |
| DirectoryObjects.DirectoryObject.CopyTo | library/Stalxed/FileSystem/DirectoryObject.php:132-180 | as Directory.CopyTo, from the directory the iterator lists; when the iterator cannot be made, its exception and no change |
| FileInfos.IsExists | library/Stalxed/FileSystem/FileInfo.php:26-29 | true exactly when there is an entry at the path: a file, a directory or a link, dangling or not |
| FileInfos.OpenedRoot | library/Stalxed/FileSystem/FileInfo.php:55-58 | openDirectory() lists a directory entry of the tree, if any |
| FileInfos.GetSize | library/Stalxed/FileSystem/FileInfo.php:31-41 | a directory gives the total size below it; a file gives its size when readable; anything else is PathNotFound |
| FileInfos.IsEmpty | library/Stalxed/FileSystem/FileInfo.php:43-53 | a directory is empty exactly when nothing is below it; a readable file exactly when it has no content; anything else is PathNotFound |
| FileInfos.ControlOf | library/Stalxed/FileSystem/FileInfo.php:60-79 | a link gets a link control whatever it leads to, then a directory, then a file; only where nothing exists does the requested type decide, else PathNotFound |
| FileInfos.ControlIgnoresType | library/Stalxed/FileSystem/FileInfo.php:60-70 | where an entry exists, the requested type changes nothing |
| FileInfos.ControlFails | library/Stalxed/FileSystem/FileInfo.php:71-78 | PathNotFound comes exactly from a missing path with neither type requested |
| Controls.FileControl.Create | library/Stalxed/FileSystem/Control/File.php:22-34 | DirectoryNotFound, changing nothing, when the parent is not a directory; then touch and chmod of the real path, each failure PermissionDenied, a failed chmod leaving the touched file; on success a file with the mode is there; without vfs a missing file is never made |
| Controls.FileControl.CreateIntended | library/Stalxed/FileSystem/Control/File.php:22-34 | the same on the pathname: a missing path in an editable directory becomes exactly one empty file with the mode |
| Controls.FileControl.Delete | library/Stalxed/FileSystem/Control/File.php:41-53 | Logic on a directory, FileNotFound on a missing path, both changing nothing; otherwise unlink of the real path; on success nothing is at the path |
| Controls.DirectoryControl.Create | library/Stalxed/FileSystem/Control/Directory.php:24-29 | mkdir -p of the real path, PermissionDenied on failure; without vfs it always fails and changes nothing |
| Controls.DirectoryControl.CreateIntended | library/Stalxed/FileSystem/Control/Directory.php:24-29 | mkdir -p of the pathname: an existing path fails and changes nothing; a missing path in an editable directory becomes exactly one directory with the mode |
| Controls.DirectoryControl.Delete | library/Stalxed/FileSystem/Control/Directory.php:36-48 | Logic on a file, DirectoryNotFound on a missing path; otherwise rmdir of the real path; a non-empty directory gives PermissionDenied and nothing changes |
| Controls.LinkControl.Delete | library/Stalxed/FileSystem/Control/Link.php:15-24 | FileNotFound, changing nothing, unless the path is a link; then unlink of FileInfo's real path, PermissionDenied on failure; only that entry goes; without vfs the link stays and its target goes |
| Controls.SymlinkControl.Delete | library/Stalxed/FileSystem/Control/Symlink.php:15-24 | FileNotFound unless the path is a link; then exactly the link entry is removed, its target untouched; a link in an editable directory is always removed |
| Symlinks.Open | library/Stalxed/FileSystem/Symlink.php:6-16 | construction succeeds exactly when the path leads to a directory, through links; DirectoryNotFound otherwise |
| Symlinks.Symlink.GetSize | library/Stalxed/FileSystem/Symlink.php:18-21 | the size is always 0 |
| Symlinks.Symlink.IsEmpty | library/Stalxed/FileSystem/Symlink.php:23-26 | empty exactly when neither a directory nor a file is reached through the path (a dangling link counts as empty) |
| Symlinks.Symlink.CopyTo | library/Stalxed/FileSystem/Symlink.php:28-31 | the filesystem stays as it is |
| Symlinks.OpenedNotEmpty | library/Stalxed/FileSystem/Symlink.php:10-26 | a constructed object is not empty on the tree it was made on |

## Left out

- Walks: the walk order is a parameter, and the dot entries "." and ".." are not listed. A RecursiveDirectoryIterator on a real filesystem yields them, while the vfs wrapper does not.
- Walks: a subdirectory that cannot be read partway through a walk is not modelled. A walk always lists the whole subtree.
- Walks.CopyAll: the walk is taken from the tree before the copy starts. A destination inside the source is therefore not modelled, and the mirror lemma requires the two trees to be apart and free of links.
- Links are followed one step, at the last path component only. Link chains and links in the middle of a path are not modelled.
- A directory reached through a link is walked, and named in messages, by its target.
- Host.vfs stands for both ways the library detects vfs: a vfs:// scheme in the pathname (FileInfo.php:19) and a registered vfs wrapper (Control/File.php:8). URLs are rendered as plain paths.
- umask is taken as 0. touch(), copy() and fopen() create files with mode 0666.
- File ownership is only the `foreign` set, on which chmod() is refused. The effective user's permissions are the owner bits of the mode.
- PHP's loose `==` is not modelled: Lines.Matches compares parts and positions strictly. strpos() with an empty needle and explode() with an empty delimiter are version-specific and not modelled.
- Locking (flock) in putContents()/appendContents() is only its outcome, the `locked` flag. Concurrency is not modelled.
- FileObject::safeWrite() throws at its first line (FileObject.php:105) and is not modelled.
- Lines.DropNewline follows the SplFileObject of PHP 7 and later: DROP_NEW_LINE removes a final "\n" or "\r\n". PHP 5 cut the line at its first "\r" or "\n"; that behaviour is not modelled.
- The SplFileObject flags READ_AHEAD and SKIP_EMPTY are not modelled. FileObject uses the plain stream and File the DROP_NEW_LINE stream.
- The iterator factory methods (createDirectoryIterator, createFilesystemIterator, createGlobIterator) are not modelled, and neither is CopyMode.php. createFileObject is modelled only through what the reads get from it: FileObjects.OpenedContent and the DROP_NEW_LINE stream.
- ControlInterface.php's chmod() is implemented by neither control, so there is nothing to model for it.
- The random source Stalxed\System\Random is not part of this model. Its output is the `draws` parameter, and uniformity of the pick is not asserted.
- Lines.RandomPick: the counting property is not proved. That property says that over all N! draw sequences, each index is picked (N-1)! times. The code does not assert it.
- Where the tests expect other exception classes than the code throws, the model follows the code:
  - PermissionDenied is expected at DirectoryObjectTest.php:167 and 195, where the code throws RuntimeException.
  - UnexpectedValue is expected for existing targets in the control tests.
  - FileNotFound is expected for deleting a directory with Control\File.
  - DirectoryNotEmpty is expected for a non-empty directory with Control\Directory.
- An iterator that cannot open its directory becomes UnexpectedValue.
- DirectoryObjects.DirectoryObject.ListFailure: an iterator given getRealPath()'s false, the empty name, fails with SPL's RuntimeException, as in PHP 7. PHP 8 throws ValueError there, which is not modelled.
- Files.NativeRead: a readable directory read as "" is the behaviour of Linux, where reading an open directory fails at once. Other platforms are not modelled.

## Findings

| source | as written | input that shows it | evidently intended | confidence | as-written member | corrected member |
|---|---|---|---|---|---|---|
| library/Stalxed/FileSystem/File.php:366 | after a fresh copy, chmod() is applied to the source path, and a refusal names the source; Files.File.CopyTo and FileObjects.FileObject.CopyTo model it as written, CopyToIntended as intended | copying /a/x.txt (mode 0600) into /b with mode 0644 leaves /a/x.txt at 0644 and /b/x.txt at 0666 | the new copy gets the mode, as Directory::coping() does (the same line is at FileObject.php:250) | high, not executed | FileCopies.CopyIntoAsWrittenChangesSource | FileCopies.CopyIntoSpec |
| library/Stalxed/FileSystem/DirectoryObject.php:116 | the final chmod() reads the undefined property directory_path (null); clear()'s exceptions at DirectoryObject.php:87 and 91 read it too, so they carry no path (DirectoryObjects.DirectoryObject.Clear) | any readable directory whose entries are all chmod-able still ends in "Failed to change permissions." | chmod() of the directory itself, as Directory.php:194 does | high, not executed | DirectoryObjects.DirectoryObject.MakeWritableForAll | DirectoryObjects.DirectoryObject.MakeWritableForAllIntended |
| library/Stalxed/FileSystem/Control/File.php:28-31 | touch() and chmod() are given getRealPath(), which is false for a missing file without the vfs wrapper | on a host without vfs, creating /tmp/new.file in a writable /tmp gives PermissionDenied and no file | touch() and chmod() of the pathname | medium, not executed | Controls.FileControl.Create | Controls.FileControl.CreateIntended |
| library/Stalxed/FileSystem/Control/Directory.php:26 | mkdir() is given getRealPath(), which is false for a missing directory without the vfs wrapper | on a host without vfs, creating /tmp/a/b gives PermissionDenied and nothing | mkdir -p of the pathname | medium, not executed | Controls.DirectoryControl.Create | Controls.DirectoryControl.CreateIntended |
