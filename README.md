# File-System-Simulator, modelled in Dafny

File-System-Simulator is a console program. It keeps an in-memory tree of directories and text
files, lets the user work in a current directory `curr`, and saves the tree to a single store file
on exit, loading it again at start-up. Everything lives in `filesystem.cpp`:

- A `Directory` holds a name, a parent link, and two ordered maps keyed by name: subdirectories
  and files.
- A `File` holds a name, its content and two timestamps.
- A `FileSystem` owns the `root` and the `curr` pointer.
- Every operation on `curr` refuses a name already used by either kind of entry, and changes
  nothing when it refuses.
- `saveToDisk` writes one `D|/a/b` line per directory, breadth first from the root. For each file
  it writes an `F|/a/b/name|created|modified|length` line, the raw content bytes and one separator.
- `loadFromDisk` reads the records back. It creates missing directories with `ensureDir` and keeps
  the first record of a file name.

The model:

- `options.dfy` holds `Option`.
- `text.dfy` holds the string tools: ordering as `std::map` orders keys, `find`, `getline` on
  '/', `stoul` digits, and substring search.
- `tree.dfy` holds the entities as values: `File`, `Dir`, paths of keys, `ensureDir` and the deep
  copy.
- `codec.dfy` holds the store format, `saveToDisk` and `loadFromDisk`.
- `roundtrip.dfy` proves that loading what was saved gives back the saved tree.
- `ops.dfy` specifies each operation of the simulator as a function on the directory it edits.
- `simulator.dfy` is the `FileSystem` class. It has the fields `root` and `cursor` and one method
  per operation. Each method does what the C++ member function does, apart from the three
  corrections listed under "## Findings" (`DeleteAll`, `ChangeDirectory`, and the loader behind
  `LoadFromDisk` and the constructor). Each is proved equal to its specification in `ops.dfy`,
  or for saving, loading and paths in `codec.dfy`, `tree.dfy` and `text.dfy`.

`curr` is kept as the path of names from the root to the current directory. The `parent` link is
that path without its last name. The invariant `Valid()` keeps these facts:

- the root is named "root";
- every child is stored under its own name;
- no name is both a file and a subdirectory in the same directory;
- the cursor path exists.

Console input arrives as method parameters: names, the typed number, the confirmation character,
the text to write and the comma list. The clock arrives as a `now` string. What the console would
print becomes a returned `Status` or value.

## Model

| member | source | states |
|---|---|---|
| Text.SortedKeysAscending | filesystem.h:23-24 | the keys of a map listed in `std::map` order are strictly ascending |
| Text.SortedKeys | filesystem.h:23-24 | the ordered key list holds each key of the map once and nothing else |
| Text.AscendingUnique | filesystem.h:23-24 | two ascending lists with the same elements are equal, so the walk order over a map's keys is unique |
| Text.ContainsAt | filesystem.cpp:352 | `find(pattern) != npos` holds exactly when the pattern occurs at some position of the name |
| Text.SplitJoin | filesystem.cpp:366-372 | the comma-cut pieces contain no comma and, joined with commas, give back the input |
| Text.DecimalRoundTrip | filesystem.cpp:94 | the length written in decimal is a non-empty digit string that `stoul` reads back as the same number (filesystem.cpp:118) |
| Text.SegmentsOfJoinPath | filesystem.cpp:84 | a path written out as "/a/b" splits at '/' back into its names, when no name is empty or holds '/' |
| Text.IndexOf | filesystem.cpp:367 | `find` gives the first position of the character, or the length when it is absent |
| Text.LastIndexOf | filesystem.cpp:124 | `find_last_of` gives the last position of the character, with none after it, or none at all |
| Text.CutAt | filesystem.cpp:55 | one `getline`: the piece before the first separator, which holds no separator, and a shorter rest; with a separator present the input is the piece, the separator and the rest, and without one the piece is the whole input and the rest is empty |
| Text.CutAtAfter | filesystem.cpp:108 | a line followed by its newline is cut off exactly: the piece is the line and the rest is what follows |
| Tree.EnsurePath | filesystem.cpp:51-66 | `ensureDir` keeps the root's name and files and leaves the path existing; corrected to refuse a segment used by a file |
| Tree.EnsurePathCreates | filesystem.cpp:51-66 | `ensureDir` only adds empty directories along the path, and is refused exactly when some segment names a file and no subdirectory |
| Tree.EnsurePathExisting | filesystem.cpp:57-63 | on a path that exists, `ensureDir` changes nothing |
| Tree.EnsurePathIdempotent | filesystem.cpp:51-66 | repeating `ensureDir` on the same path adds nothing |
| Tree.EnsurePathFresh | filesystem.cpp:51-66 | in a tree without files `ensureDir` never fails and leaves a tree without files |
| Tree.EnsurePathWellKeyed | filesystem.cpp:59-60 | a created directory is stored under its own name, so keys and names keep agreeing |
| Tree.EnsurePathUnique | filesystem.cpp:57-61 | the corrected `ensureDir` keeps names unique across the two kinds |
| Tree.EnsurePathAgrees | filesystem.cpp:51-66 | where the corrected walk is not refused it builds the same tree as the original |
| Tree.EnsurePathAsWritten | filesystem.cpp:51-66 | the original `ensureDir` keeps the root's name and always reaches the path |
| Tree.EnsurePathAsWrittenBreaksUnique | filesystem.cpp:57-61 | the original creates a directory under a name a file already uses |
| Tree.CloneAt | filesystem.cpp:483-496 | the deep copy has the same directories, names and contents at every level, and every file has both stamps `now` |
| Tree.CloneWellKeyed | filesystem.cpp:484-495 | the copy keeps the name of the original and every child under its own name |
| Tree.CloneUnique | filesystem.cpp:483-496 | the copy keeps names unique across the two kinds |
| Codec.Save | filesystem.cpp:70-101 | draining the breadth-first queue writes exactly the store `Serialize` describes for the tree |
| Codec.WriteSubDirs | filesystem.cpp:83-87 | one `D|` line per subdirectory in key order, and the queue receives each child with its path |
| Codec.WriteFiles | filesystem.cpp:88-99 | one header line, the content and a separator per file, in key order |
| Codec.ParseHeader | filesystem.cpp:111-118 | the fields of an `F|` line, or None where the length field does not start with a digit; a found path holds no '\|' |
| Codec.HeaderLineParses | filesystem.cpp:91-94 | the header `saveToDisk` writes parses back, through the `find`/`substr`/`stoul` steps of filesystem.cpp:112-118, to the same path, stamps and length |
| Codec.SplitLast | filesystem.cpp:124-126 | the path splits at its last '/' into directory part and base name, or gives "" and the whole path |
| Codec.ReadFile | filesystem.cpp:120-134 | reading the declared number of content bytes and the separator leaves strictly less input |
| RoundTrip.ReadContent | filesystem.cpp:120-134 | content of exactly the declared length followed by the separator becomes the content of the file the record adds, with the record's stamps, under the base name, in the directory the path names; reading goes on right after the separator |
| Codec.Load | filesystem.cpp:103-136 | the record loop builds exactly the tree the corrected loader `LoadStore` describes, or reports the store unreadable |
| Codec.EnsureDir | filesystem.cpp:51-66 | the walking loop computes `EnsurePath` on the segments of the path and ends at that directory |
| Codec.LoadExistingDir | filesystem.cpp:109-110 | a `D|` line for a directory that exists already leaves the tree as it was, and loading goes on with the next line |
| Codec.LoadDirTwice | filesystem.cpp:109-110 | the same `D|` line twice in a row loads exactly as it does once |
| Codec.LoadExistingFile | filesystem.cpp:111-134 | an `F|` record whose name is already used in its existing directory leaves the tree as it was; its content and separator are read past, so loading goes on after them, or stops at the end of the store |
| Codec.LoadStoreGrows | filesystem.cpp:103-138 | loading only adds to the tree, keeps the root's name, and keeps keys and names agreeing and names unique |
| Codec.ApplyFileFirstWins | filesystem.cpp:129 | a file record whose name is already used in its directory is ignored: the first one wins |
| Codec.ApplyFileAdds | filesystem.cpp:128-134 | otherwise the record adds exactly its file to that directory and nothing else changes |
| Codec.ApplyFileGrows | filesystem.cpp:128-134 | the corrected file step only adds, and keeps names unique across the two kinds |
| Codec.ApplyFileAgrees | filesystem.cpp:128-134 | where no subdirectory has the file's name, the corrected step is the original step |
| Codec.ApplyFileAsWrittenBreaksUnique | filesystem.cpp:129 | the original step adds a file under a name a subdirectory already uses |
| RoundTrip.LoadRenderAll | filesystem.cpp:103-136 | loading rendered records applies them one by one, when names and stamps hold no separator |
| RoundTrip.BfsSound | filesystem.cpp:77-100 | every record the breadth-first walk writes describes a directory or file of the tree |
| RoundTrip.BfsCoversDir | filesystem.cpp:83-87 | every directory below a queued one is written |
| RoundTrip.BfsCoversFile | filesystem.cpp:88-99 | every file below a queued directory is written |
| RoundTrip.SaveLoadRoundTrip | filesystem.cpp:70-138 | loading the store `saveToDisk` wrote into an empty root rebuilds the same tree, contents and stamps byte for byte, when names are non-empty and names and stamps hold no '/', '\|' or newline |
| Ops.WithNewDir | filesystem.cpp:190-198 | refused exactly when the name is used by either kind; otherwise exactly one empty subdirectory of that name is added |
| Ops.WithNewFile | filesystem.cpp:274-282 | refused exactly when the name is used by either kind; otherwise exactly one file is added, with empty content and both stamps `now` (filesystem.cpp:24-26) |
| Ops.WithoutFile | filesystem.cpp:200-208 | refused exactly when no file has the name; otherwise exactly that file is removed |
| Ops.WithoutDir | filesystem.cpp:210-218 | refused exactly when no subdirectory has the name; otherwise exactly that subtree is removed |
| Ops.DirRenamed | filesystem.cpp:220-233 | refused when the old name is no subdirectory or the new name is used (also when equal); otherwise the same node is re-keyed under and renamed to the new name, and nothing else changes |
| Ops.FileRenamed | filesystem.cpp:284-297 | the same for files |
| Ops.Written | filesystem.cpp:299-319 | refused exactly for a missing file; otherwise the content is replaced or extended, `modifiedAt` becomes `now` and `createdAt` stays |
| Ops.NewFileThenDelete | filesystem.cpp:200-208 | deleting a file just created gives back the directory |
| Ops.NewDirThenDelete | filesystem.cpp:210-218 | deleting a directory just created gives back the directory |
| Ops.DirRenamedBack | filesystem.cpp:220-233 | renaming a subdirectory back restores the directory |
| Ops.FileRenamedBack | filesystem.cpp:284-297 | renaming a file back restores the directory |
| Ops.OverwriteTwice | filesystem.cpp:312-317 | two overwrites are the second one |
| Ops.AppendTwice | filesystem.cpp:312-313 | two appends are one append of both texts |
| Ops.ReplaceValid | filesystem.cpp:190-319 | an edit of `curr` that keeps its name and its invariants keeps the whole tree's invariants |
| Ops.Survives | filesystem.cpp:445-446 | editing one directory leaves every directory outside its subtree in place, and those above it keep their name, files and other children |
| Ops.BatchNamesSplit | filesystem.cpp:366-372 | the names the loop hands to `createFile` are the comma-separated pieces of the input, less an empty last piece |
| Ops.BatchNamesPieces | filesystem.cpp:366-372 | no name contains a comma; there are none exactly for an empty input; joined with commas they give back the input, up to a final comma |
| Ops.CreateAll | filesystem.cpp:361-373 | the files of a batch keep the directory's name and subdirectories and its invariants |
| Ops.CreateAllEffect | filesystem.cpp:361-373 | a batch ends with exactly the old files plus one new empty file for each listed name no subdirectory uses; old files are untouched |
| Ops.Wiped | filesystem.cpp:375-398 | unconfirmed, nothing changes; confirmed, the root keeps its name and both maps are empty; corrected to put the cursor at the root |
| Ops.WipedAsWritten | filesystem.cpp:375-398 | the original leaves the cursor where it was |
| Ops.WipedAsWrittenDangles | filesystem.cpp:375-398 | with `curr` below the root, the original empties the root and leaves `curr` at a directory that no longer exists |
| Ops.WipedResolves | filesystem.cpp:375-398 | the corrected wipe leaves the cursor at an existing directory and the tree valid |
| Ops.Choices | filesystem.cpp:236-248 | the numbered list has one entry per subdirectory, plus one for the parent below the root |
| Ops.Landed | filesystem.cpp:260-270 | an out-of-range number keeps `curr`; otherwise `curr` moves to a listed subdirectory or to the parent, never to null; corrected to decide the parent by position |
| Ops.LandedAsWritten | filesystem.cpp:265-270 | the original moves to the parent for an entry whose text is "..", and reaches null only at the root |
| Ops.LandedAgrees | filesystem.cpp:265-270 | without a subdirectory named "..", the original and the corrected selections agree |
| Ops.LandedAsWrittenLosesCursor | filesystem.cpp:265-270 | at the root a subdirectory named ".." makes the original set `curr` to null |
| Ops.LandedResolves | filesystem.cpp:260-270 | the corrected selection always lands on an existing directory |
| Ops.Matching | filesystem.cpp:351-356 | a name is reported exactly when it is listed and contains the pattern |
| Ops.MatchingAscending | filesystem.cpp:351-356 | picking from an ascending list keeps it ascending |
| Ops.SortedNames | filesystem.cpp:240-243 | the loop over a map collects its keys in `std::map` order |
| Ops.NavigateStep | filesystem.cpp:147-148 | an empty piece of the path is skipped; a name is the next step of the walk |
| Ops.NavigateLookup | filesystem.cpp:149-151 | the walk descends exactly into a subdirectory of that name, and otherwise the whole path resolves to nothing |
| Ops.PrintedPathNavigates | filesystem.cpp:400-406 | the text `printPath` writes, without its leading "/root", is a path `navigateToPath` follows back to `curr`, when no name is empty or holds '/' |
| Ops.FileMoved | filesystem.cpp:436-448 | refused exactly when the file is missing in `curr` or its name is used in the target by either kind; the root keeps its name |
| Ops.FileMovedEffect | filesystem.cpp:445-446 | the target gains the very same file under its name, and `curr` loses it |
| Ops.FileMovedFrame | filesystem.cpp:436-448 | every directory outside the subtrees of `curr` and the target is unchanged |
| Ops.FileMovedValid | filesystem.cpp:436-448 | the move keeps the tree's invariants and `curr` existing |
| Ops.DirMoved | filesystem.cpp:450-463 | refused exactly when the subdirectory is missing in `curr` or its name is used in the target by either kind; the root keeps its name |
| Ops.DirMovedEffect | filesystem.cpp:459-461 | the moved subtree is found unchanged under the target, so its parent is now the target, and `curr` no longer has it |
| Ops.DirMovedFrame | filesystem.cpp:450-463 | every directory outside `curr`, the target and the moved subtree is unchanged |
| Ops.DirMovedValid | filesystem.cpp:450-463 | the move keeps the tree's invariants and `curr` existing |
| Ops.FileCopied | filesystem.cpp:465-481 | refused under the same conditions as the move; the root keeps its name |
| Ops.FileCopiedEffect | filesystem.cpp:474-479 | the target gains a file with the same name and content and both stamps `now`; the original stays |
| Ops.DirCopied | filesystem.cpp:498-510 | refused under the same conditions as the move; the root keeps its name |
| Ops.DirCopiedEffect | filesystem.cpp:498-510 | the target gains the deep copy of the subdirectory; the copied subtree itself is unchanged unless the target lies inside it |
| Ops.CopiedFrame | filesystem.cpp:465-510 | every directory outside the target's subtree is unchanged by either copy |
| Ops.CopiedValid | filesystem.cpp:465-510 | both copies keep the tree's invariants and `curr` existing |
| Simulator.FileSystem.constructor | filesystem.cpp:38-42 | a new simulator holds the loaded store, or an empty root when there is none, with `curr` at the root |
| Simulator.FileSystem.LoadFromDisk | filesystem.cpp:103-138 | no store changes nothing; an unreadable store is reported and changes nothing; otherwise the tree is the one the corrected loader builds, only grown, and `curr` is the root |
| Simulator.FileSystem.SaveToDisk | filesystem.cpp:70-101 | the text written is the store of the whole tree |
| Simulator.FileSystem.MakeDirectory | filesystem.cpp:190-198 | reports a used name, and the tree becomes `WithNewDir` applied at `curr` |
| Simulator.FileSystem.CreateFile | filesystem.cpp:274-282 | reports a used name, and the tree becomes `WithNewFile` applied at `curr` |
| Simulator.FileSystem.DeleteFileByName | filesystem.cpp:200-208 | reports a missing file, and the tree becomes `WithoutFile` applied at `curr` |
| Simulator.FileSystem.DeleteDirectoryByName | filesystem.cpp:210-218 | reports a missing subdirectory, and the tree becomes `WithoutDir` applied at `curr` |
| Simulator.FileSystem.RenameDirectory | filesystem.cpp:220-233 | reports a missing or a used name, and the tree becomes `DirRenamed` applied at `curr` |
| Simulator.FileSystem.RenameFile | filesystem.cpp:284-297 | reports a missing or a used name, and the tree becomes `FileRenamed` applied at `curr` |
| Simulator.FileSystem.WriteFile | filesystem.cpp:299-319 | reports a missing file, and the tree becomes `Written` applied at `curr` |
| Simulator.FileSystem.ChangeDirectory | filesystem.cpp:235-272 | reports an empty list or an invalid number, and moves `curr` as `Landed` says |
| Simulator.FileSystem.SearchFiles | filesystem.cpp:347-359 | the hits are exactly the file names of `curr` that contain the pattern, in ascending order |
| Simulator.FileSystem.BatchCreateFiles | filesystem.cpp:361-373 | the tree becomes `CreateAll` of the batch's names applied at `curr` |
| Simulator.FileSystem.DeleteAll | filesystem.cpp:375-398 | reports a cancel, and the tree and cursor become what `Wiped` says |
| Simulator.FileSystem.PrintPath | filesystem.cpp:400-406 | the text is '/' and the name of each directory from the root down to `curr` |
| Simulator.FileSystem.NavigateToPath | filesystem.cpp:141-154 | finds a directory exactly when the non-empty pieces of the path lead from the root through subdirectories, and returns those pieces; "" and "/" give the root |
| Simulator.FileSystem.MoveFile | filesystem.cpp:436-448 | reports a missing file or a used target name; otherwise the tree becomes `FileMoved` |
| Simulator.FileSystem.MoveDirectory | filesystem.cpp:450-463 | reports a missing subdirectory or a used target name; otherwise the tree becomes `DirMoved` |
| Simulator.FileSystem.CopyFile | filesystem.cpp:465-481 | reports a missing file or a used target name; otherwise the tree becomes `FileCopied` |
| Simulator.FileSystem.CopyDirectory | filesystem.cpp:498-510 | reports a missing subdirectory or a used target name; otherwise the tree becomes `DirCopied` |
| Simulator.FileSystem.CopyDirectoryHelper | filesystem.cpp:483-496 | the target gains, under the original's name, exactly the deep copy `Clone` |
| Simulator.FileSystem.CopyFiles | filesystem.cpp:485-491 | the file loop builds the copy's files: each file again under its key, restamped `now` |
| Simulator.FileSystem.CopySubDirs | filesystem.cpp:492-494 | the subdirectory loop completes the copy with a deep copy of each subdirectory |

## Left out

- Console I/O and menus are interaction, not logic. This covers `mainMenu`, `contentOps`,
  `showContentMenu`, `searchOps`, `batchOps`, `searchMenu`, `batchMenu`, `start`, `showHelp`,
  `listAndNumber`, `chooseFromList`, `listContents`, `readFile`, `fileMetadata`,
  `directoryMetadata`, `printTree` and `printTreeHelper`. The model takes the chosen values as
  parameters, and the messages become a `Status`.
- `getTimestamp` uses the clock. Each operation takes its time as the string `now`.
- Simulator.FileSystem.CopyDirectory: one `now` serves the whole copy, where `copyDirectoryHelper`
  reads the clock once per file. Simulator.FileSystem.BatchCreateFiles does the same: one `now`
  serves every file of the batch, where each `createFile` reads the clock (filesystem.cpp:24-26, 369). Stamps taken within one second are equal in the source anyway.
- File streams: the store is a string. A missing store file is `None`; nothing models a failing
  `ofstream`.
- Simulator.FileSystem.LoadFromDisk: on a store where `stoul` throws, the program ends with
  an uncaught exception. The model reports `Unreadable` and keeps the tree as it was.
- Codec.ParseHeader reads the length only from a leading run of digits. `stoul` also skips
  leading whitespace and accepts a sign, so a length field such as " 5", "+5" or "-0" loads in the
  source but makes the model report the store unreadable. `saveToDisk` never writes such a field.
- Manual memory management is left out: `delete`, the destructors, pointer ownership and the
  `parent` pointers. A removed entry is a removed value. That `~FileSystem` saves on exit is left
  to the caller of `SaveToDisk`.
- Simulator.FileSystem.WriteFile takes the text that `writeFile` assembles from console lines up
  to an `EOF` line (filesystem.cpp:305-310). The model does not build that text itself.
- Simulator.FileSystem.MoveDirectory requires that the target is not the moved directory or inside
  it. The source does not check this (filesystem.cpp:450-463), and such a move cuts the subtree
  off the tree.
- Simulator.FileSystem.MoveFile, MoveDirectory, CopyFile and CopyDirectory take the target as a
  path that exists. This is the case after `navigateToPath` succeeds in the menu
  (filesystem.cpp:637-671); the menu's "INVALID PATH." case stays in the menu.
- The round trip (RoundTrip.SaveLoadRoundTrip) holds only for names that are non-empty and hold no
  '/', '|' or newline, and for stamps without '|' or newline. Other names can be created
  interactively, but their records do not read back as written.
- RoundTrip.SaveLoadRoundTrip is proved for the corrected loader only. For the loader as written
  (filesystem.cpp:57-61, 129), no round-trip lemma is stated.
- Characters stand for bytes. Names are ordered by character code, as `std::string` compares
  bytes. There is no encoding.
- The integer widths of `size_t`, `int` and `streamsize` are unbounded here. A store length too
  large for `unsigned long` is outside the model.

## Findings

| source | as written | input that shows it | evidently intended | confidence | as-written member | corrected member |
|---|---|---|---|---|---|---|
| filesystem.cpp:129 | the loader skips a file record only when a *file* of that name exists, so it inserts a file alongside a subdirectory of the same name | a root with subdirectory "x" and the record `F\|/x\|t\|t\|0` | refuse a name used by either kind, as every interactive operation does | not executed; high | Codec.ApplyFileAsWritten, Codec.ApplyFileAsWrittenBreaksUnique | Codec.ApplyFile, Codec.ApplyFileGrows |
| filesystem.cpp:57-61 | `ensureDir` looks only at `subDirs`, so it creates a directory under a name a file already uses | a root holding file "x" and the record `D\|/x` | refuse the walk when a segment names a file | not executed; medium | Tree.EnsurePathAsWritten, Tree.EnsurePathAsWrittenBreaksUnique | Tree.EnsurePath, Tree.EnsurePathUnique |
| filesystem.cpp:375-398 | `deleteAll` frees every directory below the root but leaves `curr` pointing at whichever one it was | `curr` at /root/a, confirmation 'y' | return `curr` to the emptied root | not executed; high | Ops.WipedAsWritten, Ops.WipedAsWrittenDangles | Ops.Wiped, Ops.WipedResolves |
| filesystem.cpp:265-270 | `changeDirectory` takes the entry whose text is ".." for the parent, so a subdirectory named ".." is not entered, and at the root `curr` becomes null | a root with a subdirectory named "..", selection 1 | decide by position: only the extra last entry is the parent | not executed; medium | Ops.LandedAsWritten, Ops.LandedAsWrittenLosesCursor | Ops.Landed, Ops.LandedResolves |
