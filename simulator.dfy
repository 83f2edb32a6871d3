/**
 * `FileSystem` of filesystem.h / filesystem.cpp: the tree below `root` and the cursor `curr`.
 * The tree is a value that the methods replace; `curr` is kept as the path of names from the
 * root, so "curr->parent" is the path without its last name. Console input arrives as
 * parameters (names, the typed selection, the confirmation character, the text to write) and
 * the clock as the string `now`; what the console would print becomes a `Status`.
 */
module Simulator {

  import opened Options
  import opened Text
  import opened Tree
  import opened Ops
  import Codec

  /** The outcome an operation reports: done, or the reason it changed nothing. */
  datatype Status = Done | NameInUse | NotFound | TargetInUse | Cancelled | InvalidChoice | NoChoices | NoStore | Unreadable

  class FileSystem {
    var root: Dir
    var cursor: seq<string>

    /** The root is "root", every child is stored under its own name, no name is both a file and a subdirectory, and `curr` exists. */
    ghost predicate Valid()
      reads this
    {
      && root.name == "root"
      && WellKeyed(root)
      && Unique(root)
      && Lookup(root, cursor).Some?
    }

    /** The directory `curr` points to. */
    function Cwd(): Dir
      reads this
      requires Valid()
    {
      Lookup(root, cursor).value
    }

    /** `FileSystem::FileSystem`: an empty root, which is also `curr`, then `loadFromDisk` (None: no saved store). */
    constructor (store: Option<string>)
      ensures Valid() && cursor == []
      ensures var r := if store.Some? then Codec.LoadStore(EmptyDir("root"), store.value) else None;
        root == if r.Some? then r.value else EmptyDir("root")
    {
      root := EmptyDir("root");
      cursor := [];
      new;
      var _ := LoadFromDisk(store);
    }

    /**
     * `loadFromDisk`, corrected as `LoadStore` is: the saved records are added to the tree and
     * `curr` returns to the root.
     * A store that cannot be opened changes nothing; one with an `F|` line whose length field
     * does not start with a digit is reported.
     */
    method LoadFromDisk(store: Option<string>) returns (st: Status)
      requires Valid()
      modifies this
      ensures Valid()
      ensures store.None? ==> st == NoStore && root == old(root) && cursor == old(cursor)
      ensures store.Some? && Codec.LoadStore(old(root), store.value).None? ==>
        st == Unreadable && root == old(root) && cursor == old(cursor)
      ensures store.Some? && Codec.LoadStore(old(root), store.value).Some? ==>
        && st == Done && root == Codec.LoadStore(old(root), store.value).value && cursor == []
        && Sub(old(root), root)
    {
      if store.None? {
        return NoStore;
      }
      var r := Codec.Load(root, store.value);
      if r.None? {
        return Unreadable;
      }
      Codec.LoadStoreGrows(root, store.value);
      root := r.value;
      cursor := [];
      st := Done;
    }

    /** `saveToDisk`: the text written for the whole tree. */
    method SaveToDisk() returns (store: string)
      ensures store == Codec.Serialize(root)
    {
      store := Codec.Save(root);
    }

    /** `makeDirectory`. */
    method MakeDirectory(name: string) returns (st: Status)
      requires Valid()
      modifies this`root
      ensures Valid()
      ensures st == if InUse(old(Cwd()), name) then NameInUse else Done
      ensures root == Put(old(root), cursor, WithNewDir(old(Cwd()), name))
    {
      var d := Cwd();
      if name in d.subDirs || name in d.files {
        return NameInUse;
      }
      var n := d.(subDirs := d.subDirs[name := EmptyDir(name)]);
      Replace(n, WithNewDir(d, name));
      st := Done;
    }

    /** `createFile`: the new file is empty and stamped `now` twice. */
    method CreateFile(name: string, now: string) returns (st: Status)
      requires Valid()
      modifies this`root
      ensures Valid()
      ensures st == if InUse(old(Cwd()), name) then NameInUse else Done
      ensures root == Put(old(root), cursor, WithNewFile(old(Cwd()), name, now))
    {
      var d := Cwd();
      if name in d.files || name in d.subDirs {
        return NameInUse;
      }
      var n := d.(files := d.files[name := File(name, "", now, now)]);
      Replace(n, WithNewFile(d, name, now));
      st := Done;
    }

    /** `deleteFileByName`. */
    method DeleteFileByName(name: string) returns (st: Status)
      requires Valid()
      modifies this`root
      ensures Valid()
      ensures st == if name in old(Cwd()).files then Done else NotFound
      ensures root == Put(old(root), cursor, WithoutFile(old(Cwd()), name))
    {
      var d := Cwd();
      if name !in d.files {
        return NotFound;
      }
      var n := d.(files := d.files - {name});
      Replace(n, WithoutFile(d, name));
      st := Done;
    }

    /** `deleteDirectoryByName`: the whole subtree goes. */
    method DeleteDirectoryByName(name: string) returns (st: Status)
      requires Valid()
      modifies this`root
      ensures Valid()
      ensures st == if name in old(Cwd()).subDirs then Done else NotFound
      ensures root == Put(old(root), cursor, WithoutDir(old(Cwd()), name))
    {
      var d := Cwd();
      if name !in d.subDirs {
        return NotFound;
      }
      var n := d.(subDirs := d.subDirs - {name});
      Replace(n, WithoutDir(d, name));
      st := Done;
    }

    /** `renameDirectory`. */
    method RenameDirectory(oldN: string, newN: string) returns (st: Status)
      requires Valid()
      modifies this`root
      ensures Valid()
      ensures st == if oldN !in old(Cwd()).subDirs then NotFound else if InUse(old(Cwd()), newN) then NameInUse else Done
      ensures root == Put(old(root), cursor, DirRenamed(old(Cwd()), oldN, newN))
    {
      var d := Cwd();
      if oldN !in d.subDirs {
        return NotFound;
      }
      if newN in d.subDirs || newN in d.files {
        return NameInUse;
      }
      var moved := d.subDirs[oldN].(name := newN);
      var n := d.(subDirs := d.subDirs[newN := moved] - {oldN});
      Replace(n, DirRenamed(d, oldN, newN));
      st := Done;
    }

    /** `renameFile`. */
    method RenameFile(oldN: string, newN: string) returns (st: Status)
      requires Valid()
      modifies this`root
      ensures Valid()
      ensures st == if oldN !in old(Cwd()).files then NotFound else if InUse(old(Cwd()), newN) then NameInUse else Done
      ensures root == Put(old(root), cursor, FileRenamed(old(Cwd()), oldN, newN))
    {
      var d := Cwd();
      if oldN !in d.files {
        return NotFound;
      }
      if newN in d.files || newN in d.subDirs {
        return NameInUse;
      }
      var n := d.(files := d.files[newN := d.files[oldN].(name := newN)] - {oldN});
      Replace(n, FileRenamed(d, oldN, newN));
      st := Done;
    }

    /** `writeFile`, with the text read from the console as `text` and the edit mode as `append`. */
    method WriteFile(name: string, text: string, append: bool, now: string) returns (st: Status)
      requires Valid()
      modifies this`root
      ensures Valid()
      ensures st == if name in old(Cwd()).files then Done else NotFound
      ensures root == Put(old(root), cursor, Written(old(Cwd()), name, text, append, now))
    {
      var d := Cwd();
      if name !in d.files {
        return NotFound;
      }
      var f := d.files[name];
      var content := if append then f.content + text else text;
      var n := d.(files := d.files[name := f.(content := content, modifiedAt := now)]);
      Replace(n, Written(d, name, text, append, now));
      st := Done;
    }

    /** Stores `n`, the edited cursor directory, back into the tree. */
    method Replace(n: Dir, ghost edit: Option<Dir>)
      requires Valid() && edit == Some(n)
      requires WellKeyed(Cwd()) && Unique(Cwd()) ==> WellKeyed(n) && Unique(n)
      requires n.name == Cwd().name
      modifies this`root
      ensures Valid()
      ensures root == UpdateAt(old(root), cursor, n)
    {
      Codec.WellKeyedLookup(root, cursor);
      Codec.UniqueLookup(root, cursor);
      ReplaceValid(root, cursor, n);
      root := UpdateAt(root, cursor, n);
    }

    /**
     * `changeDirectory`, with the typed number as `choice`: the subdirectories in key order,
     * then the parent below the root; corrected to decide the parent by position.
     */
    method ChangeDirectory(choice: int) returns (st: Status)
      requires Valid()
      modifies this`cursor
      ensures Valid()
      ensures st == if Choices(old(Cwd()), old(cursor)) == [] then NoChoices
                    else if Landed(old(Cwd()), old(cursor), choice).Stay? then InvalidChoice
                    else Done
      ensures cursor == match Landed(old(Cwd()), old(cursor), choice) case At(p) => p case _ => old(cursor)
    {
      var d := Cwd();
      var names := SortedNames(d.subDirs.Keys);
      var count := |names|;
      if cursor != [] {
        names := names + [".."];
      }
      assert names == Choices(d, cursor);
      if names == [] {
        return NoChoices;
      }
      if choice < 1 || choice > |names| {
        return InvalidChoice;
      }
      LandedResolves(root, cursor, choice);
      if choice <= count {
        cursor := cursor + [names[choice - 1]];
      } else {
        cursor := cursor[..|cursor| - 1];
      }
      st := Done;
    }

    /** `searchFiles`: the names of the cursor's files that contain `pattern`, in key order. */
    method SearchFiles(pattern: string) returns (hits: seq<string>)
      requires Valid()
      ensures Ascending(hits)
      ensures forall x :: x in hits <==> x in Cwd().files && Contains(x, pattern)
    {
      var d := Cwd();
      hits := [];
      var pending := d.files.Keys;
      ghost var done: seq<string> := [];
      assert [] + SortedKeys(pending) == SortedKeys(d.files.Keys);
      while pending != {}
        invariant done + SortedKeys(pending) == SortedKeys(d.files.Keys)
        invariant hits == Matching(done, pattern)
        decreases |pending|
      {
        LeastExists(pending);
        var k :| IsLeast(k, pending);
        Codec.NextKey(d.files.Keys, pending, done, k);
        MatchingSnoc(done, k, pattern);
        if Contains(k, pattern) {
          hits := hits + [k];
        }
        done := done + [k];
        pending := pending - {k};
      }
      assert done == SortedKeys(d.files.Keys);
      SortedKeysAscending(d.files.Keys);
      MatchingAscending(done, pattern);
    }

    /** `batchCreateFiles`, with the typed line as `input`: `createFile` for each comma-separated piece. */
    method BatchCreateFiles(input: string, now: string)
      requires Valid()
      modifies this`root
      ensures Valid()
      ensures root == UpdateAt(old(root), cursor, CreateAll(old(Cwd()), BatchNames(input), now))
    {
      ghost var t, d := root, Cwd();
      ghost var done: seq<string> := [];
      var rest := input;
      UpdateAtSame(t, cursor);
      assert [] + BatchNames(input) == BatchNames(input);
      while IndexOf(rest, ',') < |rest|
        invariant Valid() && Lookup(t, cursor).Some?
        invariant BatchNames(input) == done + BatchNames(rest)
        invariant root == UpdateAt(t, cursor, CreateAll(d, done, now))
        decreases |rest|
      {
        var pos := IndexOf(rest, ',');
        BatchNamesStep(input, done, rest);
        Created(t, d, done, rest[..pos], now);
        done := done + [rest[..pos]];
        rest := rest[pos + 1..];
      }
      BatchNamesEnd(input, done, rest);
      if rest != [] {
        Created(t, d, done, rest, now);
        done := done + [rest];
      } else {
        assert done + [] == done;
      }
    }

    /** One `createFile` of a batch, seen as one more name handed to `CreateAll`. */
    method Created(ghost t: Dir, ghost d: Dir, ghost done: seq<string>, name: string, now: string)
      requires Valid() && Lookup(t, cursor).Some?
      requires root == UpdateAt(t, cursor, CreateAll(d, done, now))
      modifies this`root
      ensures Valid()
      ensures root == UpdateAt(t, cursor, CreateAll(d, done + [name], now))
    {
      ghost var c := CreateAll(d, done, now);
      LookupUpdateAt(t, cursor, c);
      CreateAllSnoc(d, done, name, now);
      var _ := CreateFile(name, now);
      if WithNewFile(c, name, now).Some? {
        UpdateAtTwice(t, cursor, c, WithNewFile(c, name, now).value);
      }
    }

    /** `deleteAll`, with the typed character as `confirm`; corrected to return `curr` to the emptied root. */
    method DeleteAll(confirm: char) returns (st: Status)
      requires Valid()
      modifies this
      ensures Valid()
      ensures st == if Confirmed(confirm) then Done else Cancelled
      ensures (root, cursor) == Wiped(old(root), old(cursor), confirm)
    {
      if confirm != 'y' && confirm != 'Y' {
        return Cancelled;
      }
      root := root.(subDirs := map[], files := map[]);
      cursor := [];
      st := Done;
    }

    /** `printPath`: the names from the root down to `curr`, each after a '/'. */
    method PrintPath() returns (s: string)
      requires Valid()
      ensures s == "/" + root.name + JoinPath(cursor)
    {
      s := "";
      var i := |cursor|;
      while i > 0
        invariant 0 <= i <= |cursor|
        invariant s == JoinPath(cursor[i..])
        decreases i
      {
        LookupPrefix(root, cursor, cursor[..i]);
        Codec.WellKeyedLookup(root, cursor[..i]);
        var up := Lookup(root, cursor[..i]).value;
        assert up.name == cursor[i - 1];
        assert cursor[i - 1..][1..] == cursor[i..];
        s := "/" + up.name + s;
        i := i - 1;
      }
      assert cursor[0..] == cursor;
      s := "/" + root.name + s;
    }

    /**
     * `navigateToPath`: the directory reached from the root through the non-empty pieces of
     * `relPath` ("" and "/" give the root), or None at the first piece that is no subdirectory.
     */
    method NavigateToPath(relPath: string) returns (r: Option<seq<string>>)
      requires Valid()
      ensures r.Some? <==> Lookup(root, Segments(relPath)).Some?
      ensures r.Some? ==> r.value == Segments(relPath)
    {
      if relPath == [] || relPath == "/" {
        assert Tokens("/") == [[]] + Tokens([]);
        return Some([]);
      }
      var dir: seq<string> := [];
      var rem := relPath;
      assert [] + Segments(relPath) == Segments(relPath);
      while rem != []
        invariant Lookup(root, dir).Some?
        invariant dir + Segments(rem) == Segments(relPath)
        decreases |rem|
      {
        var cut := CutAt(rem, '/');
        NavigateStep(relPath, dir, rem, cut.0, cut.1);
        if cut.0 != [] {
          NavigateLookup(root, dir, cut.0, Segments(cut.1));
          if cut.0 !in Lookup(root, dir).value.subDirs {
            return None;
          }
          dir := dir + [cut.0];
        }
        rem := cut.1;
      }
      assert dir + [] == dir;
      return Some(dir);
    }

    /** `moveFile` into the directory at `target`, which `navigateToPath` found. */
    method MoveFile(name: string, target: seq<string>) returns (st: Status)
      requires Valid() && Lookup(root, target).Some?
      modifies this`root
      ensures Valid()
      ensures st == if name !in old(Cwd()).files then NotFound
                    else if InUse(old(Lookup(root, target).value), name) then TargetInUse
                    else Done
      ensures st == Done ==> root == FileMoved(old(root), cursor, name, target).value
      ensures st != Done ==> root == old(root)
    {
      var d := Cwd();
      if name !in d.files {
        return NotFound;
      }
      var dst := Lookup(root, target).value;
      if name in dst.files || name in dst.subDirs {
        return TargetInUse;
      }
      FileMovedValid(root, cursor, name, target);
      var dst' := dst.(files := dst.files[name := d.files[name]]);
      Survives(root, target, dst', cursor);
      root := UpdateAt(root, target, dst');
      var here := Lookup(root, cursor).value;
      root := UpdateAt(root, cursor, here.(files := here.files - {name}));
      st := Done;
    }

    /** `moveDirectory` into the directory at `target`; a move into the moved subtree itself is excluded. */
    method MoveDirectory(name: string, target: seq<string>) returns (st: Status)
      requires Valid() && Lookup(root, target).Some?
      requires name in Cwd().subDirs && !InUse(Lookup(root, target).value, name) ==> !(cursor + [name] <= target)
      modifies this`root
      ensures Valid()
      ensures st == if name !in old(Cwd()).subDirs then NotFound
                    else if InUse(old(Lookup(root, target).value), name) then TargetInUse
                    else Done
      ensures st == Done ==> root == DirMoved(old(root), cursor, name, target).value
      ensures st != Done ==> root == old(root)
    {
      var d := Cwd();
      if name !in d.subDirs {
        return NotFound;
      }
      var dst := Lookup(root, target).value;
      if name in dst.subDirs || name in dst.files {
        return TargetInUse;
      }
      DirMovedValid(root, cursor, name, target);
      var dst' := dst.(subDirs := dst.subDirs[name := d.subDirs[name]]);
      Survives(root, target, dst', cursor);
      root := UpdateAt(root, target, dst');
      var here := Lookup(root, cursor).value;
      root := UpdateAt(root, cursor, here.(subDirs := here.subDirs - {name}));
      st := Done;
    }

    /** `copyFile` into the directory at `target`: same name and content, both stamps `now`. */
    method CopyFile(name: string, target: seq<string>, now: string) returns (st: Status)
      requires Valid() && Lookup(root, target).Some?
      modifies this`root
      ensures Valid()
      ensures st == if name !in old(Cwd()).files then NotFound
                    else if InUse(old(Lookup(root, target).value), name) then TargetInUse
                    else Done
      ensures st == Done ==> root == FileCopied(old(root), cursor, name, target, now).value
      ensures st != Done ==> root == old(root)
    {
      var d := Cwd();
      if name !in d.files {
        return NotFound;
      }
      var dst := Lookup(root, target).value;
      if name in dst.files || name in dst.subDirs {
        return TargetInUse;
      }
      CopiedValid(root, cursor, name, target, now);
      var orig := d.files[name];
      var copy := File(orig.name, orig.content, now, now);
      root := UpdateAt(root, target, dst.(files := dst.files[name := copy]));
      st := Done;
    }

    /** `copyDirectory` into the directory at `target`, by way of `copyDirectoryHelper`. */
    method CopyDirectory(name: string, target: seq<string>, now: string) returns (st: Status)
      requires Valid() && Lookup(root, target).Some?
      modifies this`root
      ensures Valid()
      ensures st == if name !in old(Cwd()).subDirs then NotFound
                    else if InUse(old(Lookup(root, target).value), name) then TargetInUse
                    else Done
      ensures st == Done ==> root == DirCopied(old(root), cursor, name, target, now).value
      ensures st != Done ==> root == old(root)
    {
      var d := Cwd();
      if name !in d.subDirs {
        return NotFound;
      }
      var dst := Lookup(root, target).value;
      if name in dst.subDirs || name in dst.files {
        return TargetInUse;
      }
      CopiedValid(root, cursor, name, target, now);
      Codec.WellKeyedLookup(root, cursor);
      var dst' := CopyDirectoryHelper(d.subDirs[name], dst, now);
      root := UpdateAt(root, target, dst');
      st := Done;
    }

    /** The file loop of `copyDirectoryHelper`: each file of `orig` again under its key, restamped `now`. */
    method CopyFiles(orig: Dir, now: string) returns (files: map<string, File>)
      ensures files == Clone(orig, now).files
    {
      files := map[];
      var pending := orig.files.Keys;
      while pending != {}
        invariant pending <= orig.files.Keys
        invariant files.Keys == orig.files.Keys - pending
        invariant forall k :: k in files ==> files[k] == Restamped(orig.files[k], now)
        decreases |pending|
      {
        var k :| k in pending;
        var f := orig.files[k];
        files := files[k := File(f.name, f.content, now, now)];
        pending := pending - {k};
      }
    }

    /**
     * `copyDirectoryHelper`: a fresh directory named like `orig` receives a restamped copy of
     * each file and, recursively, of each subdirectory, and is then stored in `target` under
     * that name.
     */
    method CopyDirectoryHelper(orig: Dir, target: Dir, now: string) returns (out: Dir)
      requires WellKeyed(orig)
      ensures out == target.(subDirs := target.subDirs[orig.name := Clone(orig, now)])
      decreases orig, 1
    {
      var files := CopyFiles(orig, now);
      var copy := CopySubDirs(orig, EmptyDir(orig.name).(files := files), now);
      out := target.(subDirs := target.subDirs[orig.name := copy]);
    }

    /** The subdirectory loop of `copyDirectoryHelper`: `copy`, holding the copied files, receives a copy of each subdirectory. */
    method CopySubDirs(orig: Dir, copy: Dir, now: string) returns (out: Dir)
      requires WellKeyed(orig)
      requires copy.name == orig.name && copy.files == Clone(orig, now).files && copy.subDirs == map[]
      ensures out == Clone(orig, now)
      decreases orig, 0
    {
      ghost var want := Clone(orig, now);
      out := copy;
      var pending := orig.subDirs.Keys;
      while pending != {}
        invariant pending <= orig.subDirs.Keys
        invariant out.name == want.name && out.files == want.files
        invariant out.subDirs.Keys == orig.subDirs.Keys - pending
        invariant forall k :: k in out.subDirs ==> out.subDirs[k] == want.subDirs[k]
        decreases |pending|
      {
        var k :| k in pending;
        var child := orig.subDirs[k];
        assert child.name == k && WellKeyed(child);
        assert want.subDirs[k] == Clone(child, now);
        out := CopyDirectoryHelper(child, out, now);
        pending := pending - {k};
      }
      assert out.subDirs == want.subDirs;
    }
  }
}
