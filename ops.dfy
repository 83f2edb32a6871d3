/**
 * What each operation of `FileSystem` (filesystem.cpp) does to the tree, as functions on
 * values: the edits of the cursor directory, the moves and copies between two directories,
 * the comma-splitting of `batchCreateFiles`, the cursor moves of `changeDirectory` and the
 * wipe of `deleteAll`. The class in module Simulator performs these changes in place and is
 * specified by them; the lemmas here state what the source promises about them.
 */
module Ops {

  import opened Options
  import opened Text
  import opened Tree
  import Codec

  /*──────────────────────── the tree around an edit ────────────────────────*/

  /** The tree after an edit at `p` that the operation may refuse (None: nothing changes). */
  function Put(t: Dir, p: seq<string>, o: Option<Dir>): Dir
  {
    match o
    case None => t
    case Some(n) => UpdateAt(t, p, n)
  }

  /** `b` still holds the child `a` reaches through `k`, unchanged. */
  predicate KeepsChild(a: Dir, b: Dir, k: string)
  {
    k in a.subDirs ==> k in b.subDirs && b.subDirs[k] == a.subDirs[k]
  }

  /** Same directory at this level: name, files and the names of the subdirectories. */
  predicate SameLevel(a: Dir, b: Dir)
  {
    a.name == b.name && a.files == b.files && a.subDirs.Keys == b.subDirs.Keys
  }

  lemma LookupPrefix(t: Dir, p: seq<string>, q: seq<string>)
    requires Lookup(t, p).Some? && q <= p
    ensures Lookup(t, q).Some?
  {
    assert p == q + p[|q|..];
    LookupConcat(t, q, p[|q|..]);
  }

  /** Every directory on the way to an existing one exists. */
  lemma LookupPrefixes(t: Dir, p: seq<string>, q: seq<string>)
    requires Lookup(t, p).Some?
    ensures q <= p ==> Lookup(t, q).Some?
  {
    if q <= p {
      LookupPrefix(t, p, q);
    }
  }

  /** A path that does not pass through the child `k` of `p` leaves `p` by another child, if at all. */
  lemma OffChild(p: seq<string>, k: string, q: seq<string>)
    requires !(p + [k] <= q)
    ensures p < q ==> q[|p|] != k
  {
    if p < q {
      assert q[..|p| + 1] == p + [q[|p|]];
    }
  }

  /** Strictly above a replacement a directory keeps its level, and every child off the way down. */
  lemma {:induction false} UpdateAtAbove(t: Dir, p: seq<string>, n: Dir, q: seq<string>)
    requires Lookup(t, p).Some? && q < p
    ensures Lookup(t, q).Some? && Lookup(UpdateAt(t, p, n), q).Some?
    ensures var a, b := Lookup(t, q).value, Lookup(UpdateAt(t, p, n), q).value;
      && SameLevel(a, b)
      && forall k :: k in a.subDirs && k != p[|q|] ==> b.subDirs[k] == a.subDirs[k]
    decreases |q|
  {
    if q != [] {
      assert q[1..] < p[1..];
      UpdateAtAbove(t.subDirs[p[0]], p[1..], n, q[1..]);
    }
  }

  /**
   * A replacement at `p` leaves every other existing directory in place: one not above `p` is
   * untouched, provided the replacement keeps the child through which it is reached, and one
   * above `p` keeps its level.
   */
  lemma Survives(t: Dir, p: seq<string>, n: Dir, q: seq<string>)
    requires Lookup(t, p).Some? && Lookup(t, q).Some? && p != q
    requires p < q ==> KeepsChild(Lookup(t, p).value, n, q[|p|])
    ensures Lookup(UpdateAt(t, p, n), q).Some?
    ensures SameLevel(Lookup(t, q).value, Lookup(UpdateAt(t, p, n), q).value)
    ensures !(q < p) ==> Lookup(UpdateAt(t, p, n), q) == Lookup(t, q)
  {
    if q < p {
      UpdateAtAbove(t, p, n, q);
    } else if p < q {
      var r := q[|p|..];
      assert q == p + r;
      LookupConcat(t, p, r);
      LookupBelow(t, p, n, r);
    } else {
      LookupElsewhere(t, p, n, q);
    }
  }

  /** A replacement by a directory of the same name keeps the root's name. */
  lemma UpdateAtName(t: Dir, p: seq<string>, n: Dir)
    requires Lookup(t, p).Some? && n.name == Lookup(t, p).value.name
    ensures UpdateAt(t, p, n).name == t.name
  {
  }

  /** What a replacement at `p` keeps WellKeyed and Unique. */
  lemma ReplaceValid(t: Dir, p: seq<string>, n: Dir)
    requires WellKeyed(t) && Unique(t) && Lookup(t, p).Some?
    requires WellKeyed(n) && Unique(n) && n.name == Lookup(t, p).value.name
    ensures var u := UpdateAt(t, p, n); WellKeyed(u) && Unique(u) && u.name == t.name && Lookup(u, p) == Some(n)
  {
    UpdateAtWellKeyed(t, p, n);
    UpdateAtUnique(t, p, n);
    LookupUpdateAt(t, p, n);
  }

  /*──────────────────────── edits of the cursor directory ────────────────────────*/

  /** `makeDirectory`: one new empty subdirectory, or None when the name is taken by either kind. */
  function WithNewDir(d: Dir, name: string): (r: Option<Dir>)
    ensures r.None? <==> InUse(d, name)
    ensures r.Some? ==>
      && r.value.name == d.name && r.value.files == d.files
      && r.value.subDirs.Keys == d.subDirs.Keys + {name}
      && r.value.subDirs[name] == EmptyDir(name)
      && (forall k :: k in d.subDirs ==> r.value.subDirs[k] == d.subDirs[k])
    ensures r.Some? && WellKeyed(d) ==> WellKeyed(r.value)
    ensures r.Some? && Unique(d) ==> Unique(r.value)
  {
    if InUse(d, name) then None else Some(d.(subDirs := d.subDirs[name := EmptyDir(name)]))
  }

  /** `createFile`: one new file as `File::File` makes it, or None when the name is taken by either kind. */
  function WithNewFile(d: Dir, name: string, now: string): (r: Option<Dir>)
    ensures r.None? <==> InUse(d, name)
    ensures r.Some? ==>
      && r.value.name == d.name && r.value.subDirs == d.subDirs
      && r.value.files.Keys == d.files.Keys + {name}
      && (forall k :: k in d.files ==> r.value.files[k] == d.files[k])
      && var f := r.value.files[name];
         f.name == name && f.content == "" && f.createdAt == now && f.modifiedAt == now
    ensures r.Some? && WellKeyed(d) ==> WellKeyed(r.value)
    ensures r.Some? && Unique(d) ==> Unique(r.value)
  {
    if InUse(d, name) then None else Some(d.(files := d.files[name := NewFile(name, now)]))
  }

  /** `deleteFileByName`: the named file is erased, or None when there is no file of that name. */
  function WithoutFile(d: Dir, name: string): (r: Option<Dir>)
    ensures r.None? <==> name !in d.files
    ensures r.Some? ==>
      && r.value.name == d.name && r.value.subDirs == d.subDirs
      && r.value.files.Keys == d.files.Keys - {name}
      && (forall k :: k in r.value.files ==> r.value.files[k] == d.files[k])
    ensures r.Some? && WellKeyed(d) ==> WellKeyed(r.value)
    ensures r.Some? && Unique(d) ==> Unique(r.value)
  {
    if name in d.files then Some(d.(files := d.files - {name})) else None
  }

  /** `deleteDirectoryByName`: the named subtree is dropped, or None when there is no subdirectory of that name. */
  function WithoutDir(d: Dir, name: string): (r: Option<Dir>)
    ensures r.None? <==> name !in d.subDirs
    ensures r.Some? ==>
      && r.value.name == d.name && r.value.files == d.files
      && r.value.subDirs.Keys == d.subDirs.Keys - {name}
      && (forall k :: k in r.value.subDirs ==> r.value.subDirs[k] == d.subDirs[k])
    ensures r.Some? && WellKeyed(d) ==> WellKeyed(r.value)
    ensures r.Some? && Unique(d) ==> Unique(r.value)
  {
    if name in d.subDirs then Some(d.(subDirs := d.subDirs - {name})) else None
  }

  /**
   * `renameDirectory`: the same subtree is stored under `newN` with its name set to `newN`
   * and `oldN` is gone; None when `oldN` is no subdirectory or `newN` is taken (so also when
   * `newN == oldN`).
   */
  function DirRenamed(d: Dir, oldN: string, newN: string): (r: Option<Dir>)
    ensures r.None? <==> oldN !in d.subDirs || InUse(d, newN)
    ensures r.Some? ==>
      && r.value.name == d.name && r.value.files == d.files
      && r.value.subDirs.Keys == d.subDirs.Keys - {oldN} + {newN}
      && r.value.subDirs[newN] == d.subDirs[oldN].(name := newN)
      && (forall k :: k in d.subDirs && k != oldN ==> r.value.subDirs[k] == d.subDirs[k])
    ensures r.Some? && WellKeyed(d) ==> WellKeyed(r.value)
    ensures r.Some? && Unique(d) ==> Unique(r.value)
  {
    if oldN !in d.subDirs || InUse(d, newN) then None
    else
      var c := d.subDirs[oldN];
      var moved := c.(name := newN);
      assert moved.subDirs == c.subDirs && moved.files == c.files;
      assert Unique(d) ==> Unique(c);
      assert WellKeyed(d) ==> WellKeyed(c);
      Some(d.(subDirs := d.subDirs[newN := moved] - {oldN}))
  }

  /** `renameFile`: the same file is stored under `newN` with its name set to `newN`; refused as for directories. */
  function FileRenamed(d: Dir, oldN: string, newN: string): (r: Option<Dir>)
    ensures r.None? <==> oldN !in d.files || InUse(d, newN)
    ensures r.Some? ==>
      && r.value.name == d.name && r.value.subDirs == d.subDirs
      && r.value.files.Keys == d.files.Keys - {oldN} + {newN}
      && r.value.files[newN] == d.files[oldN].(name := newN)
      && (forall k :: k in d.files && k != oldN ==> r.value.files[k] == d.files[k])
    ensures r.Some? && WellKeyed(d) ==> WellKeyed(r.value)
    ensures r.Some? && Unique(d) ==> Unique(r.value)
  {
    if oldN !in d.files || InUse(d, newN) then None
    else Some(d.(files := d.files[newN := d.files[oldN].(name := newN)] - {oldN}))
  }

  /**
   * `writeFile`: the content is replaced by `text` or has `text` appended, `modifiedAt`
   * becomes `now` and `createdAt` stays; None when there is no file of that name.
   */
  function Written(d: Dir, name: string, text: string, append: bool, now: string): (r: Option<Dir>)
    ensures r.None? <==> name !in d.files
    ensures r.Some? ==>
      && r.value.name == d.name && r.value.subDirs == d.subDirs
      && r.value.files.Keys == d.files.Keys
      && (forall k :: k in d.files && k != name ==> r.value.files[k] == d.files[k])
      && var f, g := d.files[name], r.value.files[name];
         && g.name == f.name && g.createdAt == f.createdAt && g.modifiedAt == now
         && g.content == (if append then f.content + text else text)
    ensures r.Some? && WellKeyed(d) ==> WellKeyed(r.value)
    ensures r.Some? && Unique(d) ==> Unique(r.value)
  {
    if name !in d.files then None
    else
      var f := d.files[name];
      var content := if append then f.content + text else text;
      Some(d.(files := d.files[name := f.(content := content, modifiedAt := now)]))
  }

  /** Creating a file and deleting it again gives the directory back. */
  lemma NewFileThenDelete(d: Dir, name: string, now: string)
    requires !InUse(d, name)
    ensures WithoutFile(WithNewFile(d, name, now).value, name) == Some(d)
  {
    assert d.files[name := NewFile(name, now)] - {name} == d.files;
  }

  /** Creating a directory and deleting it again gives the directory back. */
  lemma NewDirThenDelete(d: Dir, name: string)
    requires !InUse(d, name)
    ensures WithoutDir(WithNewDir(d, name).value, name) == Some(d)
  {
    assert d.subDirs[name := EmptyDir(name)] - {name} == d.subDirs;
  }

  /** Renaming a subdirectory and renaming it back gives the directory back. */
  lemma DirRenamedBack(d: Dir, oldN: string, newN: string)
    requires oldN in d.subDirs && oldN !in d.files && d.subDirs[oldN].name == oldN
    requires !InUse(d, newN)
    ensures DirRenamed(DirRenamed(d, oldN, newN).value, newN, oldN) == Some(d)
  {
    var e := DirRenamed(d, oldN, newN).value;
    var back := DirRenamed(e, newN, oldN).value;
    assert back.subDirs == d.subDirs;
  }

  /** Renaming a file and renaming it back gives the directory back. */
  lemma FileRenamedBack(d: Dir, oldN: string, newN: string)
    requires oldN in d.files && oldN !in d.subDirs && d.files[oldN].name == oldN
    requires !InUse(d, newN)
    ensures FileRenamed(FileRenamed(d, oldN, newN).value, newN, oldN) == Some(d)
  {
    var e := FileRenamed(d, oldN, newN).value;
    var back := FileRenamed(e, newN, oldN).value;
    assert back.files == d.files;
  }

  /** Of two overwrites, the second decides the file. */
  lemma OverwriteTwice(d: Dir, name: string, a: string, b: string, now: string, later: string)
    requires name in d.files
    ensures Written(Written(d, name, a, false, now).value, name, b, false, later) == Written(d, name, b, false, later)
  {
    var f := d.files[name];
    assert d.files[name := f.(content := a, modifiedAt := now)][name := f.(content := b, modifiedAt := later)]
        == d.files[name := f.(content := b, modifiedAt := later)];
  }

  /** Two appends are one append of both texts. */
  lemma AppendTwice(d: Dir, name: string, a: string, b: string, now: string, later: string)
    requires name in d.files
    ensures Written(Written(d, name, a, true, now).value, name, b, true, later) == Written(d, name, a + b, true, later)
  {
    var f := d.files[name];
    assert (f.content + a) + b == f.content + (a + b);
    assert d.files[name := f.(content := f.content + a, modifiedAt := now)][name := f.(content := (f.content + a) + b, modifiedAt := later)]
        == d.files[name := f.(content := f.content + (a + b), modifiedAt := later)];
  }

  /*──────────────────────── batchCreateFiles ────────────────────────*/

  /**
   * The names `batchCreateFiles` hands to `createFile`: while a ',' remains, the piece before
   * the first one, which is then erased with the comma; at the end what remains, unless empty.
   */
  function BatchNames(input: string): seq<string>
    decreases |input|
  {
    var i := IndexOf(input, ',');
    if i < |input| then [input[..i]] + BatchNames(input[i + 1..])
    else if input == [] then []
    else [input]
  }

  /** A list of pieces without an empty last one. */
  function DropEmptyLast(ps: seq<string>): seq<string>
    requires |ps| >= 1
  {
    if ps[|ps| - 1] == [] then ps[..|ps| - 1] else ps
  }

  /** The names are the comma-separated pieces of the input, less an empty last piece. */
  lemma {:induction false} BatchNamesSplit(input: string)
    ensures BatchNames(input) == DropEmptyLast(Split(input, ','))
    decreases |input|
  {
    var i := IndexOf(input, ',');
    if i < |input| {
      var x, rest := input[..i], input[i + 1..];
      var ps := Split(rest, ',');
      assert BatchNames(rest) == DropEmptyLast(ps) by {
        BatchNamesSplit(rest);
      }
      assert BatchNames(input) == [x] + BatchNames(rest) by {
        BatchNamesCut(input);
      }
      assert Split(input, ',') == [x] + ps by {
        SplitCut(input);
      }
      assert DropEmptyLast([x] + ps) == [x] + DropEmptyLast(ps) by {
        DropEmptyLastCons(x, ps);
      }
    } else {
      assert Split(input, ',') == [input];
    }
  }

  lemma SplitCut(input: string)
    requires IndexOf(input, ',') < |input|
    ensures Split(input, ',') == [input[..IndexOf(input, ',')]] + Split(input[IndexOf(input, ',') + 1..], ',')
  {
  }

  /** Dropping an empty last piece commutes with one more piece in front. */
  lemma DropEmptyLastCons(x: string, ps: seq<string>)
    requires |ps| >= 1
    ensures DropEmptyLast([x] + ps) == [x] + DropEmptyLast(ps)
  {
    var all := [x] + ps;
    assert all[..|all| - 1] == [x] + ps[..|ps| - 1];
  }

  /** One more piece taken off the front of the input that remains. */
  lemma BatchNamesStep(input: string, done: seq<string>, rest: string)
    requires IndexOf(rest, ',') < |rest| && BatchNames(input) == done + BatchNames(rest)
    ensures BatchNames(input) == (done + [rest[..IndexOf(rest, ',')]]) + BatchNames(rest[IndexOf(rest, ',') + 1..])
  {
    var i := IndexOf(rest, ',');
    var x, more := rest[..i], BatchNames(rest[i + 1..]);
    assert BatchNames(rest) == [x] + more by {
      BatchNamesCut(rest);
    }
    assert done + ([x] + more) == (done + [x]) + more;
  }

  lemma BatchNamesCut(rest: string)
    requires IndexOf(rest, ',') < |rest|
    ensures BatchNames(rest) == [rest[..IndexOf(rest, ',')]] + BatchNames(rest[IndexOf(rest, ',') + 1..])
  {
  }

  /** The last piece, once no ',' remains. */
  lemma BatchNamesEnd(input: string, done: seq<string>, rest: string)
    requires IndexOf(rest, ',') == |rest| && BatchNames(input) == done + BatchNames(rest)
    ensures BatchNames(input) == done + (if rest == [] then [] else [rest])
  {
  }

  lemma {:induction false} JoinSnoc(ps: seq<string>, x: string, c: char)
    requires |ps| >= 1
    ensures Join(ps + [x], c) == Join(ps, c) + [c] + x
    decreases |ps|
  {
    if |ps| == 1 {
      assert (ps + [x])[1..] == [x];
    } else {
      assert (ps + [x])[1..] == ps[1..] + [x];
      JoinSnoc(ps[1..], x, c);
    }
  }

  /**
   * The names are the comma-separated pieces of the input and nothing else: none holds a
   * comma, joined with commas they give the input back (up to a comma ending it), and there
   * are none exactly when the input is empty.
   */
  lemma BatchNamesPieces(input: string)
    ensures forall i :: 0 <= i < |BatchNames(input)| ==> ',' !in BatchNames(input)[i]
    ensures BatchNames(input) == [] <==> input == []
    ensures BatchNames(input) != [] ==>
      Join(BatchNames(input), ',') == input || Join(BatchNames(input), ',') + [','] == input
  {
    BatchNamesSplit(input);
    var ps := Split(input, ',');
    SplitJoin(input, ',');
    if ps[|ps| - 1] == [] && |ps| >= 2 {
      var front := ps[..|ps| - 1];
      assert ps == front + [[]];
      JoinSnoc(front, [], ',');
      assert Join(ps, ',') == Join(front, ',') + [','];
    }
  }

  /** One `createFile` from a batch: a taken name leaves the directory as it is. */
  function CreateOrKeep(d: Dir, name: string, now: string): Dir
  {
    match WithNewFile(d, name, now)
    case None => d
    case Some(e) => e
  }

  /** `createFile` on each name in turn. */
  function CreateAll(d: Dir, names: seq<string>, now: string): (r: Dir)
    ensures r.name == d.name && r.subDirs == d.subDirs
    ensures WellKeyed(d) ==> WellKeyed(r)
    ensures Unique(d) ==> Unique(r)
    decreases |names|
  {
    if names == [] then d else CreateAll(CreateOrKeep(d, names[0], now), names[1..], now)
  }

  lemma {:induction false} CreateAllSnoc(d: Dir, names: seq<string>, x: string, now: string)
    ensures CreateAll(d, names + [x], now) == CreateOrKeep(CreateAll(d, names, now), x, now)
    decreases |names|
  {
    if names == [] {
      assert [] + [x] == [x];
    } else {
      assert (names + [x])[1..] == names[1..] + [x];
      CreateAllSnoc(CreateOrKeep(d, names[0], now), names[1..], x, now);
    }
  }

  /**
   * After a batch exactly the names already used by files or listed in the batch and not used
   * by a subdirectory are files; existing files stay as they were and each new one is fresh.
   */
  lemma {:induction false} CreateAllEffect(d: Dir, names: seq<string>, now: string)
    ensures var r := CreateAll(d, names, now);
      && (forall k :: k in r.files <==> k in d.files || (k in names && k !in d.subDirs))
      && (forall k :: k in d.files ==> r.files[k] == d.files[k])
      && (forall k :: k in r.files && k !in d.files ==> r.files[k] == NewFile(k, now))
    decreases |names|
  {
    if names != [] {
      var e := CreateOrKeep(d, names[0], now);
      CreateAllEffect(e, names[1..], now);
      assert forall k :: k in names <==> k == names[0] || k in names[1..] by {
        assert names == [names[0]] + names[1..];
      }
    }
  }

  /*──────────────────────── deleteAll ────────────────────────*/

  /** `tolower(confirm) == 'y'`. */
  predicate Confirmed(confirm: char)
  {
    confirm == 'y' || confirm == 'Y'
  }

  /** The root and cursor after `deleteAll`, corrected to return the cursor to the emptied root. */
  function Wiped(t: Dir, cursor: seq<string>, confirm: char): (r: (Dir, seq<string>))
    ensures Confirmed(confirm) ==> r.0.name == t.name && r.0.subDirs == map[] && r.0.files == map[] && r.1 == []
    ensures !Confirmed(confirm) ==> r == (t, cursor)
  {
    if Confirmed(confirm) then (EmptyDir(t.name), []) else (t, cursor)
  }

  /** `deleteAll` as filesystem.cpp:375-398 writes it: the root is emptied and `curr` is left where it was. */
  function WipedAsWritten(t: Dir, cursor: seq<string>, confirm: char): (r: (Dir, seq<string>))
    ensures r.1 == cursor
  {
    if Confirmed(confirm) then (EmptyDir(t.name), cursor) else (t, cursor)
  }

  /** With the cursor below the root, the original leaves it at a directory that no longer exists. */
  lemma WipedAsWrittenDangles()
    ensures var t := Dir("root", map["a" := EmptyDir("a")], map[]);
      && Lookup(t, ["a"]).Some?
      && var r := WipedAsWritten(t, ["a"], 'y'); Lookup(r.0, r.1).None?
  {
  }

  /** The corrected wipe always leaves the cursor at an existing directory, and a valid tree. */
  lemma WipedResolves(t: Dir, cursor: seq<string>, confirm: char)
    requires Lookup(t, cursor).Some? && WellKeyed(t) && Unique(t)
    ensures var r := Wiped(t, cursor, confirm); Lookup(r.0, r.1).Some? && WellKeyed(r.0) && Unique(r.0)
  {
  }

  /*──────────────────────── changeDirectory ────────────────────────*/

  /** Where `changeDirectory` leaves `curr`: unchanged, at a directory, or null. */
  datatype Landing = Stay | At(path: seq<string>) | Nowhere

  /** The list `changeDirectory` numbers: the subdirectories in key order, then ".." below the root. */
  ghost function Choices(d: Dir, cursor: seq<string>): (r: seq<string>)
    ensures |r| == |d.subDirs| + (if cursor == [] then 0 else 1)
  {
    SortedKeys(d.subDirs.Keys) + (if cursor == [] then [] else [".."])
  }

  /**
   * The corrected `changeDirectory` from the directory `d` at `cursor`: the entry numbered
   * `choice` is decided by its position, so only the extra last entry means the parent.
   */
  ghost function Landed(d: Dir, cursor: seq<string>, choice: int): (r: Landing)
    ensures r != Nowhere
    ensures r.At? ==>
      || (|r.path| == |cursor| + 1 && r.path[..|cursor|] == cursor && r.path[|cursor|] in d.subDirs)
      || (cursor != [] && r.path == cursor[..|cursor| - 1])
    ensures r.At? <==> 1 <= choice <= |Choices(d, cursor)|
  {
    var ks := SortedKeys(d.subDirs.Keys);
    if choice < 1 || choice > |Choices(d, cursor)| then Stay
    else if choice <= |ks| then
      assert ks[choice - 1] in d.subDirs.Keys;
      At(cursor + [ks[choice - 1]])
    else At(cursor[..|cursor| - 1])
  }

  /** `changeDirectory` as filesystem.cpp:265-270 writes it: the selected entry is the parent when its text is "..". */
  ghost function LandedAsWritten(d: Dir, cursor: seq<string>, choice: int): (r: Landing)
    ensures r.Nowhere? ==> cursor == []
  {
    var names := Choices(d, cursor);
    if choice < 1 || choice > |names| then Stay
    else if names[choice - 1] == ".." then (if cursor == [] then Nowhere else At(cursor[..|cursor| - 1]))
    else At(cursor + [names[choice - 1]])
  }

  /** Without a subdirectory named "..", the original and the corrected selections agree. */
  lemma LandedAgrees(d: Dir, cursor: seq<string>, choice: int)
    requires ".." !in d.subDirs
    ensures LandedAsWritten(d, cursor, choice) == Landed(d, cursor, choice)
  {
    var ks := SortedKeys(d.subDirs.Keys);
    if 1 <= choice <= |ks| {
      assert ks[choice - 1] in d.subDirs.Keys;
      assert Choices(d, cursor)[choice - 1] == ks[choice - 1];
    }
  }

  /** At the root, selecting a subdirectory named ".." makes the original set `curr` to null. */
  lemma LandedAsWrittenLosesCursor()
    ensures var d := Dir("root", map[".." := EmptyDir("..")], map[]);
      LandedAsWritten(d, [], 1) == Nowhere && Landed(d, [], 1) == At([".."])
  {
    var d := Dir("root", map[".." := EmptyDir("..")], map[]);
    var ks := SortedKeys(d.subDirs.Keys);
    assert ks[0] in d.subDirs.Keys;
    assert Choices(d, []) == ks;
  }

  /** The corrected selection always lands on an existing directory. */
  lemma LandedResolves(t: Dir, cursor: seq<string>, choice: int)
    requires Lookup(t, cursor).Some?
    ensures var r := Landed(Lookup(t, cursor).value, cursor, choice); r.At? ==> Lookup(t, r.path).Some?
  {
    var r := Landed(Lookup(t, cursor).value, cursor, choice);
    if r.At? {
      if |r.path| == |cursor| + 1 {
        assert r.path == cursor + [r.path[|cursor|]];
        LookupConcat(t, cursor, [r.path[|cursor|]]);
      } else {
        LookupPrefix(t, cursor, r.path);
      }
    }
  }

  /*──────────────────────── searchFiles ────────────────────────*/

  /** The names among `ks` that contain `pattern`, in the order of `ks`. */
  function Matching(ks: seq<string>, pattern: string): (r: seq<string>)
    ensures forall x :: x in r <==> x in ks && Contains(x, pattern)
  {
    if ks == [] then [] else (if Contains(ks[0], pattern) then [ks[0]] else []) + Matching(ks[1..], pattern)
  }

  lemma {:induction false} MatchingSnoc(ks: seq<string>, k: string, pattern: string)
    ensures Matching(ks + [k], pattern) == Matching(ks, pattern) + (if Contains(k, pattern) then [k] else [])
  {
    if ks == [] {
      assert [] + [k] == [k];
      assert ([k])[1..] == [];
    } else {
      assert (ks + [k])[1..] == ks[1..] + [k];
      MatchingSnoc(ks[1..], k, pattern);
    }
  }

  /** Picking names out of an ascending list keeps them ascending. */
  lemma {:induction false} MatchingAscending(ks: seq<string>, pattern: string)
    requires Ascending(ks)
    ensures Ascending(Matching(ks, pattern))
  {
    if ks != [] {
      var tail := Matching(ks[1..], pattern);
      assert Ascending(ks[1..]) by {
        forall i, j | 0 <= i < j < |ks[1..]| ensures Less(ks[1..][i], ks[1..][j]) {
          assert ks[1..][i] == ks[i + 1] && ks[1..][j] == ks[j + 1];
        }
      }
      MatchingAscending(ks[1..], pattern);
      if Contains(ks[0], pattern) {
        var r := [ks[0]] + tail;
        forall i, j | 0 <= i < j < |r| ensures Less(r[i], r[j]) {
          if i == 0 {
            assert r[j] == tail[j - 1] && r[j] in ks[1..];
            var m :| 0 <= m < |ks[1..]| && ks[1..][m] == r[j];
            assert ks[m + 1] == r[j];
          } else {
            assert r[i] == tail[i - 1] && r[j] == tail[j - 1];
          }
        }
      }
    }
  }

  /** The keys of a map in `std::map` order, as the loops over children collect them. */
  method SortedNames(s: set<string>) returns (ks: seq<string>)
    ensures ks == SortedKeys(s)
  {
    ks := [];
    var pending := s;
    assert [] + SortedKeys(s) == SortedKeys(s);
    while pending != {}
      invariant ks + SortedKeys(pending) == SortedKeys(s)
      decreases |pending|
    {
      LeastExists(pending);
      var k :| IsLeast(k, pending);
      Codec.NextKey(s, pending, ks, k);
      ks := ks + [k];
      pending := pending - {k};
    }
    assert ks + [] == ks;
  }

  /*──────────────────────── navigateToPath and printPath ────────────────────────*/

  /** One piece of a path walked by `navigateToPath`: an empty piece is skipped, a name is one more step. */
  lemma NavigateStep(relPath: string, dir: seq<string>, rem: string, token: string, next: string)
    requires rem != [] && CutAt(rem, '/') == (token, next) && dir + Segments(rem) == Segments(relPath)
    ensures token == [] ==> dir + Segments(next) == Segments(relPath)
    ensures token != [] ==> (dir + [token]) + Segments(next) == Segments(relPath)
  {
    Codec.WalkTokens(rem, token, next);
    assert Segments(rem) == (if token == [] then [] else [token]) + Segments(next);
    if token == [] {
      assert [] + Segments(next) == Segments(next);
    } else {
      assert dir + ([token] + Segments(next)) == (dir + [token]) + Segments(next);
    }
  }

  /** A step of `navigateToPath` descends when the name is a subdirectory, and otherwise the whole path leads nowhere. */
  lemma NavigateLookup(t: Dir, dir: seq<string>, token: string, rest: seq<string>)
    requires Lookup(t, dir).Some?
    ensures Lookup(t, dir + [token]).Some? <==> token in Lookup(t, dir).value.subDirs
    ensures token !in Lookup(t, dir).value.subDirs ==> Lookup(t, (dir + [token]) + rest).None?
  {
    LookupConcat(t, dir, [token]);
    LookupConcat(t, dir + [token], rest);
  }

  /**
   * The path `printPath` writes for the directory at `p` is "/", the root's name and then a path
   * `navigateToPath` follows back to `p`, as long as no name on the way is empty or holds '/'.
   */
  lemma PrintedPathNavigates(t: Dir, p: seq<string>)
    requires PathName(t.name) && forall i :: 0 <= i < |p| ==> PathName(p[i])
    ensures var s := "/" + t.name + JoinPath(p);
      && Segments(s) == [t.name] + p
      && s[|t.name| + 1..] == JoinPath(p)
      && Segments(s[|t.name| + 1..]) == p
  {
    var q := [t.name] + p;
    assert q[1..] == p;
    assert JoinPath(q) == "/" + t.name + JoinPath(p);
    SegmentsOfJoinPath(q);
    SegmentsOfJoinPath(p);
    var s := "/" + t.name + JoinPath(p);
    assert s[|t.name| + 1..] == JoinPath(p);
  }

  /*──────────────────────── moves and copies between directories ────────────────────────*/

  /**
   * `moveFile`: the file `name` of the directory at `from` is stored in the directory at
   * `to`, then erased from `from`. None when there is no such file or `to` uses the name.
   */
  function FileMoved(t: Dir, from: seq<string>, name: string, to: seq<string>): (r: Option<Dir>)
    requires Lookup(t, from).Some? && Lookup(t, to).Some?
    ensures r.None? <==> name !in Lookup(t, from).value.files || InUse(Lookup(t, to).value, name)
    ensures r.Some? ==> r.value.name == t.name
  {
    var src, dst := Lookup(t, from).value, Lookup(t, to).value;
    if name !in src.files || InUse(dst, name) then None
    else
      var mid := UpdateAt(t, to, dst.(files := dst.files[name := src.files[name]]));
      Survives(t, to, dst.(files := dst.files[name := src.files[name]]), from);
      var here := Lookup(mid, from).value;
      UpdateAtName(mid, from, here.(files := here.files - {name}));
      Some(UpdateAt(mid, from, here.(files := here.files - {name})))
  }

  /**
   * `moveDirectory`: the subtree `name` of the directory at `from` is stored in the directory
   * at `to`, then erased from `from`. The original does not refuse a move into the subtree
   * itself; this model excludes it.
   */
  function DirMoved(t: Dir, from: seq<string>, name: string, to: seq<string>): (r: Option<Dir>)
    requires Lookup(t, from).Some? && Lookup(t, to).Some?
    requires name in Lookup(t, from).value.subDirs && !InUse(Lookup(t, to).value, name) ==> !(from + [name] <= to)
    ensures r.None? <==> name !in Lookup(t, from).value.subDirs || InUse(Lookup(t, to).value, name)
    ensures r.Some? ==> r.value.name == t.name
  {
    var src, dst := Lookup(t, from).value, Lookup(t, to).value;
    if name !in src.subDirs || InUse(dst, name) then None
    else
      var mid := UpdateAt(t, to, dst.(subDirs := dst.subDirs[name := src.subDirs[name]]));
      Survives(t, to, dst.(subDirs := dst.subDirs[name := src.subDirs[name]]), from);
      var here := Lookup(mid, from).value;
      UpdateAtName(mid, from, here.(subDirs := here.subDirs - {name}));
      Some(UpdateAt(mid, from, here.(subDirs := here.subDirs - {name})))
  }

  /** `copyFile`: a copy with the same name and content and fresh stamps `now` goes into the directory at `to`. */
  function FileCopied(t: Dir, from: seq<string>, name: string, to: seq<string>, now: string): (r: Option<Dir>)
    requires Lookup(t, from).Some? && Lookup(t, to).Some?
    ensures r.None? <==> name !in Lookup(t, from).value.files || InUse(Lookup(t, to).value, name)
    ensures r.Some? ==> r.value.name == t.name
  {
    var src, dst := Lookup(t, from).value, Lookup(t, to).value;
    if name !in src.files || InUse(dst, name) then None
    else
      UpdateAtName(t, to, dst.(files := dst.files[name := Restamped(src.files[name], now)]));
      Some(UpdateAt(t, to, dst.(files := dst.files[name := Restamped(src.files[name], now)])))
  }

  /**
   * `copyDirectory`: the deep copy `copyDirectoryHelper` builds goes into the directory at
   * `to`, under the copied directory's own name.
   */
  function DirCopied(t: Dir, from: seq<string>, name: string, to: seq<string>, now: string): (r: Option<Dir>)
    requires Lookup(t, from).Some? && Lookup(t, to).Some?
    ensures r.None? <==> name !in Lookup(t, from).value.subDirs || InUse(Lookup(t, to).value, name)
    ensures r.Some? ==> r.value.name == t.name
  {
    var src, dst := Lookup(t, from).value, Lookup(t, to).value;
    if name !in src.subDirs || InUse(dst, name) then None
    else
      var c := Clone(src.subDirs[name], now);
      UpdateAtName(t, to, dst.(subDirs := dst.subDirs[c.name := c]));
      Some(UpdateAt(t, to, dst.(subDirs := dst.subDirs[c.name := c])))
  }


  /*──────────────────────── what moves and copies do ────────────────────────*/

  /** After `moveFile` the target holds the file and the cursor directory has lost it; nothing else there changes. */
  lemma FileMovedEffect(t: Dir, from: seq<string>, name: string, to: seq<string>)
    requires Lookup(t, from).Some? && Lookup(t, to).Some?
    requires name in Lookup(t, from).value.files && !InUse(Lookup(t, to).value, name)
    ensures var src, dst, r := Lookup(t, from).value, Lookup(t, to).value, FileMoved(t, from, name, to).value;
      && Lookup(r, to).Some? && Lookup(r, from).Some?
      && Lookup(r, to).value.files == dst.files[name := src.files[name]]
      && Lookup(r, to).value.subDirs.Keys == dst.subDirs.Keys
      && Lookup(r, from).value.files == src.files - {name}
      && Lookup(r, from).value.subDirs.Keys == src.subDirs.Keys
  {
    var src, dst := Lookup(t, from).value, Lookup(t, to).value;
    var dst' := dst.(files := dst.files[name := src.files[name]]);
    var mid := UpdateAt(t, to, dst');
    Survives(t, to, dst', from);
    LookupUpdateAt(t, to, dst');
    var here := Lookup(mid, from).value;
    var here' := here.(files := here.files - {name});
    Survives(mid, from, here', to);
    LookupUpdateAt(mid, from, here');
  }

  /** `moveFile` changes no existing directory other than the two it names and those above them. */
  lemma FileMovedFrame(t: Dir, from: seq<string>, name: string, to: seq<string>, q: seq<string>)
    requires Lookup(t, from).Some? && Lookup(t, to).Some?
    requires name in Lookup(t, from).value.files && !InUse(Lookup(t, to).value, name)
    requires Lookup(t, q).Some? && !(q <= from) && !(q <= to)
    ensures Lookup(FileMoved(t, from, name, to).value, q) == Lookup(t, q)
  {
    var src, dst := Lookup(t, from).value, Lookup(t, to).value;
    var dst' := dst.(files := dst.files[name := src.files[name]]);
    var mid := UpdateAt(t, to, dst');
    Survives(t, to, dst', from);
    Survives(t, to, dst', q);
    var here := Lookup(mid, from).value;
    Survives(mid, from, here.(files := here.files - {name}), q);
  }

  lemma FileMovedValid(t: Dir, from: seq<string>, name: string, to: seq<string>)
    requires WellKeyed(t) && Unique(t) && Lookup(t, from).Some? && Lookup(t, to).Some?
    requires name in Lookup(t, from).value.files && !InUse(Lookup(t, to).value, name)
    ensures var r := FileMoved(t, from, name, to).value; WellKeyed(r) && Unique(r) && Lookup(r, from).Some?
  {
    var src, dst := Lookup(t, from).value, Lookup(t, to).value;
    Codec.WellKeyedLookup(t, from);
    Codec.WellKeyedLookup(t, to);
    Codec.UniqueLookup(t, to);
    var dst' := dst.(files := dst.files[name := src.files[name]]);
    ReplaceValid(t, to, dst');
    var mid := UpdateAt(t, to, dst');
    Survives(t, to, dst', from);
    Codec.WellKeyedLookup(mid, from);
    Codec.UniqueLookup(mid, from);
    var here := Lookup(mid, from).value;
    ReplaceValid(mid, from, here.(files := here.files - {name}));
  }

  /**
   * After `moveDirectory` the subtree hangs, unchanged, below the target, which becomes its
   * parent, and the cursor directory has lost it; nothing else there changes.
   */
  lemma DirMovedEffect(t: Dir, from: seq<string>, name: string, to: seq<string>)
    requires Lookup(t, from).Some? && Lookup(t, to).Some?
    requires name in Lookup(t, from).value.subDirs && !InUse(Lookup(t, to).value, name)
    requires !(from + [name] <= to)
    ensures var src, dst, r := Lookup(t, from).value, Lookup(t, to).value, DirMoved(t, from, name, to).value;
      && Lookup(r, to + [name]) == Some(src.subDirs[name])
      && Lookup(r, to).Some? && Lookup(r, from).Some?
      && Lookup(r, to).value.files == dst.files
      && Lookup(r, to).value.subDirs.Keys == dst.subDirs.Keys + {name}
      && Lookup(r, from).value.files == src.files
      && Lookup(r, from).value.subDirs.Keys == src.subDirs.Keys - {name}
  {
    var src, dst := Lookup(t, from).value, Lookup(t, to).value;
    var dst' := dst.(subDirs := dst.subDirs[name := src.subDirs[name]]);
    var mid := UpdateAt(t, to, dst');
    Survives(t, to, dst', from);
    LookupUpdateAt(t, to, dst');
    LookupBelow(t, to, dst', [name]);
    LookupPrefixes(t, from, to + [name]);
    LookupConcat(t, to, [name]);
    var here := Lookup(mid, from).value;
    var here' := here.(subDirs := here.subDirs - {name});
    OffChild(from, name, to);
    assert from != to;
    assert from < to + [name] ==> |from| <= |to| && from == to[..|from|];
    Survives(mid, from, here', to);
    Survives(mid, from, here', to + [name]);
    LookupUpdateAt(mid, from, here');
  }

  /** `moveDirectory` changes no existing directory but the two it names, those above them and the moved subtree's old place. */
  lemma DirMovedFrame(t: Dir, from: seq<string>, name: string, to: seq<string>, q: seq<string>)
    requires Lookup(t, from).Some? && Lookup(t, to).Some?
    requires name in Lookup(t, from).value.subDirs && !InUse(Lookup(t, to).value, name)
    requires !(from + [name] <= to)
    requires Lookup(t, q).Some? && !(q <= from) && !(q <= to) && !(from + [name] <= q)
    ensures Lookup(DirMoved(t, from, name, to).value, q) == Lookup(t, q)
  {
    var src, dst := Lookup(t, from).value, Lookup(t, to).value;
    var dst' := dst.(subDirs := dst.subDirs[name := src.subDirs[name]]);
    var mid := UpdateAt(t, to, dst');
    Survives(t, to, dst', from);
    Survives(t, to, dst', q);
    var here := Lookup(mid, from).value;
    OffChild(from, name, q);
    Survives(mid, from, here.(subDirs := here.subDirs - {name}), q);
  }

  lemma DirMovedValid(t: Dir, from: seq<string>, name: string, to: seq<string>)
    requires WellKeyed(t) && Unique(t) && Lookup(t, from).Some? && Lookup(t, to).Some?
    requires name in Lookup(t, from).value.subDirs && !InUse(Lookup(t, to).value, name)
    requires !(from + [name] <= to)
    ensures var r := DirMoved(t, from, name, to).value; WellKeyed(r) && Unique(r) && Lookup(r, from).Some?
  {
    var src, dst := Lookup(t, from).value, Lookup(t, to).value;
    Codec.WellKeyedLookup(t, from);
    Codec.UniqueLookup(t, from);
    Codec.WellKeyedLookup(t, to);
    Codec.UniqueLookup(t, to);
    var dst' := dst.(subDirs := dst.subDirs[name := src.subDirs[name]]);
    ReplaceValid(t, to, dst');
    var mid := UpdateAt(t, to, dst');
    Survives(t, to, dst', from);
    Codec.WellKeyedLookup(mid, from);
    Codec.UniqueLookup(mid, from);
    var here := Lookup(mid, from).value;
    ReplaceValid(mid, from, here.(subDirs := here.subDirs - {name}));
  }

  /** After `copyFile` the target holds a copy with the same name and content stamped `now`; the original stays. */
  lemma FileCopiedEffect(t: Dir, from: seq<string>, name: string, to: seq<string>, now: string)
    requires Lookup(t, from).Some? && Lookup(t, to).Some?
    requires name in Lookup(t, from).value.files && !InUse(Lookup(t, to).value, name)
    ensures var src, dst, r := Lookup(t, from).value, Lookup(t, to).value, FileCopied(t, from, name, to, now).value;
      && Lookup(r, to).Some? && Lookup(r, from).Some?
      && Lookup(r, to).value.subDirs == dst.subDirs
      && Lookup(r, to).value.files.Keys == dst.files.Keys + {name}
      && (forall k :: k in dst.files ==> Lookup(r, to).value.files[k] == dst.files[k])
      && Lookup(r, from).value.files == src.files
      && var c := Lookup(r, to).value.files[name];
         c.name == src.files[name].name && c.content == src.files[name].content && c.createdAt == now && c.modifiedAt == now
  {
    var src, dst := Lookup(t, from).value, Lookup(t, to).value;
    var dst' := dst.(files := dst.files[name := Restamped(src.files[name], now)]);
    LookupUpdateAt(t, to, dst');
    Survives(t, to, dst', from);
  }

  /** `copyFile` and `copyDirectory` change no existing directory but the target and those above it. */
  lemma CopiedFrame(t: Dir, from: seq<string>, name: string, to: seq<string>, now: string, q: seq<string>)
    requires WellKeyed(t) && Lookup(t, from).Some? && Lookup(t, to).Some?
    requires Lookup(t, q).Some? && !(q <= to)
    ensures FileCopied(t, from, name, to, now).Some? ==> Lookup(FileCopied(t, from, name, to, now).value, q) == Lookup(t, q)
    ensures DirCopied(t, from, name, to, now).Some? ==> Lookup(DirCopied(t, from, name, to, now).value, q) == Lookup(t, q)
  {
    var src, dst := Lookup(t, from).value, Lookup(t, to).value;
    if name in src.files && !InUse(dst, name) {
      Survives(t, to, dst.(files := dst.files[name := Restamped(src.files[name], now)]), q);
    }
    if name in src.subDirs && !InUse(dst, name) {
      Codec.WellKeyedLookup(t, from);
      var c := Clone(src.subDirs[name], now);
      Survives(t, to, dst.(subDirs := dst.subDirs[c.name := c]), q);
    }
  }

  /**
   * After `copyDirectory` the target holds the deep copy under the copied directory's name:
   * the same directories, names and file contents at every level, every file stamped `now`.
   * The original subtree is unchanged unless the target lies inside it.
   */
  lemma DirCopiedEffect(t: Dir, from: seq<string>, name: string, to: seq<string>, now: string)
    requires WellKeyed(t) && Lookup(t, from).Some? && Lookup(t, to).Some?
    requires name in Lookup(t, from).value.subDirs && !InUse(Lookup(t, to).value, name)
    ensures var src, dst, r := Lookup(t, from).value, Lookup(t, to).value, DirCopied(t, from, name, to, now).value;
      && Lookup(r, to + [name]) == Some(Clone(src.subDirs[name], now))
      && Lookup(r, to).Some? && Lookup(r, from).Some?
      && Lookup(r, to).value.files == dst.files
      && Lookup(r, to).value.subDirs.Keys == dst.subDirs.Keys + {name}
      && (!(from + [name] <= to) ==> Lookup(r, from + [name]) == Lookup(t, from + [name]))
  {
    var src, dst := Lookup(t, from).value, Lookup(t, to).value;
    Codec.WellKeyedLookup(t, from);
    var c := Clone(src.subDirs[name], now);
    var dst' := dst.(subDirs := dst.subDirs[c.name := c]);
    LookupUpdateAt(t, to, dst');
    LookupBelow(t, to, dst', [name]);
    Survives(t, to, dst', from);
    LookupConcat(t, from, [name]);
    if !(from + [name] <= to) {
      Survives(t, to, dst', from + [name]);
    }
  }

  lemma CopiedValid(t: Dir, from: seq<string>, name: string, to: seq<string>, now: string)
    requires WellKeyed(t) && Unique(t) && Lookup(t, from).Some? && Lookup(t, to).Some?
    ensures FileCopied(t, from, name, to, now).Some? ==>
      var r := FileCopied(t, from, name, to, now).value; WellKeyed(r) && Unique(r) && Lookup(r, from).Some?
    ensures DirCopied(t, from, name, to, now).Some? ==>
      var r := DirCopied(t, from, name, to, now).value; WellKeyed(r) && Unique(r) && Lookup(r, from).Some?
  {
    var src, dst := Lookup(t, from).value, Lookup(t, to).value;
    Codec.WellKeyedLookup(t, from);
    Codec.UniqueLookup(t, from);
    Codec.WellKeyedLookup(t, to);
    Codec.UniqueLookup(t, to);
    if name in src.files && !InUse(dst, name) {
      var dst' := dst.(files := dst.files[name := Restamped(src.files[name], now)]);
      ReplaceValid(t, to, dst');
      Survives(t, to, dst', from);
    }
    if name in src.subDirs && !InUse(dst, name) {
      var c := Clone(src.subDirs[name], now);
      CloneWellKeyed(src.subDirs[name], now);
      CloneUnique(src.subDirs[name], now);
      var dst' := dst.(subDirs := dst.subDirs[c.name := c]);
      ReplaceValid(t, to, dst');
      Survives(t, to, dst', from);
    }
  }
}
