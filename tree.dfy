/**
 * The entity model of filesystem.h: a `File` and a `Directory` whose subdirectories and files
 * sit in two name-keyed maps. The tree is a value; a directory is addressed by the path of
 * keys that leads to it from the root, which is what the `parent` back-link encodes.
 */
module Tree {

  import opened Options
  import opened Text

  /** `struct File`: name, raw content and two timestamps kept as opaque text. */
  datatype File = File(name: string, content: string, createdAt: string, modifiedAt: string)

  /** `class Directory`: a name and two separately keyed, ordered collections of children. */
  datatype Dir = Dir(name: string, subDirs: map<string, Dir>, files: map<string, File>)

  /** `File::File`: empty content, both timestamps the current time. */
  function NewFile(name: string, now: string): File
  {
    File(name, "", now, now)
  }

  /** `Directory::Directory`: a directory with no children. */
  function EmptyDir(name: string): Dir
  {
    Dir(name, map[], map[])
  }

  /** The collision test every mutating operation makes: the name is taken by either kind. */
  predicate InUse(d: Dir, name: string)
  {
    name in d.subDirs || name in d.files
  }

  /** Every child is stored under its own `name`, at every level. */
  ghost predicate WellKeyed(d: Dir)
  {
    && (forall k :: k in d.files ==> d.files[k].name == k)
    && (forall k :: k in d.subDirs ==> d.subDirs[k].name == k && WellKeyed(d.subDirs[k]))
  }

  /** Invariant I1: in every directory no file shares its name with a subdirectory. */
  ghost predicate Unique(d: Dir)
  {
    && d.subDirs.Keys !! d.files.Keys
    && (forall k :: k in d.subDirs ==> Unique(d.subDirs[k]))
  }

  /** The directory reached from `d` by descending through the subdirectories named in `p`. */
  function Lookup(d: Dir, p: seq<string>): Option<Dir>
    decreases |p|
  {
    if p == [] then Some(d)
    else if p[0] in d.subDirs then Lookup(d.subDirs[p[0]], p[1..])
    else None
  }

  /** `d` with the directory at `p` replaced by `n`: an in-place change of a nested node. */
  function UpdateAt(d: Dir, p: seq<string>, n: Dir): Dir
    decreases |p|
  {
    if p == [] then n
    else if p[0] in d.subDirs then d.(subDirs := d.subDirs[p[0] := UpdateAt(d.subDirs[p[0]], p[1..], n)])
    else d
  }

  lemma {:induction false} LookupConcat(d: Dir, p: seq<string>, q: seq<string>)
    ensures Lookup(d, p + q) == (match Lookup(d, p) case None => None case Some(x) => Lookup(x, q))
    decreases |p|
  {
    if p == [] {
      assert p + q == q;
    } else {
      assert (p + q)[0] == p[0] && (p + q)[1..] == p[1..] + q;
      if p[0] in d.subDirs {
        LookupConcat(d.subDirs[p[0]], p[1..], q);
      }
    }
  }

  /** After replacing the directory at `p`, looking `p` up finds the replacement. */
  lemma {:induction false} LookupUpdateAt(d: Dir, p: seq<string>, n: Dir)
    requires Lookup(d, p).Some?
    ensures Lookup(UpdateAt(d, p, n), p) == Some(n)
    decreases |p|
  {
    if p != [] {
      LookupUpdateAt(d.subDirs[p[0]], p[1..], n);
    }
  }

  /** Replacing deep below `p` is replacing at `p` by the node updated below it. */
  lemma {:induction false} UpdateAtConcat(d: Dir, p: seq<string>, q: seq<string>, n: Dir)
    requires Lookup(d, p).Some?
    ensures UpdateAt(d, p + q, n) == UpdateAt(d, p, UpdateAt(Lookup(d, p).value, q, n))
    decreases |p|
  {
    if p == [] {
      assert p + q == q;
    } else {
      assert (p + q)[0] == p[0] && (p + q)[1..] == p[1..] + q;
      UpdateAtConcat(d.subDirs[p[0]], p[1..], q, n);
    }
  }

  /** Replacing a node by itself changes nothing. */
  lemma {:induction false} UpdateAtSame(d: Dir, p: seq<string>)
    requires Lookup(d, p).Some?
    ensures UpdateAt(d, p, Lookup(d, p).value) == d
    decreases |p|
  {
    if p != [] {
      UpdateAtSame(d.subDirs[p[0]], p[1..]);
      assert d.subDirs[p[0] := d.subDirs[p[0]]] == d.subDirs;
    }
  }

  /** A second replacement at the same place overrides the first. */
  lemma {:induction false} UpdateAtTwice(d: Dir, p: seq<string>, a: Dir, b: Dir)
    requires Lookup(d, p).Some?
    ensures UpdateAt(UpdateAt(d, p, a), p, b) == UpdateAt(d, p, b)
    decreases |p|
  {
    if p != [] {
      UpdateAtTwice(d.subDirs[p[0]], p[1..], a, b);
    }
  }

  /** Frame: a directory on neither side of `p` is untouched by a replacement at `p`. */
  lemma {:induction false} LookupElsewhere(d: Dir, p: seq<string>, n: Dir, q: seq<string>)
    requires !(p <= q) && !(q <= p)
    ensures Lookup(UpdateAt(d, p, n), q) == Lookup(d, q)
    decreases |p|
  {
    if p[0] == q[0] && p[0] in d.subDirs {
      assert !(p[1..] <= q[1..]) && !(q[1..] <= p[1..]) by {
        assert p == [p[0]] + p[1..] && q == [q[0]] + q[1..];
      }
      LookupElsewhere(d.subDirs[p[0]], p[1..], n, q[1..]);
    }
  }

  /** Frame: below `p`, the tree after a replacement at `p` is the replacement's subtree. */
  lemma LookupBelow(d: Dir, p: seq<string>, n: Dir, r: seq<string>)
    requires Lookup(d, p).Some?
    ensures Lookup(UpdateAt(d, p, n), p + r) == Lookup(n, r)
  {
    LookupConcat(UpdateAt(d, p, n), p, r);
    LookupUpdateAt(d, p, n);
  }

  /**
   * `b` extends `a`: same name, every file of `a` is in `b` unchanged, and every
   * subdirectory of `a` is extended by the subdirectory of `b` with that key.
   */
  ghost predicate Sub(a: Dir, b: Dir)
  {
    && a.name == b.name
    && (forall k :: k in a.files ==> k in b.files && b.files[k] == a.files[k])
    && (forall k :: k in a.subDirs ==> k in b.subDirs && Sub(a.subDirs[k], b.subDirs[k]))
  }

  lemma {:induction false} SubReflexive(a: Dir)
    ensures Sub(a, a)
  {
    forall k | k in a.subDirs
      ensures Sub(a.subDirs[k], a.subDirs[k])
    {
      SubReflexive(a.subDirs[k]);
    }
  }

  lemma {:induction false} SubTransitive(a: Dir, b: Dir, c: Dir)
    requires Sub(a, b) && Sub(b, c)
    ensures Sub(a, c)
  {
    forall k | k in a.subDirs
      ensures Sub(a.subDirs[k], c.subDirs[k])
    {
      SubTransitive(a.subDirs[k], b.subDirs[k], c.subDirs[k]);
    }
  }

  /** Two trees that extend each other are equal. */
  lemma {:induction false} SubAntisymmetric(a: Dir, b: Dir)
    requires Sub(a, b) && Sub(b, a)
    ensures a == b
  {
    forall k | k in a.subDirs
      ensures a.subDirs[k] == b.subDirs[k]
    {
      SubAntisymmetric(a.subDirs[k], b.subDirs[k]);
    }
    assert a.subDirs == b.subDirs;
    assert a.files == b.files;
  }

  /** What exists in a tree exists, extended, in every tree that extends it. */
  lemma {:induction false} SubLookup(a: Dir, b: Dir, p: seq<string>)
    requires Sub(a, b) && Lookup(a, p).Some?
    ensures Lookup(b, p).Some? && Sub(Lookup(a, p).value, Lookup(b, p).value)
    decreases |p|
  {
    if p != [] {
      SubLookup(a.subDirs[p[0]], b.subDirs[p[0]], p[1..]);
    }
  }

  /** Adding a file under a free name extends a directory. */
  lemma SubAddFile(d: Dir, f: File)
    requires f.name !in d.files
    ensures Sub(d, d.(files := d.files[f.name := f]))
  {
    forall k | k in d.subDirs
      ensures Sub(d.subDirs[k], d.subDirs[k])
    {
      SubReflexive(d.subDirs[k]);
    }
  }

  /** Replacing a node by an extension of it extends the whole tree. */
  lemma {:induction false} UpdateAtGrows(d: Dir, p: seq<string>, n: Dir)
    requires Lookup(d, p).Some? && Sub(Lookup(d, p).value, n)
    ensures Sub(d, UpdateAt(d, p, n))
    decreases |p|
  {
    if p != [] {
      UpdateAtGrows(d.subDirs[p[0]], p[1..], n);
      forall k | k in d.subDirs && k != p[0]
        ensures Sub(d.subDirs[k], d.subDirs[k])
      {
        SubReflexive(d.subDirs[k]);
      }
    }
  }

  /** A replacement that keeps the node's name and is itself well keyed keeps the tree well keyed. */
  lemma {:induction false} UpdateAtWellKeyed(d: Dir, p: seq<string>, n: Dir)
    requires WellKeyed(d) && WellKeyed(n)
    requires Lookup(d, p).Some? && n.name == Lookup(d, p).value.name
    ensures WellKeyed(UpdateAt(d, p, n))
    ensures UpdateAt(d, p, n).name == d.name
    decreases |p|
  {
    if p != [] {
      UpdateAtWellKeyed(d.subDirs[p[0]], p[1..], n);
    }
  }

  /** A replacement satisfying I1 keeps I1 for the whole tree. */
  lemma {:induction false} UpdateAtUnique(d: Dir, p: seq<string>, n: Dir)
    requires Unique(d) && Unique(n) && Lookup(d, p).Some?
    ensures Unique(UpdateAt(d, p, n))
    decreases |p|
  {
    if p != [] {
      UpdateAtUnique(d.subDirs[p[0]], p[1..], n);
    }
  }

  /*────────────────────────── ensureDir ──────────────────────────*/

  /**
   * The tree after `ensureDir` walks `p` from `d`, creating each missing directory, in the
   * corrected form: a segment that names an existing file (and no subdirectory) refuses the
   * walk. That can only happen before anything was created, so a refusal changes nothing.
   */
  function EnsurePath(d: Dir, p: seq<string>): (r: Option<Dir>)
    ensures r.Some? ==> r.value.name == d.name && r.value.files == d.files
    ensures r.Some? ==> Lookup(r.value, p).Some?
    decreases |p|
  {
    if p == [] then Some(d)
    else if p[0] !in d.subDirs && p[0] in d.files then None
    else
      var child := if p[0] in d.subDirs then d.subDirs[p[0]] else EmptyDir(p[0]);
      match EnsurePath(child, p[1..])
      case None => None
      case Some(c) => Some(d.(subDirs := d.subDirs[p[0] := c]))
  }

  /** `ensureDir` as filesystem.cpp:51-66 writes it: a missing segment is created even where a file has that name. */
  function EnsurePathAsWritten(d: Dir, p: seq<string>): (r: Dir)
    ensures r.name == d.name && Lookup(r, p).Some?
    decreases |p|
  {
    if p == [] then d
    else
      var child := if p[0] in d.subDirs then d.subDirs[p[0]] else EmptyDir(p[0]);
      d.(subDirs := d.subDirs[p[0] := EnsurePathAsWritten(child, p[1..])])
  }

  /** No file anywhere in the subtree. */
  ghost predicate NoFiles(d: Dir)
  {
    d.files == map[] && forall k :: k in d.subDirs ==> NoFiles(d.subDirs[k])
  }

  /** `b` is `a` with directories added and nothing else: no file added, changed or removed. */
  ghost predicate OnlyAddsDirs(a: Dir, b: Dir)
  {
    && a.name == b.name
    && a.files == b.files
    && a.subDirs.Keys <= b.subDirs.Keys
    && (forall k :: k in a.subDirs ==> OnlyAddsDirs(a.subDirs[k], b.subDirs[k]))
    && (forall k :: k in b.subDirs && k !in a.subDirs ==> NoFiles(b.subDirs[k]))
  }

  lemma {:induction false} OnlyAddsDirsReflexive(a: Dir)
    ensures OnlyAddsDirs(a, a)
  {
    forall k | k in a.subDirs
      ensures OnlyAddsDirs(a.subDirs[k], a.subDirs[k])
    {
      OnlyAddsDirsReflexive(a.subDirs[k]);
    }
  }

  lemma {:induction false} OnlyAddsDirsSub(a: Dir, b: Dir)
    requires OnlyAddsDirs(a, b)
    ensures Sub(a, b)
  {
    forall k | k in a.subDirs
      ensures Sub(a.subDirs[k], b.subDirs[k])
    {
      OnlyAddsDirsSub(a.subDirs[k], b.subDirs[k]);
    }
  }

  /** Walking a path from a directory with no files creates it without refusal and adds no file. */
  lemma {:induction false} EnsurePathFresh(d: Dir, p: seq<string>)
    requires NoFiles(d)
    ensures EnsurePath(d, p).Some? && NoFiles(EnsurePath(d, p).value)
    decreases |p|
  {
    if p != [] {
      var child := if p[0] in d.subDirs then d.subDirs[p[0]] else EmptyDir(p[0]);
      EnsurePathFresh(child, p[1..]);
    }
  }

  /**
   * `ensureDir` (corrected) only creates directories, and afterwards the whole path exists;
   * it refuses exactly when some segment names a file of the directory reached so far.
   */
  lemma {:induction false} EnsurePathCreates(d: Dir, p: seq<string>)
    ensures EnsurePath(d, p).Some? ==> OnlyAddsDirs(d, EnsurePath(d, p).value) && Lookup(EnsurePath(d, p).value, p).Some?
    ensures EnsurePath(d, p).None? <==> exists i :: 0 <= i < |p| && FileBlocks(d, p, i)
    decreases |p|
  {
    if p == [] {
      OnlyAddsDirsReflexive(d);
    } else if p[0] !in d.subDirs && p[0] in d.files {
      assert FileBlocks(d, p, 0);
    } else if p[0] in d.subDirs {
      var child := d.subDirs[p[0]];
      EnsurePathCreates(child, p[1..]);
      forall k | k in d.subDirs && k != p[0]
        ensures OnlyAddsDirs(d.subDirs[k], d.subDirs[k])
      {
        OnlyAddsDirsReflexive(d.subDirs[k]);
      }
      forall i | 1 <= i <= |p|
        ensures Lookup(d, p[..i]) == Lookup(child, p[1..][..i - 1])
      {
        assert p[..i][0] == p[0] && p[..i][1..] == p[1..][..i - 1];
      }
      assert !FileBlocks(d, p, 0);
      if EnsurePath(child, p[1..]).None? {
        var j :| 0 <= j < |p| - 1 && FileBlocks(child, p[1..], j);
        assert FileBlocks(d, p, j + 1);
      } else {
        forall i | 1 <= i < |p|
          ensures !FileBlocks(d, p, i)
        {
          assert !FileBlocks(child, p[1..], i - 1);
        }
      }
    } else {
      EnsurePathFresh(EmptyDir(p[0]), p[1..]);
      var c := EnsurePath(EmptyDir(p[0]), p[1..]).value;
      EnsurePathCreates(EmptyDir(p[0]), p[1..]);
      forall k | k in d.subDirs
        ensures OnlyAddsDirs(d.subDirs[k], d.subDirs[k])
      {
        OnlyAddsDirsReflexive(d.subDirs[k]);
      }
      forall i | 0 <= i < |p|
        ensures !FileBlocks(d, p, i)
      {
        if i > 0 {
          assert p[..i][0] == p[0];
        }
      }
    }
  }

  /** Segment `p[i]` names a file, and no subdirectory, of the directory reached by `p[..i]`. */
  ghost predicate FileBlocks(d: Dir, p: seq<string>, i: nat)
    requires i < |p|
  {
    && Lookup(d, p[..i]).Some?
    && p[i] !in Lookup(d, p[..i]).value.subDirs
    && p[i] in Lookup(d, p[..i]).value.files
  }

  /** On a path that already exists `ensureDir` changes nothing. */
  lemma {:induction false} EnsurePathExisting(d: Dir, p: seq<string>)
    requires Lookup(d, p).Some?
    ensures EnsurePath(d, p) == Some(d)
    decreases |p|
  {
    if p != [] {
      EnsurePathExisting(d.subDirs[p[0]], p[1..]);
      assert d.subDirs[p[0] := d.subDirs[p[0]]] == d.subDirs;
    }
  }

  /** Repeating `ensureDir` on the same path adds nothing. */
  lemma EnsurePathIdempotent(d: Dir, p: seq<string>)
    requires EnsurePath(d, p).Some?
    ensures EnsurePath(EnsurePath(d, p).value, p) == EnsurePath(d, p)
  {
    EnsurePathCreates(d, p);
    EnsurePathExisting(EnsurePath(d, p).value, p);
  }

  /** Where the corrected walk is not refused it does exactly what the original walk does. */
  lemma {:induction false} EnsurePathAgrees(d: Dir, p: seq<string>)
    ensures EnsurePath(d, p).Some? ==> EnsurePath(d, p).value == EnsurePathAsWritten(d, p)
    decreases |p|
  {
    if p != [] {
      var child := if p[0] in d.subDirs then d.subDirs[p[0]] else EmptyDir(p[0]);
      EnsurePathAgrees(child, p[1..]);
    }
  }

  lemma {:induction false} EnsurePathWellKeyed(d: Dir, p: seq<string>)
    requires WellKeyed(d) && EnsurePath(d, p).Some?
    ensures WellKeyed(EnsurePath(d, p).value)
    decreases |p|
  {
    if p != [] {
      var child := if p[0] in d.subDirs then d.subDirs[p[0]] else EmptyDir(p[0]);
      EnsurePathWellKeyed(child, p[1..]);
    }
  }

  /** The corrected `ensureDir` keeps I1. */
  lemma {:induction false} EnsurePathUnique(d: Dir, p: seq<string>)
    requires Unique(d) && EnsurePath(d, p).Some?
    ensures Unique(EnsurePath(d, p).value)
    decreases |p|
  {
    if p != [] {
      var child := if p[0] in d.subDirs then d.subDirs[p[0]] else EmptyDir(p[0]);
      EnsurePathUnique(child, p[1..]);
    }
  }

  /** The original `ensureDir` gives a directory the name of a file beside it, breaking I1. */
  lemma EnsurePathAsWrittenBreaksUnique()
    ensures var d := Dir("root", map[], map["x" := NewFile("x", "t")]);
      Unique(d) && !Unique(EnsurePathAsWritten(d, ["x"]))
  {
    var d := Dir("root", map[], map["x" := NewFile("x", "t")]);
    assert "x" in EnsurePathAsWritten(d, ["x"]).subDirs;
  }

  /**
   * Walking a path that exists in a tree `t` satisfying I1, from a part of `t`, is never
   * refused and stays within `t`.
   */
  lemma {:induction false} EnsurePathWithin(d: Dir, p: seq<string>, t: Dir)
    requires Sub(d, t) && WellKeyed(t) && Unique(t) && Lookup(t, p).Some?
    ensures EnsurePath(d, p).Some? && Sub(EnsurePath(d, p).value, t)
    decreases |p|
  {
    if p != [] {
      var child := if p[0] in d.subDirs then d.subDirs[p[0]] else EmptyDir(p[0]);
      assert p[0] !in d.files by {
        assert p[0] in t.subDirs;
      }
      EnsurePathWithin(child, p[1..], t.subDirs[p[0]]);
    }
  }

  /*────────────────────────── deep copy ──────────────────────────*/

  /** A copy of a file with fresh timestamps, as `copyFile` and `copyDirectoryHelper` make it. */
  function Restamped(f: File, now: string): File
  {
    File(f.name, f.content, now, now)
  }

  /** The recursive copy `copyDirectoryHelper` builds. */
  function Clone(d: Dir, now: string): Dir
  {
    Dir(d.name, map k | k in d.subDirs :: Clone(d.subDirs[k], now), map k | k in d.files :: Restamped(d.files[k], now))
  }

  /**
   * The copy has the same directories, names and file contents at every level, and every
   * copied file is stamped `now` with `createdAt == modifiedAt`.
   */
  lemma {:induction false} CloneAt(d: Dir, now: string, p: seq<string>)
    ensures Lookup(Clone(d, now), p).Some? <==> Lookup(d, p).Some?
    ensures Lookup(d, p).Some? ==>
      var x, y := Lookup(d, p).value, Lookup(Clone(d, now), p).value;
      && y.name == x.name
      && y.subDirs.Keys == x.subDirs.Keys
      && y.files.Keys == x.files.Keys
      && forall k :: k in x.files ==>
           && y.files[k].name == x.files[k].name
           && y.files[k].content == x.files[k].content
           && y.files[k].createdAt == now
           && y.files[k].modifiedAt == now
    decreases |p|
  {
    if p != [] && p[0] in d.subDirs {
      CloneAt(d.subDirs[p[0]], now, p[1..]);
    }
  }

  lemma {:induction false} CloneWellKeyed(d: Dir, now: string)
    requires WellKeyed(d)
    ensures WellKeyed(Clone(d, now)) && Clone(d, now).name == d.name
  {
    forall k | k in d.subDirs
      ensures WellKeyed(Clone(d.subDirs[k], now))
    {
      CloneWellKeyed(d.subDirs[k], now);
    }
  }

  lemma {:induction false} CloneUnique(d: Dir, now: string)
    requires Unique(d)
    ensures Unique(Clone(d, now))
  {
    forall k | k in d.subDirs
      ensures Unique(Clone(d.subDirs[k], now))
    {
      CloneUnique(d.subDirs[k], now);
    }
  }
}
