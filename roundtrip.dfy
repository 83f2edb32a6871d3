/**
 * Loading what `saveToDisk` wrote gives back the tree that was saved, for every tree whose
 * names and timestamps do not contain the separators of the format ('/', '|', newline).
 */
module RoundTrip {

  import opened Options
  import opened Text
  import opened Tree
  import opened Codec

  /** A name the format carries unchanged: non-empty, with no '/', '|' or newline. */
  predicate CleanName(n: string)
  {
    PathName(n) && '|' !in n && '\n' !in n
  }

  /** A timestamp the format carries unchanged. */
  predicate CleanStamp(s: string)
  {
    '|' !in s && '\n' !in s
  }

  ghost predicate CleanPath(p: seq<string>)
  {
    forall i :: 0 <= i < |p| ==> CleanName(p[i])
  }

  ghost predicate CleanFile(f: File)
  {
    CleanName(f.name) && CleanStamp(f.createdAt) && CleanStamp(f.modifiedAt)
  }

  /** Every name and timestamp in the tree is carried unchanged by the format. */
  ghost predicate CleanTree(d: Dir)
  {
    && (forall k :: k in d.files ==> CleanName(k) && CleanFile(d.files[k]))
    && (forall k :: k in d.subDirs ==> CleanName(k) && CleanTree(d.subDirs[k]))
  }

  ghost predicate CleanRecord(r: Record)
  {
    match r
    case DirRec(p) => CleanPath(p)
    case FileRec(p, f) => CleanPath(p) && CleanFile(f)
  }

  /** The loader's step for one record. */
  function Apply(t: Dir, r: Record): Dir
  {
    match r
    case DirRec(p) => ApplyDir(t, p)
    case FileRec(p, f) => ApplyFile(t, p, f)
  }

  function ApplyAll(t: Dir, rs: seq<Record>): Dir
    decreases |rs|
  {
    if rs == [] then t else ApplyAll(Apply(t, rs[0]), rs[1..])
  }

  /*──────────────────────── one record at a time ────────────────────────*/

  lemma CleanPathText(p: seq<string>)
    requires CleanPath(p)
    ensures '\n' !in JoinPath(p) && '|' !in JoinPath(p)
    ensures Segments(JoinPath(p)) == p
  {
    CharsOfJoinPath(p, '\n');
    CharsOfJoinPath(p, '|');
    SegmentsOfJoinPath(p);
  }

  /** Reading a rendered directory record applies exactly that record. */
  lemma LoadDirRecord(t: Dir, p: seq<string>, rest: string)
    requires CleanPath(p)
    ensures LoadStore(t, Render(DirRec(p)) + rest) == LoadStore(ApplyDir(t, p), rest)
  {
    CleanPathText(p);
    var line := "D|" + JoinPath(p);
    CutAtAfter(line, '\n', rest);
    assert line[2..] == JoinPath(p);
    LoadDirLine(t, line + "\n" + rest);
  }

  /** The path of a rendered file record splits back into its directory and its name. */
  lemma SplitRendered(dir: string, name: string)
    requires '/' !in name
    ensures SplitLast(dir + "/" + name) == (dir, name)
  {
    LastIndexOfAfter(dir, '/', name);
  }

  /** The header line of a clean file record parses back into the record's fields. */
  lemma ParseRendered(p: seq<string>, f: File)
    requires CleanPath(p) && CleanFile(f)
    ensures '\n' !in HeaderLine(JoinPath(p), f) && StartsWith(HeaderLine(JoinPath(p), f), "F|")
    ensures ParseHeader(HeaderLine(JoinPath(p), f)) == Some(Header(JoinPath(p) + "/" + f.name, f.createdAt, f.modifiedAt, |f.content|))
    ensures SplitLast(JoinPath(p) + "/" + f.name) == (JoinPath(p), f.name)
  {
    CleanPathText(p);
    HeaderLineParses(JoinPath(p), f);
    HeaderLineOneLine(JoinPath(p), f);
    SplitRendered(JoinPath(p), f.name);
  }

  /** Reading a rendered file record applies exactly that record. */
  lemma LoadFileRecord(t: Dir, p: seq<string>, f: File, rest: string)
    requires CleanPath(p) && CleanFile(f)
    ensures LoadStore(t, Render(FileRec(p, f)) + rest) == LoadStore(ApplyFile(t, p, f), rest)
  {
    CleanPathText(p);
    ParseRendered(p, f);
    var line := HeaderLine(JoinPath(p), f);
    Regroup(line + "\n", f.content + "\n", rest);
    LoadHeaderLine(t, line, f.content + "\n" + rest);
    ReadContent(t, ParseHeader(line).value, f.content, rest);
  }

  /** An `F|` line that parses is followed by the file's content. */
  lemma LoadHeaderLine(t: Dir, line: string, rest: string)
    requires '\n' !in line && StartsWith(line, "F|") && ParseHeader(line).Some?
    ensures var step := ReadFile(t, ParseHeader(line).value, rest);
      LoadStore(t, line + "\n" + rest) == if step.1.Some? then LoadStore(step.0, step.1.value) else Some(step.0)
  {
    CutAtAfter(line, '\n', rest);
    assert line[..2] == "F|";
    LoadFileLine(t, line + "\n" + rest);
  }

  /** Content of exactly the announced length, then the separator: the rest is read next. */
  lemma ReadContent(t: Dir, h: Header, content: string, rest: string)
    requires h.len == |content|
    ensures ReadFile(t, h, content + "\n" + rest)
         == (ApplyFile(t, Segments(SplitLast(h.path).0), File(SplitLast(h.path).1, content, h.createdAt, h.modifiedAt)), Some(rest))
  {
    var after := content + "\n" + rest;
    assert after[..|content|] == content && after[|content| + 1..] == rest;
  }

  /** Reading the rendering of a list of clean records applies them in order. */
  lemma {:induction false} LoadRenderAll(t: Dir, rs: seq<Record>)
    requires forall r :: r in rs ==> CleanRecord(r)
    ensures LoadStore(t, RenderAll(rs)) == Some(ApplyAll(t, rs))
    decreases |rs|
  {
    if rs != [] {
      assert rs[0] in rs;
      match rs[0] {
        case DirRec(p) => LoadDirRecord(t, p, RenderAll(rs[1..]));
        case FileRec(p, f) => LoadFileRecord(t, p, f, RenderAll(rs[1..]));
      }
      assert forall r :: r in rs[1..] ==> r in rs;
      LoadRenderAll(Apply(t, rs[0]), rs[1..]);
    }
  }

  /*──────────────────────── the records describe the tree ────────────────────────*/

  /** What a record says holds in the tree `t`. */
  ghost predicate InTree(t: Dir, r: Record)
  {
    match r
    case DirRec(p) => Lookup(t, p).Some?
    case FileRec(p, f) =>
      Lookup(t, p).Some? && f.name in Lookup(t, p).value.files && Lookup(t, p).value.files[f.name] == f
  }

  /** Every queued entry sits in `t` at its path. */
  ghost predicate Placed(t: Dir, q: seq<Entry>)
  {
    forall i :: 0 <= i < |q| ==> Lookup(t, q[i].path) == Some(q[i].dir)
  }

  lemma ChildPlaced(t: Dir, e: Entry, k: string)
    requires Lookup(t, e.path) == Some(e.dir) && k in e.dir.subDirs
    ensures Lookup(t, e.path + [k]) == Some(e.dir.subDirs[k])
  {
    LookupConcat(t, e.path, [k]);
  }

  lemma VisitSound(t: Dir, e: Entry, r: Record)
    requires WellKeyed(t) && Lookup(t, e.path) == Some(e.dir) && r in Visit(e)
    ensures InTree(t, r)
  {
    var ds := SortedKeys(e.dir.subDirs.Keys);
    var fs := SortedKeys(e.dir.files.Keys);
    if r in DirRecords(e.path, ds) {
      var i :| 0 <= i < |ds| && DirRecords(e.path, ds)[i] == r;
      assert ds[i] in ds;
      ChildPlaced(t, e, ds[i]);
    } else {
      assert r in FileRecords(e.dir.files, e.path, fs);
      var i :| 0 <= i < |fs| && FileRecords(e.dir.files, e.path, fs)[i] == r;
      assert fs[i] in fs;
      WellKeyedLookup(t, e.path);
    }
  }

  /** Every record written while draining a queue of entries placed in `t` holds in `t`. */
  lemma {:induction false} BfsSound(t: Dir, q: seq<Entry>, r: Record)
    requires WellKeyed(t) && Placed(t, q) && r in Bfs(q)
    ensures InTree(t, r)
    decreases QueueSize(q)
  {
    var e := q[0];
    var q' := q[1..] + Children(e);
    BfsStepShrinks(q);
    if r in Visit(e) {
      VisitSound(t, e, r);
    } else {
      var ks := SortedKeys(e.dir.subDirs.Keys);
      forall i | 0 <= i < |q'|
        ensures Lookup(t, q'[i].path) == Some(q'[i].dir)
      {
        if i >= |q| - 1 {
          var j := i - (|q| - 1);
          assert q'[i] == Children(e)[j];
          assert ks[j] in ks;
          ChildPlaced(t, e, ks[j]);
        } else {
          assert q'[i] == q[i + 1];
        }
      }
      BfsSound(t, q', r);
    }
  }

  lemma ChildQueued(q: seq<Entry>, k: string) returns (j: nat)
    requires q != [] && k in q[0].dir.subDirs
    ensures j < |q[1..] + Children(q[0])|
    ensures (q[1..] + Children(q[0]))[j] == Entry(q[0].dir.subDirs[k], q[0].path + [k])
  {
    var ks := SortedKeys(q[0].dir.subDirs.Keys);
    assert k in ks;
    var i :| 0 <= i < |ks| && ks[i] == k;
    j := |q| - 1 + i;
  }

  lemma BfsHead(q: seq<Entry>, r: Record)
    requires q != [] && r in Visit(q[0])
    ensures r in Bfs(q)
  {
  }

  lemma BfsTail(q: seq<Entry>, r: Record)
    requires q != [] && r in Bfs(q[1..] + Children(q[0]))
    ensures r in Bfs(q)
  {
  }

  lemma DirInVisit(e: Entry, k: string)
    requires k in e.dir.subDirs
    ensures DirRec(e.path + [k]) in Visit(e)
  {
    var ks := SortedKeys(e.dir.subDirs.Keys);
    assert k in ks;
    var n :| 0 <= n < |ks| && ks[n] == k;
    assert DirRecords(e.path, ks)[n] == DirRec(e.path + [k]);
  }

  lemma FileInVisit(e: Entry, k: string)
    requires k in e.dir.files
    ensures FileRec(e.path, e.dir.files[k]) in Visit(e)
  {
    var ks := SortedKeys(e.dir.files.Keys);
    assert k in ks;
    var n :| 0 <= n < |ks| && ks[n] == k;
    assert FileRecords(e.dir.files, e.path, ks)[n] == FileRec(e.path, e.dir.files[k]);
  }

  /** Every directory below a queued entry gets its `D|` record. */
  lemma {:induction false} BfsCoversDir(q: seq<Entry>, i: nat, r: seq<string>)
    requires i < |q| && r != [] && Lookup(q[i].dir, r).Some?
    ensures DirRec(q[i].path + r) in Bfs(q)
    decreases QueueSize(q), 1
  {
    if i > 0 {
      CoversDirLater(q, i, r);
    } else if |r| == 1 {
      assert r == [r[0]];
      DirInVisit(q[0], r[0]);
      BfsHead(q, DirRec(q[0].path + r));
    } else {
      CoversDirBelow(q, r);
    }
  }

  lemma {:induction false} CoversDirLater(q: seq<Entry>, i: nat, r: seq<string>)
    requires 0 < i < |q| && r != [] && Lookup(q[i].dir, r).Some?
    ensures DirRec(q[i].path + r) in Bfs(q)
    decreases QueueSize(q), 0
  {
    var q' := q[1..] + Children(q[0]);
    BfsStepShrinks(q);
    assert q'[i - 1] == q[i];
    BfsCoversDir(q', i - 1, r);
    BfsTail(q, DirRec(q[i].path + r));
  }

  lemma {:induction false} CoversDirBelow(q: seq<Entry>, r: seq<string>)
    requires q != [] && |r| > 1 && Lookup(q[0].dir, r).Some?
    ensures DirRec(q[0].path + r) in Bfs(q)
    decreases QueueSize(q), 0
  {
    var j := ChildStep(q, r);
    BfsStepShrinks(q);
    BfsCoversDir(q[1..] + Children(q[0]), j, r[1..]);
    BfsTail(q, DirRec(q[0].path + r));
  }

  /** The child of the head that a path below the head goes through is queued next. */
  lemma ChildStep(q: seq<Entry>, r: seq<string>) returns (j: nat)
    requires q != [] && r != [] && Lookup(q[0].dir, r).Some?
    ensures j < |q[1..] + Children(q[0])|
    ensures (q[1..] + Children(q[0]))[j].path + r[1..] == q[0].path + r
    ensures Lookup((q[1..] + Children(q[0]))[j].dir, r[1..]) == Lookup(q[0].dir, r)
  {
    j := ChildQueued(q, r[0]);
    assert q[0].path + [r[0]] + r[1..] == q[0].path + r;
  }

  /** Every file below a queued entry gets its `F|` record. */
  lemma {:induction false} BfsCoversFile(q: seq<Entry>, i: nat, r: seq<string>, k: string)
    requires i < |q| && Lookup(q[i].dir, r).Some? && k in Lookup(q[i].dir, r).value.files
    ensures FileRec(q[i].path + r, Lookup(q[i].dir, r).value.files[k]) in Bfs(q)
    decreases QueueSize(q), 1
  {
    if i > 0 {
      CoversFileLater(q, i, r, k);
    } else if r == [] {
      assert q[0].path + r == q[0].path;
      FileInVisit(q[0], k);
      BfsHead(q, FileRec(q[0].path + r, q[0].dir.files[k]));
    } else {
      CoversFileBelow(q, r, k);
    }
  }

  lemma {:induction false} CoversFileLater(q: seq<Entry>, i: nat, r: seq<string>, k: string)
    requires 0 < i < |q| && Lookup(q[i].dir, r).Some? && k in Lookup(q[i].dir, r).value.files
    ensures FileRec(q[i].path + r, Lookup(q[i].dir, r).value.files[k]) in Bfs(q)
    decreases QueueSize(q), 0
  {
    var q' := q[1..] + Children(q[0]);
    BfsStepShrinks(q);
    assert q'[i - 1] == q[i];
    BfsCoversFile(q', i - 1, r, k);
    BfsTail(q, FileRec(q[i].path + r, Lookup(q[i].dir, r).value.files[k]));
  }

  lemma {:induction false} CoversFileBelow(q: seq<Entry>, r: seq<string>, k: string)
    requires q != [] && r != [] && Lookup(q[0].dir, r).Some? && k in Lookup(q[0].dir, r).value.files
    ensures FileRec(q[0].path + r, Lookup(q[0].dir, r).value.files[k]) in Bfs(q)
    decreases QueueSize(q), 0
  {
    var j := ChildStep(q, r);
    BfsStepShrinks(q);
    BfsCoversFile(q[1..] + Children(q[0]), j, r[1..], k);
    BfsTail(q, FileRec(q[0].path + r, Lookup(q[0].dir, r).value.files[k]));
  }

  /*──────────────────────── applying the records rebuilds the tree ────────────────────────*/

  lemma InTreeGrows(a: Dir, b: Dir, r: Record)
    requires Sub(a, b) && InTree(a, r)
    ensures InTree(b, r)
  {
    match r
    case DirRec(p) => SubLookup(a, b, p);
    case FileRec(p, f) => SubLookup(a, b, p);
  }

  /** Replacing a node of `u` by a part of the corresponding node of `t` keeps `u` within `t`. */
  lemma {:induction false} UpdateAtWithin(u: Dir, p: seq<string>, n: Dir, t: Dir)
    requires Sub(u, t) && Lookup(u, p).Some? && Lookup(t, p).Some? && Sub(n, Lookup(t, p).value)
    ensures Sub(UpdateAt(u, p, n), t)
    decreases |p|
  {
    if p != [] {
      UpdateAtWithin(u.subDirs[p[0]], p[1..], n, t.subDirs[p[0]]);
    }
  }

  /** A record that holds in `t`, applied to a part of `t`, stays within `t`, only adds, and takes effect. */
  lemma ApplyWithin(u: Dir, r: Record, t: Dir)
    requires Sub(u, t) && WellKeyed(t) && Unique(t) && InTree(t, r)
    ensures Sub(Apply(u, r), t) && Sub(u, Apply(u, r)) && InTree(Apply(u, r), r)
  {
    var p := match r case DirRec(p) => p case FileRec(p, _) => p;
    EnsurePathWithin(u, p, t);
    EnsurePathCreates(u, p);
    var u1 := EnsurePath(u, p).value;
    OnlyAddsDirsSub(u, u1);
    match r
    case DirRec(_) =>
    case FileRec(_, f) =>
      var parent := Lookup(u1, p).value;
      var target := Lookup(t, p).value;
      SubLookup(u1, t, p);
      UniqueLookup(t, p);
      assert f.name in parent.subDirs ==> f.name in target.subDirs;
      assert f.name !in target.subDirs;
      if f.name !in parent.files {
        var n := parent.(files := parent.files[f.name := f]);
        SubAddFile(parent, f);
        UpdateAtGrows(u1, p, n);
        SubTransitive(u, u1, UpdateAt(u1, p, n));
        UpdateAtWithin(u1, p, n, t);
        LookupUpdateAt(u1, p, n);
      }
  }

  lemma {:induction false} ApplyAllWithin(u: Dir, rs: seq<Record>, t: Dir)
    requires Sub(u, t) && WellKeyed(t) && Unique(t)
    requires forall r :: r in rs ==> InTree(t, r)
    ensures Sub(ApplyAll(u, rs), t) && Sub(u, ApplyAll(u, rs))
    ensures forall r :: r in rs ==> InTree(ApplyAll(u, rs), r)
    decreases |rs|
  {
    if rs == [] {
      SubReflexive(u);
    } else {
      var u1 := Apply(u, rs[0]);
      assert rs[0] in rs;
      ApplyWithin(u, rs[0], t);
      assert forall r :: r in rs[1..] ==> r in rs;
      ApplyAllWithin(u1, rs[1..], t);
      var l := ApplyAll(u, rs);
      SubTransitive(u, u1, l);
      InTreeGrows(u1, l, rs[0]);
      assert forall r :: r in rs ==> r == rs[0] || r in rs[1..];
    }
  }

  /** Everything `a` holds at path `p` is held by `b` at `p`. */
  ghost predicate CoversAt(a: Dir, b: Dir, p: seq<string>)
  {
    Lookup(a, p).Some? ==>
      && Lookup(b, p).Some?
      && Lookup(b, p).value.name == Lookup(a, p).value.name
      && forall k :: k in Lookup(a, p).value.files ==>
           k in Lookup(b, p).value.files && Lookup(b, p).value.files[k] == Lookup(a, p).value.files[k]
  }

  /** A tree that holds, path by path, everything another holds extends it. */
  lemma {:induction false} CoverSub(a: Dir, b: Dir)
    requires forall p :: CoversAt(a, b, p)
    ensures Sub(a, b)
  {
    assert CoversAt(a, b, []);
    forall k | k in a.subDirs
      ensures k in b.subDirs && Sub(a.subDirs[k], b.subDirs[k])
    {
      assert CoversAt(a, b, [k]);
      assert Lookup(a, [k]).Some?;
      assert k in b.subDirs;
      forall p
        ensures CoversAt(a.subDirs[k], b.subDirs[k], p)
      {
        assert CoversAt(a, b, [k] + p);
        assert ([k] + p)[0] == k && ([k] + p)[1..] == p;
      }
      CoverSub(a.subDirs[k], b.subDirs[k]);
    }
  }

  lemma CleanLookup(t: Dir, p: seq<string>)
    requires CleanTree(t) && Lookup(t, p).Some?
    ensures CleanPath(p) && CleanTree(Lookup(t, p).value)
    decreases |p|
  {
    if p != [] {
      CleanLookup(t.subDirs[p[0]], p[1..]);
      assert forall i :: 1 <= i < |p| ==> p[i] == p[1..][i - 1];
    }
  }

  lemma CleanRecordOf(t: Dir, r: Record)
    requires CleanTree(t) && InTree(t, r)
    ensures CleanRecord(r)
  {
    match r
    case DirRec(p) => CleanLookup(t, p);
    case FileRec(p, f) => CleanLookup(t, p);
  }

  /** The records `saveToDisk` writes for a clean tree all hold in it and are clean. */
  lemma RecordsOfTree(t: Dir)
    requires WellKeyed(t) && CleanTree(t)
    ensures forall r :: r in Bfs([Entry(t, [])]) ==> InTree(t, r) && CleanRecord(r)
  {
    forall r | r in Bfs([Entry(t, [])])
      ensures InTree(t, r) && CleanRecord(r)
    {
      BfsSound(t, [Entry(t, [])], r);
      CleanRecordOf(t, r);
    }
  }

  /** A tree within `t` in which every record of `t` holds covers `t` at every path. */
  lemma RebuiltCovers(t: Dir, l: Dir, p: seq<string>)
    requires WellKeyed(t) && Sub(l, t)
    requires forall r :: r in Bfs([Entry(t, [])]) ==> InTree(l, r)
    ensures CoversAt(t, l, p)
  {
    var q := [Entry(t, [])];
    if Lookup(t, p).Some? {
      assert [] + p == p;
      if p != [] {
        BfsCoversDir(q, 0, p);
        assert InTree(l, DirRec(p));
      }
      SubLookup(l, t, p);
      var node := Lookup(t, p).value;
      forall k | k in node.files
        ensures k in Lookup(l, p).value.files && Lookup(l, p).value.files[k] == node.files[k]
      {
        BfsCoversFile(q, 0, p, k);
        WellKeyedLookup(t, p);
        assert InTree(l, FileRec(p, node.files[k]));
      }
    }
  }

  /**
   * Save-then-load is the identity: reading the store `saveToDisk` writes for a tree into an
   * empty root gives back that tree, provided its names and timestamps avoid the separators.
   */
  lemma SaveLoadRoundTrip(t: Dir)
    requires WellKeyed(t) && Unique(t) && CleanTree(t)
    ensures LoadStore(EmptyDir(t.name), Serialize(t)) == Some(t)
  {
    var rs := Bfs([Entry(t, [])]);
    RecordsOfTree(t);
    LoadRenderAll(EmptyDir(t.name), rs);
    var l := ApplyAll(EmptyDir(t.name), rs);
    ApplyAllWithin(EmptyDir(t.name), rs, t);
    forall p
      ensures CoversAt(t, l, p)
    {
      RebuiltCovers(t, l, p);
    }
    CoverSub(t, l);
    SubAntisymmetric(t, l);
  }
}
