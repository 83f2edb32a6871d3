/**
 * The persistence format of `saveToDisk` / `loadFromDisk` (filesystem.cpp:69-138): one
 * `D|<path>` line per directory and, per file, an `F|<path>|<created>|<modified>|<length>`
 * header followed by exactly `<length>` content bytes and one separator byte. Directories
 * are written breadth first from the root, children of each directory in key order.
 */
module Codec {

  import opened Options
  import opened Text
  import opened Tree

  /** One record of the store: a directory by its path, or a file with the path of its directory. */
  datatype Record = DirRec(path: seq<string>) | FileRec(dir: seq<string>, file: File)

  /** The line `saveToDisk` writes for a directory reached by the path text `path`. */
  function DirText(path: string): string
  {
    "D|" + path + "\n"
  }

  /** The header line `saveToDisk` writes for a file of the directory at `path`, without its newline. */
  function HeaderLine(path: string, f: File): string
  {
    "F|" + ((path + "/" + f.name) + "|" + (f.createdAt + "|" + (f.modifiedAt + "|" + Decimal(|f.content|))))
  }

  /** The header, content and separator `saveToDisk` writes for a file of the directory at `path`. */
  function FileText(path: string, f: File): string
  {
    HeaderLine(path, f) + "\n" + (f.content + "\n")
  }

  /** The bytes `saveToDisk` writes for one record. */
  function Render(r: Record): string
  {
    match r
    case DirRec(p) => DirText(JoinPath(p))
    case FileRec(p, f) => FileText(JoinPath(p), f)
  }

  function RenderAll(rs: seq<Record>): string
  {
    if rs == [] then "" else Render(rs[0]) + RenderAll(rs[1..])
  }

  lemma {:induction false} RenderAllConcat(a: seq<Record>, b: seq<Record>)
    ensures RenderAll(a + b) == RenderAll(a) + RenderAll(b)
  {
    if a == [] {
      assert a + b == b;
    } else {
      assert (a + b)[0] == a[0] && (a + b)[1..] == a[1..] + b;
      RenderAllConcat(a[1..], b);
    }
  }

  lemma RenderAllCons(r: Record, rs: seq<Record>)
    ensures RenderAll([r] + rs) == Render(r) + RenderAll(rs)
  {
    assert ([r] + rs)[1..] == rs;
  }

  lemma RenderAllSnoc(rs: seq<Record>, r: Record)
    ensures RenderAll(rs + [r]) == RenderAll(rs) + Render(r)
  {
    RenderAllConcat(rs, [r]);
    assert [r][1..] == [];
  }

  /*──────────────────────── what saveToDisk writes ────────────────────────*/

  /** A queue element of `saveToDisk`: a directory and the path it was reached by. */
  datatype Entry = Entry(dir: Dir, path: seq<string>)

  function DirRecords(path: seq<string>, ks: seq<string>): seq<Record>
  {
    seq(|ks|, i requires 0 <= i < |ks| => DirRec(path + [ks[i]]))
  }

  function FileRecords(fs: map<string, File>, path: seq<string>, ks: seq<string>): seq<Record>
    requires forall k :: k in ks ==> k in fs
  {
    seq(|ks|, i requires 0 <= i < |ks| => FileRec(path, fs[ks[i]]))
  }

  function ChildEntries(ds: map<string, Dir>, path: seq<string>, ks: seq<string>): seq<Entry>
    requires forall k :: k in ks ==> k in ds
  {
    seq(|ks|, i requires 0 <= i < |ks| => Entry(ds[ks[i]], path + [ks[i]]))
  }

  /** The records written when `e` is dequeued: its subdirectories, then its files, each in key order. */
  ghost function Visit(e: Entry): seq<Record>
  {
    DirRecords(e.path, SortedKeys(e.dir.subDirs.Keys))
    + FileRecords(e.dir.files, e.path, SortedKeys(e.dir.files.Keys))
  }

  /** The entries enqueued when `e` is dequeued. */
  ghost function Children(e: Entry): seq<Entry>
  {
    ChildEntries(e.dir.subDirs, e.path, SortedKeys(e.dir.subDirs.Keys))
  }

  /** The number of directories in a tree. */
  ghost function Size(d: Dir): nat
    decreases d, 1
  {
    1 + SizeOfKeys(d, SortedKeys(d.subDirs.Keys))
  }

  ghost function SizeOfKeys(d: Dir, ks: seq<string>): nat
    requires forall k :: k in ks ==> k in d.subDirs
    decreases d, 0, |ks|
  {
    if ks == [] then 0 else Size(d.subDirs[ks[0]]) + SizeOfKeys(d, ks[1..])
  }

  ghost function QueueSize(q: seq<Entry>): nat
  {
    if q == [] then 0 else Size(q[0].dir) + QueueSize(q[1..])
  }

  lemma {:induction false} QueueSizeConcat(a: seq<Entry>, b: seq<Entry>)
    ensures QueueSize(a + b) == QueueSize(a) + QueueSize(b)
  {
    if a == [] {
      assert a + b == b;
    } else {
      assert (a + b)[0] == a[0] && (a + b)[1..] == a[1..] + b;
      QueueSizeConcat(a[1..], b);
    }
  }

  lemma {:induction false} QueueSizeChildren(d: Dir, path: seq<string>, ks: seq<string>)
    requires forall k :: k in ks ==> k in d.subDirs
    ensures QueueSize(ChildEntries(d.subDirs, path, ks)) == SizeOfKeys(d, ks)
  {
    if ks != [] {
      assert ChildEntries(d.subDirs, path, ks)[1..] == ChildEntries(d.subDirs, path, ks[1..]);
      QueueSizeChildren(d, path, ks[1..]);
    }
  }

  /** Dequeuing one entry and enqueueing its children leaves one directory fewer to visit. */
  lemma BfsStepShrinks(q: seq<Entry>)
    requires q != []
    ensures QueueSize(q[1..] + Children(q[0])) < QueueSize(q)
  {
    QueueSizeConcat(q[1..], Children(q[0]));
    QueueSizeChildren(q[0].dir, q[0].path, SortedKeys(q[0].dir.subDirs.Keys));
  }

  /** The records written while draining queue `q`. */
  ghost function Bfs(q: seq<Entry>): seq<Record>
    decreases QueueSize(q)
  {
    if q == [] then []
    else
      BfsStepShrinks(q);
      Visit(q[0]) + Bfs(q[1..] + Children(q[0]))
  }

  /** The whole store `saveToDisk` writes for the tree `t`. */
  ghost function Serialize(t: Dir): string
  {
    RenderAll(Bfs([Entry(t, [])]))
  }

  /** The real queue of (directory, path text) pairs holds what the modelled queue describes. */
  ghost predicate Mirrors(q: seq<(Dir, string)>, gq: seq<Entry>)
  {
    |q| == |gq| && forall i :: 0 <= i < |q| ==> q[i].0 == gq[i].dir && q[i].1 == JoinPath(gq[i].path)
  }

  lemma MirrorsConcat(q: seq<(Dir, string)>, gq: seq<Entry>, q': seq<(Dir, string)>, gq': seq<Entry>)
    requires Mirrors(q, gq) && Mirrors(q', gq')
    ensures Mirrors(q + q', gq + gq')
  {
  }

  lemma DirRecordsSnoc(path: seq<string>, ks: seq<string>, k: string)
    ensures DirRecords(path, ks + [k]) == DirRecords(path, ks) + [DirRec(path + [k])]
  {
  }

  lemma FileRecordsSnoc(fs: map<string, File>, path: seq<string>, ks: seq<string>, k: string)
    requires k in fs && forall x :: x in ks ==> x in fs
    ensures FileRecords(fs, path, ks + [k]) == FileRecords(fs, path, ks) + [FileRec(path, fs[k])]
  {
  }

  lemma ChildEntriesSnoc(ds: map<string, Dir>, path: seq<string>, ks: seq<string>, k: string)
    requires k in ds && forall x :: x in ks ==> x in ds
    ensures ChildEntries(ds, path, ks + [k]) == ChildEntries(ds, path, ks) + [Entry(ds[k], path + [k])]
  {
  }

  /** Taking the least of the keys not yet visited extends the visited prefix of the key order. */
  lemma NextKey(all: set<string>, pending: set<string>, done: seq<string>, k: string)
    requires done + SortedKeys(pending) == SortedKeys(all)
    requires IsLeast(k, pending)
    ensures (done + [k]) + SortedKeys(pending - {k}) == SortedKeys(all)
  {
    SortedKeysStep(pending, k);
    assert (done + [k]) + SortedKeys(pending - {k}) == done + ([k] + SortedKeys(pending - {k}));
  }

  /** What `saveToDisk`'s loop over subdirectories has written and enqueued once the keys `done` are visited. */
  ghost predicate SubDirsSoFar(dir: Dir, gpath: seq<string>, pending: set<string>, done: seq<string>,
                               text: string, pushed: seq<(Dir, string)>)
  {
    && pending <= dir.subDirs.Keys
    && done + SortedKeys(pending) == SortedKeys(dir.subDirs.Keys)
    && (forall x :: x in done ==> x in dir.subDirs)
    && text == RenderAll(DirRecords(gpath, done))
    && Mirrors(pushed, ChildEntries(dir.subDirs, gpath, done))
  }

  lemma SubDirStep(dir: Dir, path: string, gpath: seq<string>, pending: set<string>, done: seq<string>,
                   text: string, pushed: seq<(Dir, string)>, k: string)
    requires path == JoinPath(gpath)
    requires SubDirsSoFar(dir, gpath, pending, done, text, pushed) && IsLeast(k, pending)
    ensures var child := path + "/" + k;
      SubDirsSoFar(dir, gpath, pending - {k}, done + [k], text + DirText(child), pushed + [(dir.subDirs[k], child)])
  {
    NextKey(dir.subDirs.Keys, pending, done, k);
    DirRecordsSnoc(gpath, done, k);
    ChildEntriesSnoc(dir.subDirs, gpath, done, k);
    RenderAllSnoc(DirRecords(gpath, done), DirRec(gpath + [k]));
    JoinPathSnoc(gpath, k);
    var child := path + "/" + k;
    MirrorsConcat(pushed, ChildEntries(dir.subDirs, gpath, done), [(dir.subDirs[k], child)], [Entry(dir.subDirs[k], gpath + [k])]);
  }

  lemma SubDirsDone(dir: Dir, gpath: seq<string>, pending: set<string>, done: seq<string>,
                    text: string, pushed: seq<(Dir, string)>)
    requires SubDirsSoFar(dir, gpath, pending, done, text, pushed) && pending == {}
    ensures text == RenderAll(DirRecords(gpath, SortedKeys(dir.subDirs.Keys)))
    ensures Mirrors(pushed, ChildEntries(dir.subDirs, gpath, SortedKeys(dir.subDirs.Keys)))
  {
    assert SortedKeys(pending) == [];
    assert done + [] == done;
  }

  /** `saveToDisk`'s loop over the subdirectories of a dequeued directory: the lines it writes and the pairs it enqueues. */
  method WriteSubDirs(dir: Dir, path: string, ghost gpath: seq<string>) returns (text: string, pushed: seq<(Dir, string)>)
    requires path == JoinPath(gpath)
    ensures text == RenderAll(DirRecords(gpath, SortedKeys(dir.subDirs.Keys)))
    ensures Mirrors(pushed, ChildEntries(dir.subDirs, gpath, SortedKeys(dir.subDirs.Keys)))
  {
    text, pushed := "", [];
    var pending := dir.subDirs.Keys;
    ghost var done: seq<string> := [];
    while pending != {}
      invariant SubDirsSoFar(dir, gpath, pending, done, text, pushed)
      decreases |pending|
    {
      LeastExists(pending);
      var k :| IsLeast(k, pending);
      SubDirStep(dir, path, gpath, pending, done, text, pushed, k);
      var child := path + "/" + k;
      text := text + DirText(child);
      pushed := pushed + [(dir.subDirs[k], child)];
      done := done + [k];
      pending := pending - {k};
    }
    SubDirsDone(dir, gpath, pending, done, text, pushed);
  }

  /** What `saveToDisk`'s loop over files has written once the keys `done` are visited. */
  ghost predicate FilesSoFar(dir: Dir, gpath: seq<string>, pending: set<string>, done: seq<string>, text: string)
  {
    && pending <= dir.files.Keys
    && done + SortedKeys(pending) == SortedKeys(dir.files.Keys)
    && (forall x :: x in done ==> x in dir.files)
    && text == RenderAll(FileRecords(dir.files, gpath, done))
  }

  lemma FileStep(dir: Dir, path: string, gpath: seq<string>, pending: set<string>, done: seq<string>, text: string, k: string)
    requires path == JoinPath(gpath)
    requires FilesSoFar(dir, gpath, pending, done, text) && IsLeast(k, pending)
    ensures FilesSoFar(dir, gpath, pending - {k}, done + [k], text + FileText(path, dir.files[k]))
  {
    NextKey(dir.files.Keys, pending, done, k);
    FileRecordsSnoc(dir.files, gpath, done, k);
    RenderAllSnoc(FileRecords(dir.files, gpath, done), FileRec(gpath, dir.files[k]));
  }

  lemma FilesDone(dir: Dir, gpath: seq<string>, pending: set<string>, done: seq<string>, text: string)
    requires FilesSoFar(dir, gpath, pending, done, text) && pending == {}
    ensures text == RenderAll(FileRecords(dir.files, gpath, SortedKeys(dir.files.Keys)))
  {
    assert SortedKeys(pending) == [];
    assert done + [] == done;
  }

  /** `saveToDisk`'s loop over the files of a dequeued directory: header, content and separator each. */
  method WriteFiles(dir: Dir, path: string, ghost gpath: seq<string>) returns (text: string)
    requires path == JoinPath(gpath)
    ensures text == RenderAll(FileRecords(dir.files, gpath, SortedKeys(dir.files.Keys)))
  {
    text := "";
    var pending := dir.files.Keys;
    ghost var done: seq<string> := [];
    while pending != {}
      invariant FilesSoFar(dir, gpath, pending, done, text)
      decreases |pending|
    {
      LeastExists(pending);
      var k :| IsLeast(k, pending);
      FileStep(dir, path, gpath, pending, done, text, k);
      text := text + FileText(path, dir.files[k]);
      done := done + [k];
      pending := pending - {k};
    }
    FilesDone(dir, gpath, pending, done, text);
  }

  /** Draining a queue writes what its head writes, then what the rest and the head's children write. */
  lemma BfsUnfold(q: seq<Entry>)
    requires q != []
    ensures RenderAll(Bfs(q)) == RenderAll(Visit(q[0])) + RenderAll(Bfs(q[1..] + Children(q[0])))
  {
    RenderAllConcat(Visit(q[0]), Bfs(q[1..] + Children(q[0])));
  }

  /** `saveToDisk`'s outer invariant: what is written, followed by what the queue will write, is the whole store. */
  ghost predicate Saving(t: Dir, q: seq<(Dir, string)>, gq: seq<Entry>, out: string)
  {
    Mirrors(q, gq) && out + RenderAll(Bfs(gq)) == Serialize(t)
  }

  /** Writing the head's text moves it from what the queue will write to what is written. */
  lemma SaveText(t: Dir, gq: seq<Entry>, out: string, visitText: string)
    requires gq != [] && out + RenderAll(Bfs(gq)) == Serialize(t)
    requires visitText == RenderAll(Visit(gq[0]))
    ensures (out + visitText) + RenderAll(Bfs(gq[1..] + Children(gq[0]))) == Serialize(t)
  {
    BfsUnfold(gq);
    Regroup(out, visitText, RenderAll(Bfs(gq[1..] + Children(gq[0]))));
  }

  lemma Regroup(a: string, b: string, c: string)
    ensures a + (b + c) == (a + b) + c
  {
  }

  lemma SaveStep(t: Dir, q: seq<(Dir, string)>, gq: seq<Entry>, out: string,
                 dirText: string, fileText: string, pushed: seq<(Dir, string)>)
    requires Saving(t, q, gq, out) && q != []
    requires dirText == RenderAll(DirRecords(gq[0].path, SortedKeys(q[0].0.subDirs.Keys)))
    requires fileText == RenderAll(FileRecords(q[0].0.files, gq[0].path, SortedKeys(q[0].0.files.Keys)))
    requires Mirrors(pushed, ChildEntries(q[0].0.subDirs, gq[0].path, SortedKeys(q[0].0.subDirs.Keys)))
    ensures Saving(t, q[1..] + pushed, gq[1..] + Children(gq[0]), out + (dirText + fileText))
  {
    var e := gq[0];
    assert q[0].0 == e.dir;
    RenderAllConcat(DirRecords(e.path, SortedKeys(e.dir.subDirs.Keys)), FileRecords(e.dir.files, e.path, SortedKeys(e.dir.files.Keys)));
    SaveText(t, gq, out, dirText + fileText);
    MirrorsConcat(q[1..], gq[1..], pushed, Children(e));
  }

  /**
   * `saveToDisk`'s loop: a queue of (directory, path text) pairs started from the root with
   * the empty path; each dequeued directory writes and enqueues its subdirectories, then
   * writes its files, in key order. The stream is returned as the result.
   */
  method Save(t: Dir) returns (out: string)
    ensures out == Serialize(t)
  {
    var q: seq<(Dir, string)> := [(t, "")];
    ghost var gq: seq<Entry> := [Entry(t, [])];
    out := "";
    while q != []
      invariant Saving(t, q, gq, out)
      decreases QueueSize(gq)
    {
      var dir := q[0].0;
      var path := q[0].1;
      var dirText, pushed := WriteSubDirs(dir, path, gq[0].path);
      var fileText := WriteFiles(dir, path, gq[0].path);
      SaveStep(t, q, gq, out, dirText, fileText, pushed);
      BfsStepShrinks(gq);
      out := out + (dirText + fileText);
      q := q[1..] + pushed;
      gq := gq[1..] + Children(gq[0]);
    }
    assert out + "" == out;
  }

  /*──────────────────────── what loadFromDisk reads ────────────────────────*/

  /** The four fields `loadFromDisk` cuts out of an `F|` line. */
  datatype Header = Header(path: string, createdAt: string, modifiedAt: string, len: nat)

  /**
   * The fields of an `F|` line, found with three `find('|', …)` calls, or None where the text
   * `stoul` reads for the length does not start with a digit. A missing first or third `'|'`
   * makes `stoul` read the line from its start, "F|…". A missing second `'|'` wraps the offset arithmetic: the third search
   * restarts at offset 0 and finds the `'|'` at offset 1, so the created stamp is the rest of the
   * line, the modified stamp is "F" and the length is read from the start of the path.
   */
  function ParseHeader(line: string): (r: Option<Header>)
    requires StartsWith(line, "F|")
    ensures r.Some? ==> '|' !in r.value.path
  {
    var u := line[2..];
    var i1 := IndexOf(u, '|');
    if i1 == |u| then None else ParseStamps(u, line[..1], u[..i1], u[i1 + 1..])
  }

  /** The fields after the path `path`; `u` is the line after its tag and `tag` its first byte. */
  function ParseStamps(u: string, tag: string, path: string, v: string): (r: Option<Header>)
    ensures r.Some? ==> r.value.path == path
  {
    var i2 := IndexOf(v, '|');
    if i2 == |v| then
      var ds := LeadingDigits(u);
      if ds == [] then None else Some(Header(path, v, tag, DigitsValue(ds)))
    else ParseLength(path, v[..i2], v[i2 + 1..])
  }

  /** The modified stamp and the length after the created stamp `created`. */
  function ParseLength(path: string, created: string, w: string): (r: Option<Header>)
    ensures r.Some? ==> r.value.path == path
  {
    var i3 := IndexOf(w, '|');
    if i3 == |w| then None
    else
      var ds := LeadingDigits(w[i3 + 1..]);
      if ds == [] then None else Some(Header(path, created, w[..i3], DigitsValue(ds)))
  }

  /** A header whose fields avoid '|' parses back into those fields. */
  lemma ParseFields(path: string, created: string, modified: string, digits: string)
    requires '|' !in path && '|' !in created && '|' !in modified && digits != [] && AllDigits(digits)
    ensures StartsWith("F|" + (path + "|" + (created + "|" + (modified + "|" + digits))), "F|")
    ensures ParseHeader("F|" + (path + "|" + (created + "|" + (modified + "|" + digits))))
         == Some(Header(path, created, modified, DigitsValue(digits)))
  {
    var w := modified + "|" + digits;
    var v := created + "|" + w;
    ParsePathFound(path, v);
    ParseStampsFound(path + "|" + v, "F", path, created, w);
    ParseLengthFound(path, created, modified, digits);
  }

  lemma ParsePathFound(path: string, v: string)
    requires '|' !in path
    ensures StartsWith("F|" + (path + "|" + v), "F|")
    ensures ParseHeader("F|" + (path + "|" + v)) == ParseStamps(path + "|" + v, "F", path, v)
  {
    var u := path + "|" + v;
    var line := "F|" + u;
    assert line[2..] == u && line[..1] == "F";
    IndexOfAfter(path, '|', v);
  }

  lemma ParseStampsFound(u: string, tag: string, path: string, created: string, w: string)
    requires '|' !in created
    ensures ParseStamps(u, tag, path, created + "|" + w) == ParseLength(path, created, w)
  {
    IndexOfAfter(created, '|', w);
  }

  lemma ParseLengthFound(path: string, created: string, modified: string, digits: string)
    requires '|' !in modified && digits != [] && AllDigits(digits)
    ensures ParseLength(path, created, modified + "|" + digits) == Some(Header(path, created, modified, DigitsValue(digits)))
  {
    IndexOfAfter(modified, '|', digits);
    LeadingDigitsAll(digits);
  }

  /** The header line of a file whose fields avoid the separators parses back into those fields. */
  lemma HeaderLineParses(dir: string, f: File)
    requires '|' !in dir && '\n' !in dir && '|' !in f.name && '\n' !in f.name && '/' !in f.name && '|' !in f.createdAt && '\n' !in f.createdAt && '|' !in f.modifiedAt && '\n' !in f.modifiedAt
    ensures StartsWith(HeaderLine(dir, f), "F|")
    ensures ParseHeader(HeaderLine(dir, f)) == Some(Header(dir + "/" + f.name, f.createdAt, f.modifiedAt, |f.content|))
  {
    var digits := Decimal(|f.content|);
    DecimalRoundTrip(|f.content|);
    DigitsAvoid(digits, '|');
    ParseFields(dir + "/" + f.name, f.createdAt, f.modifiedAt, digits);
  }

  /** ... and holds no newline, so it is read back as one line. */
  lemma HeaderLineOneLine(dir: string, f: File)
    requires '|' !in dir && '\n' !in dir && '|' !in f.name && '\n' !in f.name && '/' !in f.name && '|' !in f.createdAt && '\n' !in f.createdAt && '|' !in f.modifiedAt && '\n' !in f.modifiedAt
    ensures '\n' !in HeaderLine(dir, f)
  {
    DecimalRoundTrip(|f.content|);
    DigitsAvoid(Decimal(|f.content|), '\n');
  }

  /** The cut at the last '/' of a file's path: (directory part, base name). */
  function SplitLast(path: string): (r: (string, string))
    ensures '/' !in r.1
    ensures LastIndexOf(path, '/').Some? ==> path == r.0 + "/" + r.1
    ensures LastIndexOf(path, '/').None? ==> r == ("", path)
  {
    match LastIndexOf(path, '/')
    case None => ("", path)
    case Some(i) =>
      assert path == path[..i] + "/" + path[i + 1..];
      (path[..i], path[i + 1..])
  }

  /** A `D|` line in the corrected loader: `ensureDir` on its path; a refused walk changes nothing. */
  function ApplyDir(t: Dir, p: seq<string>): Dir
  {
    match EnsurePath(t, p)
    case None => t
    case Some(t1) => t1
  }

  /**
   * An `F|` line in the corrected loader: the parent is created as `ensureDir` does, then the
   * file is added unless its name is already used there, by a file or by a subdirectory.
   */
  function ApplyFile(t: Dir, p: seq<string>, f: File): Dir
  {
    match EnsurePath(t, p)
    case None => t
    case Some(t1) =>
      var parent := Lookup(t1, p).value;
      if InUse(parent, f.name) then t1 else UpdateAt(t1, p, parent.(files := parent.files[f.name := f]))
  }

  /** The same step as filesystem.cpp:124-134 writes it: only the parent's files are consulted. */
  function ApplyFileAsWritten(t: Dir, p: seq<string>, f: File): Dir
  {
    var t1 := EnsurePathAsWritten(t, p);
    var parent := Lookup(t1, p).value;
    if f.name in parent.files then t1 else UpdateAt(t1, p, parent.(files := parent.files[f.name := f]))
  }

  /** The zero bytes `string content(len, '\0')` keeps where the stream ran out. */
  function Nuls(n: nat): string
  {
    seq(n, _ => '\0')
  }

  /**
   * One `F|` record with header `h`, where `rest` is the input after its line: the tree after
   * it and the input left after the separator byte, or None once the stream has failed. The
   * content is the next `len` bytes; where fewer are left, those padded with zero bytes.
   */
  function ReadFile(t: Dir, h: Header, rest: string): (r: (Dir, Option<string>))
    ensures r.1.Some? ==> |r.1.value| < |rest|
  {
    var split := SplitLast(h.path);
    var content := if h.len <= |rest| then rest[..h.len] else rest + Nuls(h.len - |rest|);
    var t1 := ApplyFile(t, Segments(split.0), File(split.1, content, h.createdAt, h.modifiedAt));
    (t1, if h.len < |rest| then Some(rest[h.len + 1..]) else None)
  }

  /**
   * The tree the corrected loader (`loadFromDisk` with the corrections of `ApplyDir` and
   * `ApplyFile`) builds on `t` from the unread part `s` of the store, or None where the length
   * field of an `F|` line does not start with a digit. Lines that start with neither tag are
   * ignored.
   */
  function LoadStore(t: Dir, s: string): Option<Dir>
    decreases |s|
  {
    if s == [] then Some(t)
    else
      var (line, rest) := CutAt(s, '\n');
      if StartsWith(line, "D|") then LoadStore(ApplyDir(t, Segments(line[2..])), rest)
      else if StartsWith(line, "F|") then
        match ParseHeader(line)
        case None => None
        case Some(h) =>
          var (t1, more) := ReadFile(t, h, rest);
          if more.Some? then LoadStore(t1, more.value) else Some(t1)
      else LoadStore(t, rest)
  }

  /** Lifts the result of a walk below `c` to the whole tree `t`. */
  function Graft(t: Dir, c: seq<string>, o: Option<Dir>): Option<Dir>
  {
    match o
    case None => None
    case Some(n) => Some(UpdateAt(t, c, n))
  }

  /** A walk through `c + q` is a walk to the existing directory at `c`, then through `q` below it. */
  lemma {:induction false} EnsurePathConcat(t: Dir, c: seq<string>, q: seq<string>)
    requires Lookup(t, c).Some?
    ensures EnsurePath(t, c + q) == Graft(t, c, EnsurePath(Lookup(t, c).value, q))
    decreases |c|
  {
    if c == [] {
      assert c + q == q;
    } else {
      assert (c + q)[0] == c[0] && (c + q)[1..] == c[1..] + q;
      EnsurePathConcat(t.subDirs[c[0]], c[1..], q);
    }
  }

  /** The invariant of `ensureDir`'s loop: `u` and `cur` are the tree and directory reached, `rem` is the unread path. */
  ghost predicate Walking(t: Dir, relPath: string, u: Dir, cur: seq<string>, rem: string)
  {
    && Lookup(u, cur).Some?
    && cur + NonEmpty(Tokens(rem)) == Segments(relPath)
    && EnsurePath(t, Segments(relPath)) == Graft(u, cur, EnsurePath(Lookup(u, cur).value, NonEmpty(Tokens(rem))))
  }

  lemma WalkStart(t: Dir, relPath: string)
    ensures Walking(t, relPath, t, [], relPath)
  {
    assert [] + Segments(relPath) == Segments(relPath);
  }

  /** The next piece of the unread path, after one `getline`. */
  lemma WalkTokens(rem: string, token: string, next: string)
    requires rem != [] && CutAt(rem, '/') == (token, next)
    ensures NonEmpty(Tokens(rem)) == (if token == [] then [] else [token]) + NonEmpty(Tokens(next))
  {
    TokensCut(rem);
    assert Tokens(rem)[1..] == Tokens(next);
  }

  lemma WalkSkip(t: Dir, relPath: string, u: Dir, cur: seq<string>, rem: string, next: string)
    requires Walking(t, relPath, u, cur, rem) && rem != [] && CutAt(rem, '/') == ([], next)
    ensures Walking(t, relPath, u, cur, next)
  {
    WalkTokens(rem, [], next);
    assert [] + NonEmpty(Tokens(next)) == NonEmpty(Tokens(next));
  }

  /** An existing subdirectory is entered. */
  lemma WalkInto(t: Dir, relPath: string, u: Dir, cur: seq<string>, rem: string, token: string, next: string)
    requires Walking(t, relPath, u, cur, rem) && rem != [] && CutAt(rem, '/') == (token, next) && token != []
    requires token in Lookup(u, cur).value.subDirs
    ensures Walking(t, relPath, u, cur + [token], next)
  {
    WalkTokens(rem, token, next);
    var node := Lookup(u, cur).value;
    var more := NonEmpty(Tokens(next));
    assert (cur + [token]) + more == cur + ([token] + more);
    assert ([token] + more)[0] == token && ([token] + more)[1..] == more;
    LookupConcat(u, cur, [token]);
    if EnsurePath(node.subDirs[token], more).Some? {
      UpdateAtConcat(u, cur, [token], EnsurePath(node.subDirs[token], more).value);
    }
  }

  /** A piece naming a file of the directory reached refuses the walk (the corrected `ensureDir`). */
  lemma WalkBlocked(t: Dir, relPath: string, u: Dir, cur: seq<string>, rem: string, token: string, next: string)
    requires Walking(t, relPath, u, cur, rem) && rem != [] && CutAt(rem, '/') == (token, next) && token != []
    requires token !in Lookup(u, cur).value.subDirs && token in Lookup(u, cur).value.files
    ensures EnsurePath(t, Segments(relPath)) == None
  {
    WalkTokens(rem, token, next);
  }

  /** Creating an empty child and then replacing it is replacing the parent by the parent with that child. */
  lemma CreateThenReplace(u: Dir, cur: seq<string>, token: string, c: Dir)
    requires Lookup(u, cur).Some? && token !in Lookup(u, cur).value.subDirs
    ensures var node := Lookup(u, cur).value;
      var u' := UpdateAt(u, cur, node.(subDirs := node.subDirs[token := EmptyDir(token)]));
      && Lookup(u', cur + [token]) == Some(EmptyDir(token))
      && UpdateAt(u', cur + [token], c) == UpdateAt(u, cur, node.(subDirs := node.subDirs[token := c]))
  {
    var node := Lookup(u, cur).value;
    var node' := node.(subDirs := node.subDirs[token := EmptyDir(token)]);
    var u' := UpdateAt(u, cur, node');
    assert node'.(subDirs := node'.subDirs[token := c]) == node.(subDirs := node.subDirs[token := c]);
    LookupUpdateAt(u, cur, node');
    UpdateAtConcat(u', cur, [token], c);
    UpdateAtTwice(u, cur, node', node.(subDirs := node.subDirs[token := c]));
    LookupConcat(u', cur, [token]);
  }

  /** A missing directory is created and entered. */
  lemma WalkCreate(t: Dir, relPath: string, u: Dir, cur: seq<string>, rem: string, token: string, next: string)
    requires Walking(t, relPath, u, cur, rem) && rem != [] && CutAt(rem, '/') == (token, next) && token != []
    requires !InUse(Lookup(u, cur).value, token)
    ensures var node := Lookup(u, cur).value;
      Walking(t, relPath, UpdateAt(u, cur, node.(subDirs := node.subDirs[token := EmptyDir(token)])), cur + [token], next)
  {
    WalkTokens(rem, token, next);
    var more := NonEmpty(Tokens(next));
    assert (cur + [token]) + more == cur + ([token] + more);
    assert ([token] + more)[0] == token && ([token] + more)[1..] == more;
    EnsurePathFresh(EmptyDir(token), more);
    CreateThenReplace(u, cur, token, EnsurePath(EmptyDir(token), more).value);
  }

  lemma WalkDone(t: Dir, relPath: string, u: Dir, cur: seq<string>)
    requires Walking(t, relPath, u, cur, [])
    ensures EnsurePath(t, Segments(relPath)) == Some(u) && cur == Segments(relPath)
  {
    assert cur + [] == cur;
    UpdateAtSame(u, cur);
  }

  /**
   * `ensureDir`: walks the '/'-separated pieces of `relPath` from `t`, skipping empty pieces
   * and creating each missing directory; corrected to refuse a piece that names a file. The
   * result is the new tree with the path of the directory reached.
   */
  method EnsureDir(t: Dir, relPath: string) returns (r: Option<Dir>, leaf: seq<string>)
    ensures r == EnsurePath(t, Segments(relPath))
    ensures r.Some? ==> leaf == Segments(relPath) && Lookup(r.value, leaf).Some?
  {
    var u := t;
    var cur: seq<string> := [];
    var rem := relPath;
    WalkStart(t, relPath);
    while rem != []
      invariant Walking(t, relPath, u, cur, rem)
      decreases |rem|
    {
      var cut := CutAt(rem, '/');
      var token := cut.0;
      if token != [] {
        var node := Lookup(u, cur).value;
        if token in node.subDirs {
          WalkInto(t, relPath, u, cur, rem, token, cut.1);
        } else if token in node.files {
          WalkBlocked(t, relPath, u, cur, rem, token, cut.1);
          return None, [];
        } else {
          WalkCreate(t, relPath, u, cur, rem, token, cut.1);
          u := UpdateAt(u, cur, node.(subDirs := node.subDirs[token := EmptyDir(token)]));
        }
        cur := cur + [token];
      } else {
        WalkSkip(t, relPath, u, cur, rem, cut.1);
      }
      rem := cut.1;
    }
    WalkDone(t, relPath, u, cur);
    return Some(u), cur;
  }

  lemma LoadDirLine(t: Dir, s: string)
    requires s != [] && StartsWith(CutAt(s, '\n').0, "D|")
    ensures LoadStore(t, s) == LoadStore(ApplyDir(t, Segments(CutAt(s, '\n').0[2..])), CutAt(s, '\n').1)
  {
  }

  lemma LoadFileLine(t: Dir, s: string)
    requires s != [] && !StartsWith(CutAt(s, '\n').0, "D|") && StartsWith(CutAt(s, '\n').0, "F|")
    ensures ParseHeader(CutAt(s, '\n').0).None? ==> LoadStore(t, s).None?
    ensures ParseHeader(CutAt(s, '\n').0).Some? ==>
      var step := ReadFile(t, ParseHeader(CutAt(s, '\n').0).value, CutAt(s, '\n').1);
      LoadStore(t, s) == if step.1.Some? then LoadStore(step.0, step.1.value) else Some(step.0)
  {
  }

  lemma LoadOtherLine(t: Dir, s: string)
    requires s != [] && !StartsWith(CutAt(s, '\n').0, "D|") && !StartsWith(CutAt(s, '\n').0, "F|")
    ensures LoadStore(t, s) == LoadStore(t, CutAt(s, '\n').1)
  {
  }

  /** A `D|` line naming a directory that exists already leaves the tree as it was. */
  lemma LoadExistingDir(t: Dir, line: string, rest: string)
    requires '\n' !in line && StartsWith(line, "D|") && Lookup(t, Segments(line[2..])).Some?
    ensures LoadStore(t, line + "\n" + rest) == LoadStore(t, rest)
  {
    CutAtAfter(line, '\n', rest);
    LoadDirLine(t, line + "\n" + rest);
    EnsurePathExisting(t, Segments(line[2..]));
  }

  /** The same `D|` line twice in a row loads as it does once. */
  lemma LoadDirTwice(t: Dir, line: string, rest: string)
    requires '\n' !in line && StartsWith(line, "D|")
    ensures LoadStore(t, line + "\n" + line + "\n" + rest) == LoadStore(t, line + "\n" + rest)
  {
    var p := Segments(line[2..]);
    var once := line + "\n" + rest;
    assert line + "\n" + line + "\n" + rest == line + "\n" + once;
    CutAtAfter(line, '\n', once);
    LoadDirLine(t, line + "\n" + once);
    CutAtAfter(line, '\n', rest);
    LoadDirLine(t, once);
    LoadDirLine(ApplyDir(t, p), once);
    if EnsurePath(t, p).Some? {
      EnsurePathIdempotent(t, p);
    }
  }

  /** The file at `path` would land in an existing directory where its name is already used. */
  predicate NameTaken(t: Dir, path: string)
  {
    var split := SplitLast(path);
    Lookup(t, Segments(split.0)).Some? && InUse(Lookup(t, Segments(split.0)).value, split.1)
  }

  /**
   * An `F|` record whose name is already used in its existing directory: its content is read
   * past and the tree stays as it was, so of two records for one file the first one wins.
   */
  lemma LoadExistingFile(t: Dir, line: string, rest: string)
    requires '\n' !in line && StartsWith(line, "F|") && ParseHeader(line).Some?
    requires NameTaken(t, ParseHeader(line).value.path)
    ensures var n := ParseHeader(line).value.len;
      LoadStore(t, line + "\n" + rest) == if n < |rest| then LoadStore(t, rest[n + 1..]) else Some(t)
  {
    CutAtAfter(line, '\n', rest);
    LoadFileLine(t, line + "\n" + rest);
    var h := ParseHeader(line).value;
    var split := SplitLast(h.path);
    var content := if h.len <= |rest| then rest[..h.len] else rest + Nuls(h.len - |rest|);
    ApplyFileFirstWins(t, Segments(split.0), File(split.1, content, h.createdAt, h.modifiedAt));
  }

  /**
   * `loadFromDisk`'s loop, with the two corrections, over the store `s`, on the tree `t` it
   * starts from; the result is None where the length field of an `F|` line does not start with a
   * digit.
   */
  method Load(t: Dir, s: string) returns (r: Option<Dir>)
    ensures r == LoadStore(t, s)
  {
    var u := t;
    var rem := s;
    while rem != []
      invariant LoadStore(u, rem) == LoadStore(t, s)
      decreases |rem|
    {
      var cut := CutAt(rem, '\n');
      var line := cut.0;
      if StartsWith(line, "D|") {
        LoadDirLine(u, rem);
        var e, _ := EnsureDir(u, line[2..]);
        if e.Some? {
          u := e.value;
        }
        rem := cut.1;
      } else if StartsWith(line, "F|") {
        LoadFileLine(u, rem);
        var h := ParseHeader(line);
        if h.None? {
          return None;
        }
        var more;
        u, more := ReadFileStep(u, h.value, cut.1);
        if more.None? {
          return Some(u);
        }
        rem := more.value;
      } else {
        LoadOtherLine(u, rem);
        rem := cut.1;
      }
    }
    return Some(u);
  }

  /** The body of `loadFromDisk`'s loop for an `F|` line with header `h`, where `rest` follows the line. */
  method ReadFileStep(t: Dir, h: Header, rest: string) returns (u: Dir, more: Option<string>)
    ensures (u, more) == ReadFile(t, h, rest)
  {
    var len := h.len;
    var content := if len <= |rest| then rest[..len] else rest + Nuls(len - |rest|);
    var split := SplitLast(h.path);
    var e, leaf := EnsureDir(t, split.0);
    u := t;
    if e.Some? {
      var parent := Lookup(e.value, leaf).value;
      u := e.value;
      if !InUse(parent, split.1) {
        var f := File(split.1, content, h.createdAt, h.modifiedAt);
        u := UpdateAt(u, leaf, parent.(files := parent.files[f.name := f]));
      }
    }
    more := if len < |rest| then Some(rest[len + 1..]) else None;
  }

  /*──────────────────────── what loading preserves ────────────────────────*/

  lemma ApplyDirGrows(t: Dir, p: seq<string>)
    requires WellKeyed(t) && Unique(t)
    ensures var t1 := ApplyDir(t, p); Sub(t, t1) && WellKeyed(t1) && Unique(t1) && t1.name == t.name
  {
    EnsurePathCreates(t, p);
    if EnsurePath(t, p).Some? {
      OnlyAddsDirsSub(t, EnsurePath(t, p).value);
      EnsurePathWellKeyed(t, p);
      EnsurePathUnique(t, p);
    } else {
      SubReflexive(t);
    }
  }

  lemma UniqueLookup(t: Dir, p: seq<string>)
    requires Unique(t) && Lookup(t, p).Some?
    ensures Unique(Lookup(t, p).value)
    decreases |p|
  {
    if p != [] {
      UniqueLookup(t.subDirs[p[0]], p[1..]);
    }
  }

  lemma WellKeyedLookup(t: Dir, p: seq<string>)
    requires WellKeyed(t) && Lookup(t, p).Some?
    ensures WellKeyed(Lookup(t, p).value)
    ensures p != [] ==> Lookup(t, p).value.name == p[|p| - 1]
    decreases |p|
  {
    if p != [] {
      WellKeyedLookup(t.subDirs[p[0]], p[1..]);
      if p[1..] != [] {
        assert p[1..][|p[1..]| - 1] == p[|p| - 1];
      }
    }
  }

  lemma {:induction false} ApplyFileGrows(t: Dir, p: seq<string>, f: File)
    requires WellKeyed(t) && Unique(t)
    ensures var t1 := ApplyFile(t, p, f); Sub(t, t1) && WellKeyed(t1) && Unique(t1) && t1.name == t.name
  {
    ApplyDirGrows(t, p);
    match EnsurePath(t, p)
    case None =>
    case Some(t1) =>
      var parent := Lookup(t1, p).value;
      if !InUse(parent, f.name) {
        var n := parent.(files := parent.files[f.name := f]);
        WellKeyedLookup(t1, p);
        UniqueLookup(t1, p);
        SubAddFile(parent, f);
        UpdateAtWellKeyed(t1, p, n);
        UpdateAtUnique(t1, p, n);
        UpdateAtGrows(t1, p, n);
        SubTransitive(t, t1, UpdateAt(t1, p, n));
      }
  }

  /**
   * Loading only adds to the tree it starts from: nothing present is changed or removed, and
   * the result keeps every child under its own name with no file named like a subdirectory.
   */
  lemma {:induction false} LoadStoreGrows(t: Dir, s: string)
    requires WellKeyed(t) && Unique(t) && LoadStore(t, s).Some?
    ensures var r := LoadStore(t, s).value; Sub(t, r) && WellKeyed(r) && Unique(r) && r.name == t.name
    decreases |s|
  {
    if s == [] {
      SubReflexive(t);
    } else {
      var (line, rest) := CutAt(s, '\n');
      if StartsWith(line, "D|") {
        var t1 := ApplyDir(t, Segments(line[2..]));
        ApplyDirGrows(t, Segments(line[2..]));
        LoadStoreGrows(t1, rest);
        SubTransitive(t, t1, LoadStore(t, s).value);
      } else if StartsWith(line, "F|") {
        var h := ParseHeader(line).value;
        var (t1, more) := ReadFile(t, h, rest);
        ReadFileGrows(t, h, rest);
        if more.Some? {
          LoadStoreGrows(t1, more.value);
          SubTransitive(t, t1, LoadStore(t, s).value);
        }
      } else {
        LoadStoreGrows(t, rest);
      }
    }
  }

  lemma ReadFileGrows(t: Dir, h: Header, rest: string)
    requires WellKeyed(t) && Unique(t)
    ensures var t1 := ReadFile(t, h, rest).0; Sub(t, t1) && WellKeyed(t1) && Unique(t1) && t1.name == t.name
  {
    var split := SplitLast(h.path);
    var content := if h.len <= |rest| then rest[..h.len] else rest + Nuls(h.len - |rest|);
    ApplyFileGrows(t, Segments(split.0), File(split.1, content, h.createdAt, h.modifiedAt));
  }

  /** A file record for a name already used in an existing directory is ignored: the first record wins. */
  lemma ApplyFileFirstWins(t: Dir, p: seq<string>, f: File)
    requires Lookup(t, p).Some? && InUse(Lookup(t, p).value, f.name)
    ensures ApplyFile(t, p, f) == t
  {
    EnsurePathExisting(t, p);
  }

  /** Otherwise, in an existing directory, the record adds exactly its file and nothing else changes. */
  lemma ApplyFileAdds(t: Dir, p: seq<string>, f: File)
    requires Lookup(t, p).Some? && !InUse(Lookup(t, p).value, f.name)
    ensures var d := Lookup(t, p).value;
      ApplyFile(t, p, f) == UpdateAt(t, p, d.(files := d.files[f.name := f]))
  {
    EnsurePathExisting(t, p);
  }

  /** The loader as written stores a file under the name of a subdirectory of its parent, breaking I1. */
  lemma ApplyFileAsWrittenBreaksUnique()
    ensures var t := Dir("root", map["x" := EmptyDir("x")], map[]);
      Unique(t) && WellKeyed(t) && !Unique(ApplyFileAsWritten(t, [], NewFile("x", "t")))
  {
    var t := Dir("root", map["x" := EmptyDir("x")], map[]);
    assert "x" in ApplyFileAsWritten(t, [], NewFile("x", "t")).files;
  }

  /** Apart from a name taken by a subdirectory, the corrected step does what the original does. */
  lemma ApplyFileAgrees(t: Dir, p: seq<string>, f: File)
    requires EnsurePath(t, p).Some?
    requires f.name !in Lookup(EnsurePath(t, p).value, p).value.subDirs
    ensures ApplyFile(t, p, f) == ApplyFileAsWritten(t, p, f)
  {
    EnsurePathAgrees(t, p);
  }
}
