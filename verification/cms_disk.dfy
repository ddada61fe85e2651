/** The part of Node's `fs` module the CMS relies on, as a file system of
    directories and text files. A path is the list of its components (`[]` is
    the root, `path.join(a, b)` is `a + [b]`); directories are listed in the
    order they were created. The CSV library (Papa Parse) is not part of this
    model: its parser and writer are the two functions of a `CsvCodec`. */
module CmsDisk {
  import opened CsvRecord
  import opened Seqs

  type Path = seq<string>

  /** A table as the CMS holds it: the header fields and one record per row. */
  datatype Table = Table(header: seq<string>, rows: seq<Row>)

  /** `parse(text)` is `{ header: meta.fields ?? [], rows: data }` of
      `Papa.parse(text, { header: true, skipEmptyLines: true })`;
      `unparse(header, rows)` is the text `Papa.unparse` writes for the rows
      with the header as columns. */
  datatype CsvCodec = CsvCodec(parse: string -> Table, unparse: (seq<string>, seq<Row>) -> string)

  predicate IsPrefix(p: Path, q: Path) {
    |p| <= |q| && q[..|p|] == p
  }

  /** What lies on the way to `p` lies on the way to any path below `p`. */
  lemma PrefixOfLonger(d: Path, p: Path, tail: Path)
    requires IsPrefix(d, p)
    ensures IsPrefix(d, p + tail)
  {
    assert (p + tail)[..|d|] == p[..|d|];
  }

  function Parent(p: Path): Path
    requires |p| > 0
  {
    p[..|p| - 1]
  }

  /** Every directory sits in a directory (or at the root). */
  ghost predicate DirsClosed(dirs: seq<Path>) {
    forall d :: d in dirs ==> |d| > 0 && (|d| == 1 || Parent(d) in dirs)
  }

  /** Every file sits in a directory (or at the root) and is not a directory. */
  ghost predicate FilesPlaced(files: map<Path, string>, dirs: seq<Path>) {
    forall f :: f in files ==> |f| > 0 && f !in dirs && (|f| == 1 || Parent(f) in dirs)
  }

  /** The names of the directories directly below `parent`, in creation order
      (`readdirSync(parent, { withFileTypes: true }).filter(isDirectory)`). */
  function ChildDirsOf(dirs: seq<Path>, parent: Path): (names: seq<string>)
    ensures |names| <= |dirs|
  {
    if |dirs| == 0 then []
    else
      var rest := ChildDirsOf(dirs[..|dirs| - 1], parent);
      var d := dirs[|dirs| - 1];
      if |d| == |parent| + 1 && d[..|parent|] == parent then rest + [d[|parent|]] else rest
  }

  lemma {:induction false} ChildDirsMember(dirs: seq<Path>, parent: Path, n: string)
    ensures n in ChildDirsOf(dirs, parent) <==> parent + [n] in dirs
    decreases |dirs|
  {
    if |dirs| > 0 {
      var init := dirs[..|dirs| - 1];
      var d := dirs[|dirs| - 1];
      ChildDirsMember(init, parent, n);
      assert dirs == init + [d];
      if |d| == |parent| + 1 && d[..|parent|] == parent {
        assert d == parent + [d[|parent|]];
      }
    }
  }

  /** Directories no deeper than `parent` do not change its listing. */
  lemma {:induction false} ChildDirsAppendShallow(dirs: seq<Path>, extra: seq<Path>, parent: Path)
    requires forall q :: q in extra ==> |q| <= |parent|
    ensures ChildDirsOf(dirs + extra, parent) == ChildDirsOf(dirs, parent)
    decreases |extra|
  {
    if |extra| > 0 {
      var init := extra[..|extra| - 1];
      assert (dirs + extra)[..|dirs + extra| - 1] == dirs + init;
      ChildDirsAppendShallow(dirs, init, parent);
    } else {
      assert dirs + extra == dirs;
    }
  }

  /** A path that is not a directory has nothing listed below it. */
  lemma NoChildrenOfMissing(dirs: seq<Path>, parent: Path)
    requires DirsClosed(dirs) && parent !in dirs && parent != []
    ensures ChildDirsOf(dirs, parent) == []
  {
    var names := ChildDirsOf(dirs, parent);
    if names != [] {
      ChildDirsMember(dirs, parent, names[0]);
    }
  }

  /** The ancestors `p[..1]`, …, `p[..n]` of `p` that `dirs` lacks, shortest first. */
  function NewPrefixes(dirs: seq<Path>, p: Path, n: nat): (r: seq<Path>)
    requires n <= |p|
    ensures forall q :: q in r ==> IsPrefix(q, p) && 1 <= |q| <= n && q !in dirs
    ensures forall i :: 1 <= i <= n && p[..i] !in dirs ==> p[..i] in r
  {
    if n == 0 then []
    else NewPrefixes(dirs, p, n - 1) + (if p[..n] in dirs then [] else [p[..n]])
  }

  /** `dirs` without `p` and everything below it. */
  function Outside(dirs: seq<Path>, p: Path): (r: seq<Path>)
    ensures forall q :: q in r <==> q in dirs && !IsPrefix(p, q)
  {
    if |dirs| == 0 then []
    else
      var rest := Outside(dirs[1..], p);
      assert forall q :: q in dirs <==> q == dirs[0] || q in dirs[1..];
      if IsPrefix(p, dirs[0]) then rest else [dirs[0]] + rest
  }

  /** `files` without `p` and everything below it. */
  function Pruned(files: map<Path, string>, p: Path): (r: map<Path, string>)
    ensures forall q :: q in r <==> q in files && !IsPrefix(p, q)
    ensures forall q :: q in r ==> r[q] == files[q]
  {
    map q | q in files && !IsPrefix(p, q) :: files[q]
  }

  /** What lies outside `p` has its parent outside `p` too. */
  lemma OutsideParent(p: Path, q: Path)
    requires |q| > 0 && !IsPrefix(p, q)
    ensures !IsPrefix(p, Parent(q))
  {
    if |p| <= |q| - 1 {
      assert q[..|p|] == Parent(q)[..|p|];
    }
  }

  /** Below a path that is not a directory there is no directory. */
  lemma {:induction false} NoDirBelowMissing(dirs: seq<Path>, p: Path, d: Path)
    requires DirsClosed(dirs) && p != [] && p !in dirs && d in dirs
    ensures !IsPrefix(p, d)
    decreases |d|
  {
    assert d[..|d|] == d;
    if |d| > |p| && IsPrefix(p, d) {
      assert Parent(d)[..|p|] == p;
      NoDirBelowMissing(dirs, p, Parent(d));
    }
  }

  /** Below a path that is not a directory there is no file, and it is not a
      file itself unless it is one. */
  lemma NoFileBelowMissing(dirs: seq<Path>, files: map<Path, string>, p: Path, f: Path)
    requires DirsClosed(dirs) && FilesPlaced(files, dirs) && p != [] && p !in dirs && p !in files && f in files
    ensures !IsPrefix(p, f)
  {
    assert f[..|f|] == f;
    if |f| > |p| && IsPrefix(p, f) {
      assert Parent(f)[..|p|] == p;
      NoDirBelowMissing(dirs, p, Parent(f));
    }
  }

  lemma {:induction false} OutsideNothing(dirs: seq<Path>, p: Path)
    requires forall d :: d in dirs ==> !IsPrefix(p, d)
    ensures Outside(dirs, p) == dirs
    decreases |dirs|
  {
    if |dirs| > 0 {
      assert dirs[0] in dirs;
      OutsideNothing(dirs[1..], p);
    }
  }

  /** Removing a tree that does not exist changes nothing: what
      `if (fs.existsSync(p)) fs.rmSync(p, …)` skips is what `rmSync` with
      `force` would leave alone. */
  lemma MissingTreeUnchanged(dirs: seq<Path>, files: map<Path, string>, p: Path)
    requires DirsClosed(dirs) && FilesPlaced(files, dirs) && p != [] && p !in dirs && p !in files
    ensures Outside(dirs, p) == dirs
    ensures Pruned(files, p) == files
  {
    forall d | d in dirs ensures !IsPrefix(p, d) {
      NoDirBelowMissing(dirs, p, d);
    }
    OutsideNothing(dirs, p);
    forall f | f in files ensures !IsPrefix(p, f) {
      NoFileBelowMissing(dirs, files, p, f);
    }
  }

  class Disk {
    var dirs: seq<Path>
    var files: map<Path, string>

    ghost predicate Valid()
      reads this
    {
      DirsClosed(dirs) && FilesPlaced(files, dirs)
    }

    constructor(dirs: seq<Path>, files: map<Path, string>)
      ensures this.dirs == dirs && this.files == files
    {
      this.dirs := dirs;
      this.files := files;
    }

    predicate IsDir(p: Path)
      reads this
    {
      p == [] || p in dirs
    }

    /** `fs.existsSync(p)`. */
    predicate Exists(p: Path)
      reads this
    {
      IsDir(p) || p in files
    }

    function ChildDirs(parent: Path): seq<string>
      reads this
    {
      ChildDirsOf(dirs, parent)
    }

    /** `fs.mkdirSync(p, { recursive: true })`: every missing ancestor of `p`
        and `p` itself is created; a file in the way fails the call (ENOTDIR)
        before anything is created. */
    method MkdirAll(p: Path) returns (ok: bool)
      requires Valid()
      modifies this
      ensures Valid()
      ensures ok <==> forall f :: f in old(files) ==> !IsPrefix(f, p)
      ensures ok ==> files == old(files) && dirs == old(dirs) + NewPrefixes(old(dirs), p, |p|)
      ensures ok ==> IsDir(p)
      ensures !ok ==> dirs == old(dirs) && files == old(files)
    {
      ok := forall f | f in files :: !IsPrefix(f, p);
      if ok {
        var added := NewPrefixes(dirs, p, |p|);
        forall q | q in added && |q| > 1 ensures Parent(q) in dirs + added {
          assert q == p[..|q|];
          assert Parent(q) == p[..|q| - 1];
        }
        if p != [] {
          assert p[..|p|] == p;
        }
        dirs := dirs + added;
      }
    }

    /** `if (!fs.existsSync(p)) fs.mkdirSync(p, { recursive: true })`; `ok`
        is false when the call throws. The directories it adds all lie on the
        way to `p`. */
    method EnsureDir(p: Path) returns (ok: bool, ghost added: seq<Path>)
      requires Valid()
      modifies this
      ensures Valid()
      ensures files == old(files)
      ensures dirs == old(dirs) + added
      ensures forall q :: q in added ==> IsPrefix(q, p)
      ensures ok ==> Exists(p)
      ensures old(Exists(p)) ==> ok && added == []
    {
      added := [];
      ok := true;
      if !Exists(p) {
        ok := MkdirAll(p);
        if ok {
          added := NewPrefixes(old(dirs), p, |p|);
        }
      }
    }

    /** `EnsureDir(outer)` and then `EnsureDir(inner)`, for `inner` below
        `outer` (the content root, then a type directory in it). `ok` says
        that `inner` ends up a directory, which a `readdirSync(inner)` after
        it needs. What they add lies on the way to `inner`, so its listing
        stays as it was. */
    method EnsureNested(outer: Path, inner: Path) returns (ok: bool)
      requires Valid() && IsPrefix(outer, inner) && inner != []
      modifies this
      ensures Valid()
      ensures files == old(files)
      ensures forall d :: d in old(dirs) ==> d in dirs
      ensures forall d :: d in dirs ==> d in old(dirs) || IsPrefix(d, inner)
      ensures ok <==> IsDir(inner)
      ensures ok ==> ChildDirs(inner) == old(ChildDirs(inner))
    {
      ghost var a1, a2;
      ok, a1 := EnsureDir(outer);
      ok, a2 := EnsureDir(inner);
      forall q | q in a1 ensures IsPrefix(q, inner) {
        assert inner[..|q|] == inner[..|outer|][..|q|];
      }
      ok := IsDir(inner);
      if ok {
        AppendAssoc(old(dirs), a1, a2);
        assert forall q :: q in a1 + a2 ==> |q| <= |inner|;
        ChildDirsAppendShallow(old(dirs), a1 + a2, inner);
        if inner !in old(dirs) {
          NoChildrenOfMissing(old(dirs), inner);
        }
      }
    }

    /** `fs.mkdirSync(p)`: fails (EEXIST, ENOENT) when `p` exists or its
        parent is not a directory. */
    method Mkdir(p: Path) returns (ok: bool)
      requires Valid()
      modifies this
      ensures Valid()
      ensures ok <==> |p| > 0 && !old(Exists(p)) && old(IsDir(Parent(p)))
      ensures ok ==> dirs == old(dirs) + [p] && files == old(files)
      ensures !ok ==> dirs == old(dirs) && files == old(files)
    {
      ok := |p| > 0 && !Exists(p) && IsDir(Parent(p));
      if ok {
        dirs := dirs + [p];
      }
    }

    /** `fs.writeFileSync(p, text)`: fails (ENOENT, EISDIR) when the parent is
        not a directory or `p` is one. */
    method WriteFile(p: Path, text: string) returns (ok: bool)
      requires Valid()
      modifies this
      ensures Valid()
      ensures ok <==> |p| > 0 && old(IsDir(Parent(p))) && !old(IsDir(p))
      ensures ok ==> files == old(files)[p := text] && dirs == old(dirs)
      ensures !ok ==> dirs == old(dirs) && files == old(files)
    {
      ok := |p| > 0 && IsDir(Parent(p)) && !IsDir(p);
      if ok {
        files := files[p := text];
      }
    }

    /** `fs.copyFileSync(source, dest)`: fails when `source` is not a file or
        `dest` cannot be written. */
    method CopyFile(source: Path, dest: Path) returns (ok: bool)
      requires Valid()
      modifies this
      ensures Valid()
      ensures ok <==> source in old(files) && |dest| > 0 && old(IsDir(Parent(dest))) && !old(IsDir(dest))
      ensures ok ==> files == old(files)[dest := old(files)[source]] && dirs == old(dirs)
      ensures !ok ==> dirs == old(dirs) && files == old(files)
    {
      ok := source in files && |dest| > 0 && IsDir(Parent(dest)) && !IsDir(dest);
      if ok {
        files := files[dest := files[source]];
      }
    }

    /** `fs.rmSync(p, { recursive: true, force: true })`: `p` and everything
        below it are gone; a missing `p` is not an error. */
    method RemoveTree(p: Path)
      requires Valid()
      modifies this
      ensures Valid()
      ensures dirs == Outside(old(dirs), p)
      ensures files == Pruned(old(files), p)
    {
      var kept := Outside(dirs, p);
      forall d | d in kept && |d| > 1 ensures Parent(d) in kept {
        OutsideParent(p, d);
      }
      var keptFiles := Pruned(files, p);
      forall f | f in keptFiles && |f| > 1 ensures Parent(f) in kept {
        OutsideParent(p, f);
      }
      dirs := kept;
      files := keptFiles;
    }

    /** `if (fs.existsSync(p)) fs.rmSync(p, { recursive: true, force: true })`:
        the same as removing the tree unconditionally. */
    method RemoveTreeIfExists(p: Path)
      requires Valid() && p != []
      modifies this
      ensures Valid()
      ensures dirs == Outside(old(dirs), p)
      ensures files == Pruned(old(files), p)
    {
      if Exists(p) {
        RemoveTree(p);
      } else {
        MissingTreeUnchanged(dirs, files, p);
      }
    }

    /** `fs.rmSync(p, { force: true })`: a missing `p` is not an error, a
        directory is (EISDIR, since the call is not recursive). */
    method RemoveFile(p: Path) returns (ok: bool)
      requires Valid()
      modifies this
      ensures Valid()
      ensures ok <==> !old(IsDir(p))
      ensures ok ==> files == old(files) - {p} && dirs == old(dirs)
      ensures !ok ==> files == old(files) && dirs == old(dirs)
    {
      ok := !IsDir(p);
      if ok {
        files := files - {p};
      }
    }
  }
}
