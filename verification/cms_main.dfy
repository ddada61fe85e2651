/** The Electron main process of the CMS (morinolab_cms/src/main.ts): the
    file-system handlers behind `list-items`, `create-item`, `delete-item`
    and `save-image`. They work on `CONTENT_ROOT`, the `contents` directory
    of the working directory, which is a constructor parameter here. */
module CmsMain {
  import opened Wrappers
  import opened Text
  import opened JsValues
  import opened CmsDisk
  import opened ItemIds
  import Repository

  // ---------------------------------------------------------------------------
  // path.extname and path.basename of a file name
  // ---------------------------------------------------------------------------

  /** Every position after `from` that holds a '.'. */
  predicate NoDotFrom(name: string, from: nat) {
    forall i :: from <= i < |name| ==> name[i] != '.'
  }

  /** The index of the last '.' of `name`, if there is one. */
  function LastDot(name: string): (r: Option<nat>)
    ensures r.None? ==> NoDotFrom(name, 0)
    ensures r.Some? ==> r.value < |name| && name[r.value] == '.' && NoDotFrom(name, r.value + 1)
    decreases |name|
  {
    if |name| == 0 then None
    else if name[|name| - 1] == '.' then Some(|name| - 1)
    else LastDot(name[..|name| - 1])
  }

  /** `path.extname(name)` for a name without a '/': the part from the last
      '.' on, except that a name without a dot, a name whose only dot opens
      it (".env") and the name ".." have none. */
  function Extname(name: string): (ext: string)
    ensures |ext| < |name| || ext == ""
    ensures name[|name| - |ext|..] == ext
    ensures ext != "" ==> ext[0] == '.' && NoDotFrom(ext, 1)
    ensures ext == "" <==> NoDotFrom(name, 1) || name == ".."
  {
    match LastDot(name)
    case None => ""
    case Some(d) =>
      if d == 0 || name == ".." then ""
      else
        assert forall i :: 1 <= i < |name| - d ==> name[d..][i] == name[d + i];
        name[d..]
  }

  /** `path.basename(name, ext)` with `ext` the extension: the name without it. */
  function Stem(name: string): (base: string)
    ensures base + Extname(name) == name
  {
    var ext := Extname(name);
    assert name[..|name| - |ext|] + name[|name| - |ext|..] == name;
    name[..|name| - |ext|]
  }

  /** `${base}_${counter}${ext}`, the `counter`-th name tried after `name`. */
  function Candidate(name: string, counter: nat): string {
    Stem(name) + "_" + NatToString(counter) + Extname(name)
  }

  /** A numbered name is never the name itself, and different counters give
      different names. */
  lemma CandidatesDistinct(name: string, j: nat, k: nat)
    ensures Candidate(name, j) != name
    ensures Candidate(name, j) == Candidate(name, k) ==> j == k
  {
    var base, ext := Stem(name), Extname(name);
    assert |Candidate(name, j)| > |name|;
    if Candidate(name, j) == Candidate(name, k) {
      var a, b := Candidate(name, j), Candidate(name, k);
      var sj, sk := NatToString(j), NatToString(k);
      assert |sj| == |sk|;
      assert a[|base| + 1..|base| + 1 + |sj|] == sj;
      assert b[|base| + 1..|base| + 1 + |sk|] == sk;
      NatToStringInjective(j, k);
    }
  }

  /** The names of the entries of directory `dir`. */
  function EntriesIn(dirs: seq<Path>, files: map<Path, string>, dir: Path): (r: set<string>)
    ensures forall n :: n in r <==> dir + [n] in dirs || dir + [n] in files
  {
    var r := (set d | d in dirs && |d| == |dir| + 1 && d[..|dir|] == dir :: d[|dir|])
           + (set f | f in files && |f| == |dir| + 1 && f[..|dir|] == dir :: f[|dir|]);
    assert forall n :: dir + [n] in dirs || dir + [n] in files ==> n in r by {
      forall n | dir + [n] in dirs || dir + [n] in files ensures n in r {
        assert (dir + [n])[..|dir|] == dir && (dir + [n])[|dir|] == n;
      }
    }
    assert forall n :: n in r ==> dir + [n] in dirs || dir + [n] in files by {
      forall n | n in r ensures dir + [n] in dirs || dir + [n] in files {
        if n in (set d | d in dirs && |d| == |dir| + 1 && d[..|dir|] == dir :: d[|dir|]) {
          var d :| d in dirs && |d| == |dir| + 1 && d[..|dir|] == dir && d[|dir|] == n;
          assert d == dir + [n];
        } else {
          var f :| f in files && |f| == |dir| + 1 && f[..|dir|] == dir && f[|dir|] == n;
          assert f == dir + [n];
        }
      }
    }
    r
  }

  /** `name` is what `save-image` writes for `fileName` into a directory
      holding the entries `taken`: the file's own name when that is free,
      otherwise the numbered name with the first counter from 1 that is free. */
  ghost predicate FreeNameFor(taken: set<string>, fileName: string, name: string) {
    && name !in taken
    && (|| name == fileName
        || (&& fileName in taken
            && exists k: nat :: (1 <= k && name == Candidate(fileName, k)
                                && forall j: nat :: 1 <= j < k ==> Candidate(fileName, j) in taken)))
  }

  /** For given entries there is one such name. */
  lemma FreeNameUnique(taken: set<string>, fileName: string, a: string, b: string)
    requires FreeNameFor(taken, fileName, a) && FreeNameFor(taken, fileName, b)
    ensures a == b
  {
    if a != fileName && b != fileName {
      var ka: nat :| 1 <= ka && a == Candidate(fileName, ka) && forall j: nat :: 1 <= j < ka ==> Candidate(fileName, j) in taken;
      var kb: nat :| 1 <= kb && b == Candidate(fileName, kb) && forall j: nat :: 1 <= j < kb ==> Candidate(fileName, j) in taken;
    }
  }

  /** The name looked at when the counter is `counter`. */
  function Current(fileName: string, counter: nat): string
    requires counter >= 1
  {
    if counter == 1 then fileName else Candidate(fileName, counter - 1)
  }

  /** The names looked at, and found taken, before the counter is `counter`. */
  function Tried(fileName: string, counter: nat): (r: set<string>)
    requires counter >= 1
    ensures counter > 1 ==> fileName in r
    ensures forall j: nat :: 1 <= j < counter - 1 ==> Candidate(fileName, j) in r
  {
    if counter == 1 then {}
    else {fileName} + set j: nat | 1 <= j < counter - 1 :: Candidate(fileName, j)
  }

  /** Each turn of the loop looks at a name it has not looked at before. */
  lemma TriedGrows(fileName: string, counter: nat)
    requires counter >= 1
    ensures Current(fileName, counter) !in Tried(fileName, counter)
    ensures Tried(fileName, counter + 1) == Tried(fileName, counter) + {Current(fileName, counter)}
  {
    if counter > 1 {
      var cur := Current(fileName, counter);
      CandidatesDistinct(fileName, counter - 1, 0);
      forall j: nat | 1 <= j < counter - 1 ensures Candidate(fileName, j) != cur {
        CandidatesDistinct(fileName, j, counter - 1);
      }
      var before := set j: nat | 1 <= j < counter - 1 :: Candidate(fileName, j);
      var after := set j: nat | 1 <= j < counter :: Candidate(fileName, j);
      forall x ensures x in after <==> x in before || x == cur {
        if x in after {
          var j: nat :| 1 <= j < counter && x == Candidate(fileName, j);
          if j < counter - 1 {
            assert x in before;
          }
        }
        if x in before {
          var j: nat :| 1 <= j < counter - 1 && x == Candidate(fileName, j);
          assert x in after;
        }
        if x == cur {
          assert Candidate(fileName, counter - 1) in after;
        }
      }
      assert after == before + {cur};
    }
  }

  /** A turn of the loop on a taken name keeps every name looked at taken
      and leaves fewer taken names to look at. */
  lemma TriedStep(taken: set<string>, fileName: string, counter: nat)
    requires counter >= 1 && Tried(fileName, counter) <= taken && Current(fileName, counter) in taken
    ensures Tried(fileName, counter + 1) <= taken
    ensures |taken - Tried(fileName, counter + 1)| < |taken - Tried(fileName, counter)|
  {
    TriedGrows(fileName, counter);
    assert taken - Tried(fileName, counter + 1) < taken - Tried(fileName, counter);
  }

  /** The loop stops on the name `save-image` is meant to pick. */
  lemma FreeNameAtEnd(taken: set<string>, fileName: string, counter: nat)
    requires counter >= 1 && Tried(fileName, counter) <= taken && Current(fileName, counter) !in taken
    ensures FreeNameFor(taken, fileName, Current(fileName, counter))
  {
    if counter > 1 {
      assert forall j: nat :: 1 <= j < counter - 1 ==> Candidate(fileName, j) in taken;
    }
  }

  // ---------------------------------------------------------------------------
  // The handlers
  // ---------------------------------------------------------------------------

  /** The title a listed item falls back to: `data.title || ''`. */
  function NoTitle(name: string): JsValue {
    Str("")
  }

  class CmsMain {
    const contentRoot: Path
    const disk: Disk
    /** gray-matter's `matter(file).data.title`; None where it throws. */
    const matter: string -> Option<JsValue>

    /** `CONTENT_ROOT = path.join(process.cwd(), 'contents')`. */
    constructor(cwd: Path, disk: Disk, matter: string -> Option<JsValue>)
      ensures contentRoot == cwd + ["contents"] && this.disk == disk && this.matter == matter
    {
      this.contentRoot := cwd + ["contents"];
      this.disk := disk;
      this.matter := matter;
    }

    function TypeDir(contentType: string): Path
      reads this
    {
      contentRoot + [contentType]
    }

    /** `getItemDir(type, id)`. */
    function ItemDir(contentType: string, id: string): Path
      reads this
    {
      contentRoot + [contentType, id]
    }

    function MediaDir(contentType: string, id: string): Path
      reads this
    {
      contentRoot + [contentType, id, "media"]
    }

    /** `listItems(type)`: nothing when the type directory is missing, None
        where `readdirSync` throws on a file, otherwise its directories in
        `Number` order, each titled by its article or by ''. */
    function ListItems(contentType: string): (r: Option<seq<Item>>)
      reads this, disk
      ensures !disk.Exists(TypeDir(contentType)) ==> r == Some([])
      ensures r.None? <==> disk.Exists(TypeDir(contentType)) && !disk.IsDir(TypeDir(contentType))
      ensures r.Some? ==> forall k :: 0 <= k < |r.value| ==> Truthy(r.value[k].title) || r.value[k].title == Str("")
      ensures r.Some? ==> forall k :: 0 <= k < |r.value| ==>
        r.value[k] == ListedItem(disk.files, matter, TypeDir(contentType), r.value[k].id, NoTitle)
    {
      var typeDir := TypeDir(contentType);
      if !disk.Exists(typeDir) then Some([])
      else if !disk.IsDir(typeDir) then None
      else
        var items := ListedItems(disk.files, matter, typeDir, disk.ChildDirs(typeDir), NoTitle);
        var sorted := SortById(items, NumberKey);
        assert forall k :: 0 <= k < |sorted| ==> sorted[k] in multiset(items);
        Some(sorted)
    }

    /** The listing holds each directory of the type exactly once. */
    lemma ListItemsAreTheDirs(contentType: string)
      requires disk.IsDir(TypeDir(contentType))
      ensures ListItems(contentType).Some?
      ensures multiset(Ids(ListItems(contentType).value)) == multiset(disk.ChildDirs(TypeDir(contentType)))
    {
      var names := disk.ChildDirs(TypeDir(contentType));
      var items := ListedItems(disk.files, matter, TypeDir(contentType), names, NoTitle);
      assert Ids(items) == names;
      IdsOfSort(items, NumberKey);
    }

    /** When every directory name is a number, the listing is in ascending
        numeric order. */
    lemma ListItemsSorted(contentType: string)
      requires ListItems(contentType).Some?
      requires forall n :: n in disk.ChildDirs(TypeDir(contentType)) ==> StringToNumber(n) != NaN
      ensures SortedById(ListItems(contentType).value, NumberKey)
    {
      if disk.IsDir(TypeDir(contentType)) {
        var names := disk.ChildDirs(TypeDir(contentType));
        var items := ListedItems(disk.files, matter, TypeDir(contentType), names, NoTitle);
        forall k | 0 <= k < |items| ensures !NumberKey(items[k].id).NaN? {
          assert names[k] in names;
        }
        SortByIdSorted(items, NumberKey);
      }
    }

    /** `fs.mkdirSync(itemDir)`, which throws when the entry exists or its
        parent is not a directory, and the template article inside. */
    method MakeItemDir(itemDir: Path) returns (ok: bool)
      requires disk.Valid()
      modifies disk
      ensures disk.Valid()
      ensures ok <==> |itemDir| > 0 && !old(disk.Exists(itemDir)) && old(disk.IsDir(Parent(itemDir)))
      ensures ok ==> (disk.dirs == old(disk.dirs) + [itemDir]
        && disk.files == old(disk.files)[itemDir + ["article.md"] := Repository.NewArticle])
      ensures !ok ==> disk.dirs == old(disk.dirs) && disk.files == old(disk.files)
    {
      ghost var before := disk.dirs;
      ok := disk.Mkdir(itemDir);
      if !ok {
        return;
      }
      var article := itemDir + ["article.md"];
      assert Parent(article) == itemDir;
      assert article !in disk.dirs by {
        assert article[..|itemDir|] == itemDir;
        if article in before {
          NoDirBelowMissing(before, itemDir, article);
        }
      }
      var written := disk.WriteFile(article, Repository.NewArticle);
    }

    /** `createItem(type)`: the content root and the type directory are made
        when missing, the new id is one above the largest numeric directory
        name (1 when there is none), and `mkdirSync(itemDir)`, which throws
        when the entry exists, is followed by the template article. */
    method CreateItem(contentType: string) returns (item: Option<Item>)
      requires disk.Valid()
      modifies disk
      ensures disk.Valid()
      ensures forall d :: d in old(disk.dirs) ==> d in disk.dirs
      ensures var id := NumToString(NextId(old(disk.ChildDirs(TypeDir(contentType)))));
        forall d :: d in disk.dirs ==> d in old(disk.dirs) || IsPrefix(d, TypeDir(contentType)) || d == ItemDir(contentType, id)
      ensures item.Some? ==> item.value == Item(NumToString(NextId(old(disk.ChildDirs(TypeDir(contentType))))), Str(Repository.NewTitle))
      ensures item.Some? ==> disk.IsDir(ItemDir(contentType, item.value.id)) && !old(disk.Exists(ItemDir(contentType, item.value.id)))
      ensures item.Some? ==> disk.files == old(disk.files)[ItemDir(contentType, item.value.id) + ["article.md"] := Repository.NewArticle]
      ensures item.None? ==> disk.files == old(disk.files)
    {
      var typeDir := contentRoot + [contentType];
      var ok := disk.EnsureNested(contentRoot, typeDir);
      if !ok {
        return None;
      }
      var idText := NumToString(NextId(disk.ChildDirs(typeDir)));
      var itemDir := typeDir + [idText];
      assert itemDir == ItemDir(contentType, idText);
      assert Parent(itemDir) == typeDir;
      ok := MakeItemDir(itemDir);
      if !ok {
        return None;
      }
      item := Some(Item(idText, Str(Repository.NewTitle)));
    }

    /** `deleteItem(type, id)`: the item directory and everything below it go,
        if it exists. */
    method DeleteItem(contentType: string, id: string)
      requires disk.Valid()
      modifies disk
      ensures disk.Valid()
      ensures disk.dirs == Outside(old(disk.dirs), ItemDir(contentType, id))
      ensures disk.files == Pruned(old(disk.files), ItemDir(contentType, id))
    {
      disk.RemoveTreeIfExists(ItemDir(contentType, id));
    }

    /** The name loop of `save-image`: starting from the file's own name, the
        counter goes up from 1 while `existsSync(path.join(mediaDir, destName))`.
        The loop ends because the names it looks at are all different and
        only finitely many entries exist. */
    method FreeName(mediaDir: Path, fileName: string) returns (destName: string)
      ensures FreeNameFor(EntriesIn(disk.dirs, disk.files, mediaDir), fileName, destName)
    {
      ghost var taken := EntriesIn(disk.dirs, disk.files, mediaDir);
      destName := fileName;
      var ext := Extname(fileName);
      var base := Stem(fileName);
      var counter: nat := 1;
      while disk.Exists(mediaDir + [destName])
        invariant counter >= 1 && destName == Current(fileName, counter)
        invariant Tried(fileName, counter) <= taken
        decreases |taken - Tried(fileName, counter)|
      {
        TriedStep(taken, fileName, counter);
        destName := base + "_" + NatToString(counter) + ext;
        counter := counter + 1;
      }
      FreeNameAtEnd(taken, fileName, counter);
    }

    /** `if (!fs.existsSync(mediaDir)) fs.mkdirSync(mediaDir, { recursive:
        true })`; `ok` says that `mediaDir` is then a directory, which fails
        exactly when a file stands on the way to it or in its place. What
        the directory holds is left as it was. */
    method MakeMediaDir(mediaDir: Path) returns (ok: bool)
      requires disk.Valid() && mediaDir != []
      modifies disk
      ensures disk.Valid()
      ensures disk.files == old(disk.files)
      ensures forall d :: d in old(disk.dirs) ==> d in disk.dirs
      ensures forall d :: d in disk.dirs ==> d in old(disk.dirs) || IsPrefix(d, mediaDir)
      ensures ok <==> forall f :: f in old(disk.files) ==> !IsPrefix(f, mediaDir)
      ensures ok ==> disk.IsDir(mediaDir)
      ensures EntriesIn(disk.dirs, disk.files, mediaDir) == old(EntriesIn(disk.dirs, disk.files, mediaDir))
    {
      if disk.IsDir(mediaDir) {
        forall f | f in disk.files ensures !IsPrefix(f, mediaDir) {
          NoDirBelowMissing(disk.dirs, f, mediaDir);
        }
        ok := true;
      } else if mediaDir in disk.files {
        assert mediaDir[..|mediaDir|] == mediaDir;
        ok := false;
      } else {
        ghost var added := NewPrefixes(disk.dirs, mediaDir, |mediaDir|);
        ok := disk.MkdirAll(mediaDir);
        forall n ensures mediaDir + [n] in disk.dirs <==> mediaDir + [n] in old(disk.dirs) {
          if mediaDir + [n] in added {
            assert IsPrefix(mediaDir + [n], mediaDir);
          }
        }
      }
    }

    /** The `save-image` handler: the item's `media` directory is made when
        missing, the file is copied in under the first free name, and the
        Markdown link to it comes back; any throw gives null. It succeeds
        exactly when the source file exists and no file stands on the way to
        the media directory. */
    method SaveImage(contentType: string, id: string, sourcePath: Path, fileName: string) returns (r: Option<string>)
      requires disk.Valid()
      modifies disk
      ensures disk.Valid()
      ensures forall d :: d in old(disk.dirs) ==> d in disk.dirs
      ensures forall d :: d in disk.dirs ==> d in old(disk.dirs) || IsPrefix(d, MediaDir(contentType, id))
      ensures r.Some? <==> old(sourcePath in disk.files) && forall f :: f in old(disk.files) ==> !IsPrefix(f, MediaDir(contentType, id))
      ensures r.None? ==> disk.files == old(disk.files)
      ensures r.Some? ==> (&& |r.value| >= |"./media/"| && r.value[..|"./media/"|] == "./media/"
                           && var name := r.value[|"./media/"|..];
                           && FreeNameFor(old(EntriesIn(disk.dirs, disk.files, MediaDir(contentType, id))), fileName, name)
                           && disk.files == old(disk.files)[MediaDir(contentType, id) + [name] := old(disk.files)[sourcePath]])
    {
      var mediaDir := contentRoot + [contentType, id, "media"];
      assert mediaDir == MediaDir(contentType, id);
      var ok := MakeMediaDir(mediaDir);
      if !ok {
        return None;
      }
      var destName := FreeName(mediaDir, fileName);
      var destPath := mediaDir + [destName];
      assert Parent(destPath) == mediaDir;
      ok := disk.CopyFile(sourcePath, destPath);
      if !ok {
        return None;
      }
      r := Some("./media/" + destName);
      assert r.value[|"./media/"|..] == destName;
    }
  }
}
