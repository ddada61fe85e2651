/** The CMS's local content store
    (morinolab_cms/src/infrastructure/local/ContentRepository.ts): one
    directory per content type under a content root, one directory per item,
    thumbnails `<id>.<ext>` beside them and a `<type>.csv` table of the items. */
module Repository {
  import opened Wrappers
  import opened Text
  import opened JsValues
  import opened CsvRecord
  import opened CmsDisk
  import opened ItemIds
  import opened Seqs

  const NewArticle: string := "---\ntitle: 新規記事\n---\n\n# 見出し\n\nここに本文を書いてください\n"
  const NewTitle: string := "新規記事"
  const ThumbnailExtensions: seq<string> := ["png", "jpg", "jpeg", "gif", "webp"]

  /** `String(r.id)` of a parsed record: its id cell, or "undefined" when the
      record has none. */
  function IdText(r: Row): string {
    if "id" in r then r["id"] else "undefined"
  }

  /** The text `saveCsvTable` writes: the header line alone for no rows,
      `Papa.unparse` otherwise. */
  function CsvText(codec: CsvCodec, header: seq<string>, rows: seq<Row>): string {
    if |rows| == 0 then Join(header, ',') + "\n" else codec.unparse(header, rows)
  }

  /** Without rows the file holds exactly the header: one line whose
      comma-separated fields are the header names. */
  lemma HeaderOnlyText(codec: CsvCodec, header: seq<string>)
    requires |header| > 0 && forall k :: 0 <= k < |header| ==> ',' !in header[k]
    ensures var text := CsvText(codec, header, []);
      && text[|text| - 1] == '\n'
      && Split(text[..|text| - 1], ',') == header
  {
    var text := CsvText(codec, header, []);
    assert text[..|text| - 1] == Join(header, ',');
    SplitOfJoin(header, ',');
  }

  /** `if (!header.includes('id')) header.unshift('id')`. */
  function WithIdColumn(header: seq<string>): (h: seq<string>)
    ensures "id" in h
    ensures |header| <= |h| <= |header| + 1 && h[|h| - |header|..] == header
  {
    if "id" in header then header else ["id"] + header
  }

  /** The row `createItem` appends: '' under every header name, the id under `id`. */
  function BlankRow(header: seq<string>, id: string): (row: Row)
    ensures row.Keys == (set h | h in header) + {"id"}
    ensures row["id"] == id
    ensures forall h :: h in row && h != "id" ==> row[h] == ""
  {
    (map h | h in header :: "")["id" := id]
  }

  /** `rows.filter((r) => String(r.id) !== String(id))`. */
  function WithoutId(rows: seq<Row>, id: string): (r: seq<Row>)
    ensures |r| <= |rows|
    ensures forall x :: x in r <==> x in rows && IdText(x) != id
    ensures FindId(r, id).None?
  {
    if |rows| == 0 then []
    else
      var rest := WithoutId(rows[1..], id);
      assert forall x :: x in rows <==> x == rows[0] || x in rows[1..];
      if IdText(rows[0]) == id then rest else [rows[0]] + rest
  }

  /** Filtering keeps the order of what it keeps: it distributes over
      concatenation. */
  lemma {:induction false} WithoutIdAppend(a: seq<Row>, b: seq<Row>, id: string)
    ensures WithoutId(a + b, id) == WithoutId(a, id) + WithoutId(b, id)
    decreases |a|
  {
    if |a| == 0 {
      AppendEmpty(a, b);
    } else {
      TailOfAppend(a, b);
      WithoutIdAppend(a[1..], b, id);
    }
  }

  /** Rows of other ids come through untouched. */
  lemma {:induction false} WithoutIdKeepsOthers(rows: seq<Row>, id: string)
    requires forall k :: 0 <= k < |rows| ==> IdText(rows[k]) != id
    ensures WithoutId(rows, id) == rows
    decreases |rows|
  {
    if |rows| > 0 {
      WithoutIdKeepsOthers(rows[1..], id);
    }
  }

  /** `rows.find((r) => String(r.id) === String(id))`, as the index of the
      record found. */
  function FindId(rows: seq<Row>, id: string): (i: Option<nat>)
    ensures i.Some? ==> i.value < |rows| && IdText(rows[i.value]) == id
    ensures i.Some? ==> forall j :: 0 <= j < i.value ==> IdText(rows[j]) != id
    ensures i.None? ==> forall j :: 0 <= j < |rows| ==> IdText(rows[j]) != id
  {
    if |rows| == 0 then None
    else if IdText(rows[0]) == id then Some(0)
    else
      match FindId(rows[1..], id)
      case None => None
      case Some(i) => Some(i + 1)
  }

  /** `row[column] = value` on the record found, or nothing when none is. */
  function UpdateRows(rows: seq<Row>, id: string, column: string, value: string): (r: Option<seq<Row>>)
    ensures r.None? <==> FindId(rows, id).None?
    ensures r.Some? ==> |r.value| == |rows|
    ensures r.Some? ==> var i := FindId(rows, id).value;
      && column in r.value[i] && r.value[i][column] == value
      && r.value[i].Keys == rows[i].Keys + {column}
      && (forall c :: c in rows[i] && c != column ==> r.value[i][c] == rows[i][c])
      && (forall j :: 0 <= j < |rows| && j != i ==> r.value[j] == rows[j])
  {
    match FindId(rows, id)
    case None => None
    case Some(i) => Some(rows[i := rows[i][column := value]])
  }

  /** Changing a cell other than `id` leaves the record where `find` finds it. */
  lemma UpdateRowsKeepsFinding(rows: seq<Row>, id: string, column: string, value: string)
    requires column != "id" && FindId(rows, id).Some?
    ensures FindId(UpdateRows(rows, id, column, value).value, id) == FindId(rows, id)
  {
    var i := FindId(rows, id).value;
    var r := UpdateRows(rows, id, column, value).value;
    assert IdText(r[i]) == IdText(rows[i]);
  }

  /** `new RegExp('^' + id + '\\.(png|jpe?g|gif|webp)$', 'i').test(name)`,
      with the id read as literal text: the id, a dot and an image extension,
      in any letter case. */
  predicate IsThumbnailOf(name: string, id: string) {
    |name| > |id| && Lower(name[..|id|]) == Lower(id) && name[|id|] == '.'
    && Lower(name[|id| + 1..]) in ThumbnailExtensions
  }

  /** A thumbnail file of `id` directly inside `dir`. */
  predicate IsThumbnailPath(f: Path, dir: Path, id: string) {
    |f| == |dir| + 1 && f[..|dir|] == dir && IsThumbnailOf(f[|dir|], id)
  }

  /** The thumbnail files of `id` among `files`, all directly inside `dir`. */
  function Thumbnails(files: map<Path, string>, dir: Path, id: string): (r: set<Path>)
    ensures forall f :: f in r <==> f in files && IsThumbnailPath(f, dir, id)
  {
    set f | f in files && IsThumbnailPath(f, dir, id)
  }

  /** The directories among `dirs` named like a thumbnail of `id`, directly
      inside `dir`: `readdirSync` lists them beside the files. */
  function ThumbnailDirs(dirs: seq<Path>, dir: Path, id: string): (r: set<Path>)
    ensures forall d :: d in r <==> d in dirs && IsThumbnailPath(d, dir, id)
  {
    set d | d in dirs && IsThumbnailPath(d, dir, id)
  }

  /** `m` is `before` less some of the `victims`, the rest untouched. */
  predicate LessSomeOf(m: map<Path, string>, before: map<Path, string>, victims: set<Path>) {
    && m.Keys <= before.Keys
    && before.Keys - victims <= m.Keys
    && forall f :: f in m ==> m[f] == before[f]
  }

  /** An item directory is never named like a thumbnail of its own id, so
      removing it keeps every such directory beside it. */
  lemma ThumbnailDirsOutsideItem(dirs: seq<Path>, typeDir: Path, id: string)
    ensures ThumbnailDirs(Outside(dirs, typeDir + [id]), typeDir, id) == ThumbnailDirs(dirs, typeDir, id)
  {
    forall d | d in dirs && IsThumbnailPath(d, typeDir, id) ensures !IsPrefix(typeDir + [id], d) {
      assert |d[|typeDir|]| > |id|;
    }
  }

  /** The table file never looks like a thumbnail: its name ends in `v`,
      which no image extension does. */
  lemma TableNotThumbnail(contentType: string, id: string)
    ensures !IsThumbnailOf(contentType + ".csv", id)
  {
    var name := contentType + ".csv";
    assert name[|name| - 1] == 'v';
    if |name| > |id| && name[|id|] == '.' {
      var e := name[|id| + 1..];
      assert |e| > 0 && e[|e| - 1] == 'v';
      assert Lower(e)[|e| - 1] == 'v';
    }
  }

  /** One entry of the repository's `listItems`: the front-matter title
      unless it is `undefined` or `null` (`data.title ?? ''`), and '' when
      there is no article file or reading it throws. */
  function RepositoryItem(files: map<Path, string>, matter: string -> Option<JsValue>, typeDir: Path, name: string): (item: Item)
    ensures item.id == name
    ensures !item.title.Undefined? && !item.title.Null?
    ensures var article := typeDir + [name, "article.md"];
      item.title != Str("") ==> article in files && matter(files[article]) == Some(item.title)
  {
    var article := typeDir + [name, "article.md"];
    var title :=
      if article in files && matter(files[article]).Some?
         && !matter(files[article]).value.Undefined? && !matter(files[article]).value.Null?
      then matter(files[article]).value
      else Str("");
    Item(name, title)
  }

  /** The `main.ts` listing (`data.title || ''`) is this one with every
      falsy title blanked: they differ exactly on a front-matter title of
      `false`, 0 or NaN, which this listing keeps. */
  lemma ListingsAgreeButFalsy(files: map<Path, string>, matter: string -> Option<JsValue>, typeDir: Path, name: string)
    ensures var kept := RepositoryItem(files, matter, typeDir, name);
      ListedItem(files, matter, typeDir, name, n => Str("")) == if Truthy(kept.title) then kept else Item(name, Str(""))
  {
    var article := typeDir + [name, "article.md"];
    var kept := RepositoryItem(files, matter, typeDir, name);
    if article in files && matter(files[article]).Some? && Truthy(matter(files[article]).value) {
      assert kept.title == matter(files[article]).value;
    }
  }

  /** The entries of `names`, in the order given. */
  function RepositoryItems(files: map<Path, string>, matter: string -> Option<JsValue>, typeDir: Path, names: seq<string>): (r: seq<Item>)
    ensures |r| == |names|
    ensures forall k :: 0 <= k < |r| ==> r[k] == RepositoryItem(files, matter, typeDir, names[k])
  {
    seq(|names|, k requires 0 <= k < |names| => RepositoryItem(files, matter, typeDir, names[k]))
  }

  /** Removing one more of the victims from a map. */
  lemma RemoveOneMore(m: map<Path, string>, all: set<Path>, victims: set<Path>, f: Path)
    requires f in victims && f in all
    ensures (m - (all - victims)) - {f} == m - (all - (victims - {f}))
  {
    assert all - (victims - {f}) == (all - victims) + {f};
  }

  /** Only image extensions count, and the case of the id and the extension
      does not matter. */
  lemma ThumbnailNames()
    ensures IsThumbnailOf("12.PNG", "12") && IsThumbnailOf("12.jpeg", "12")
    ensures !IsThumbnailOf("12.csv", "12") && !IsThumbnailOf("123.png", "12") && !IsThumbnailOf("12.png.bak", "12")
  {
    assert Lower("PNG") == "png";
    assert Lower("jpeg") == "jpeg";
    assert "123.png"[2] != '.';
    var e := "png.bak";
    assert Lower(e) != "png" && Lower(e) != "jpg" && Lower(e) != "jpeg" && Lower(e) != "gif" && Lower(e) != "webp" by {
      assert |Lower(e)| == 7;
    }
    assert "12.png.bak"[3..] == e;
    var c := "csv";
    assert Lower(c)[0] == 'c';
    assert "12.csv"[3..] == c;
  }

  class ContentRepository {
    var contentRoot: Path
    const disk: Disk
    const codec: CsvCodec
    /** gray-matter's `matter(file).data.title`; None where it throws. */
    const matter: string -> Option<JsValue>

    constructor(contentRoot: Path, disk: Disk, codec: CsvCodec, matter: string -> Option<JsValue>)
      ensures this.contentRoot == contentRoot && this.disk == disk && this.codec == codec && this.matter == matter
    {
      this.contentRoot := contentRoot;
      this.disk := disk;
      this.codec := codec;
      this.matter := matter;
    }

    /** `setRoot(root)`: every later operation works below the new root. */
    method SetRoot(root: Path)
      modifies this
      ensures contentRoot == root
    {
      contentRoot := root;
    }

    function TypeDir(contentType: string): Path
      reads this
    {
      contentRoot + [contentType]
    }

    function ItemDir(contentType: string, id: string): Path
      reads this
    {
      contentRoot + [contentType, id]
    }

    /** `listItems(contentType)`: nothing when the type directory is
        missing, None where `readdirSync` throws on a file, otherwise its
        directories in `Number` order, each titled by its article's
        front-matter title when that is neither `undefined` nor `null`. */
    function ListItems(contentType: string): (r: Option<seq<Item>>)
      reads this, disk
      ensures !disk.Exists(TypeDir(contentType)) ==> r == Some([])
      ensures r.None? <==> disk.Exists(TypeDir(contentType)) && !disk.IsDir(TypeDir(contentType))
      ensures r.Some? ==> forall k :: 0 <= k < |r.value| ==> !r.value[k].title.Undefined? && !r.value[k].title.Null?
      ensures r.Some? ==> forall k :: 0 <= k < |r.value| ==>
        r.value[k] == RepositoryItem(disk.files, matter, TypeDir(contentType), r.value[k].id)
    {
      var typeDir := TypeDir(contentType);
      if !disk.Exists(typeDir) then Some([])
      else if !disk.IsDir(typeDir) then None
      else
        var items := RepositoryItems(disk.files, matter, typeDir, disk.ChildDirs(typeDir));
        var sorted := SortById(items, NumberKey);
        assert forall k :: 0 <= k < |sorted| ==> sorted[k] in multiset(items);
        Some(sorted)
    }

    /** The listing holds each directory of the type exactly once. */
    lemma ListItemsAreTheDirs(contentType: string)
      requires disk.IsDir(TypeDir(contentType))
      ensures ListItems(contentType).Some?
      ensures multiset(Ids(ListItems(contentType).value)) == multiset(disk.ChildDirs(TypeDir(contentType)))
    {
      var names := disk.ChildDirs(TypeDir(contentType));
      var items := RepositoryItems(disk.files, matter, TypeDir(contentType), names);
      assert Ids(items) == names;
      IdsOfSort(items, NumberKey);
    }

    /** When no directory name reads as NaN, the listing is in ascending
        numeric order. */
    lemma ListItemsSorted(contentType: string)
      requires ListItems(contentType).Some?
      requires forall n :: n in disk.ChildDirs(TypeDir(contentType)) ==> StringToNumber(n) != NaN
      ensures SortedById(ListItems(contentType).value, NumberKey)
    {
      if disk.IsDir(TypeDir(contentType)) {
        var names := disk.ChildDirs(TypeDir(contentType));
        var items := RepositoryItems(disk.files, matter, TypeDir(contentType), names);
        forall k | 0 <= k < |items| ensures !NumberKey(items[k].id).NaN? {
          assert names[k] in names;
        }
        SortByIdSorted(items, NumberKey);
      }
    }

    /** `getCsvPath(contentType)`: `<root>/<type>/<type>.csv`. */
    function CsvPath(contentType: string): Path
      reads this
    {
      contentRoot + [contentType, contentType + ".csv"]
    }

    /** `loadCsvTable(contentType)` over the files `files`: a missing file
        reads as the header `['id']` and no rows; otherwise the trimmed text
        goes to the CSV parser. */
    function TableIn(files: map<Path, string>, contentType: string): (t: Table)
      reads this
      ensures CsvPath(contentType) !in files ==> t == Table(["id"], [])
      ensures CsvPath(contentType) in files ==> t == codec.parse(JsTrim(files[CsvPath(contentType)]))
    {
      var p := CsvPath(contentType);
      if p in files then codec.parse(JsTrim(files[p])) else Table(["id"], [])
    }

    /** `loadCsvTable(contentType)` on the disk as it is. */
    function LoadCsvTable(contentType: string): (t: Table)
      reads this, disk
      ensures CsvPath(contentType) !in disk.files ==> t == Table(["id"], [])
      ensures CsvPath(contentType) in disk.files ==> t == codec.parse(JsTrim(disk.files[CsvPath(contentType)]))
    {
      TableIn(disk.files, contentType)
    }

    /** Deleting an item leaves the table as it was, unless the id is the
        table's own file name: then the item path is the table, and it reads
        back as missing. */
    lemma TableAfterItemRemoval(files: map<Path, string>, contentType: string, id: string)
      ensures id != contentType + ".csv" ==> TableIn(Pruned(files, ItemDir(contentType, id)), contentType) == TableIn(files, contentType)
      ensures id == contentType + ".csv" ==> TableIn(Pruned(files, ItemDir(contentType, id)), contentType) == Table(["id"], [])
    {
      var csvPath := CsvPath(contentType);
      var itemDir := ItemDir(contentType, id);
      if id != contentType + ".csv" {
        assert !IsPrefix(itemDir, csvPath) by {
          assert csvPath[|contentRoot| + 1] != itemDir[|contentRoot| + 1];
        }
      } else {
        assert itemDir == csvPath;
        assert IsPrefix(itemDir, csvPath);
      }
    }

    /** `saveCsvTable(contentType, header, rows)`. */
    method SaveCsvTable(contentType: string, header: seq<string>, rows: seq<Row>) returns (ok: bool)
      requires disk.Valid()
      modifies disk
      ensures disk.Valid()
      ensures ok <==> old(disk.IsDir(TypeDir(contentType))) && !old(disk.IsDir(CsvPath(contentType)))
      ensures ok ==> disk.files == old(disk.files)[CsvPath(contentType) := CsvText(codec, header, rows)]
      ensures disk.dirs == old(disk.dirs)
      ensures !ok ==> disk.files == old(disk.files)
    {
      assert Parent(CsvPath(contentType)) == TypeDir(contentType);
      ok := disk.WriteFile(CsvPath(contentType), CsvText(codec, header, rows));
    }

    /** The table step of `createItem`: `id` is added as the first column when
        missing, and a row blank but for its id is appended. */
    method AppendBlankRow(contentType: string, id: string) returns (ok: bool)
      requires disk.Valid()
      modifies disk
      ensures disk.Valid()
      ensures ok <==> old(disk.IsDir(TypeDir(contentType))) && !old(disk.IsDir(CsvPath(contentType)))
      ensures ok ==> var t := old(LoadCsvTable(contentType));
        var header := WithIdColumn(t.header);
        disk.files == old(disk.files)[CsvPath(contentType) := CsvText(codec, header, t.rows + [BlankRow(header, id)])]
      ensures disk.dirs == old(disk.dirs)
      ensures !ok ==> disk.files == old(disk.files)
    {
      var table := LoadCsvTable(contentType);
      var header := table.header;
      if "id" !in header {
        header := ["id"] + header;
      }
      ok := SaveCsvTable(contentType, header, table.rows + [BlankRow(header, id)]);
    }

    /** The item step of `createItem`: `mkdirSync(itemDir)` (no `recursive`, so
        an existing entry makes it throw) and the template article inside. */
    method AddItemDir(itemDir: Path) returns (ok: bool)
      requires disk.Valid()
      modifies disk
      ensures disk.Valid()
      ensures ok <==> |itemDir| > 0 && !old(disk.Exists(itemDir)) && old(disk.IsDir(Parent(itemDir)))
      ensures ok ==> (disk.dirs == old(disk.dirs) + [itemDir]
        && disk.files == old(disk.files)[itemDir + ["article.md"] := NewArticle])
      ensures !ok ==> disk.dirs == old(disk.dirs) && disk.files == old(disk.files)
    {
      ok := disk.Mkdir(itemDir);
      if ok {
        assert Parent(itemDir + ["article.md"]) == itemDir;
        var written := disk.WriteFile(itemDir + ["article.md"], NewArticle);
      }
    }

    /** The thumbnail step of `deleteItem`: every entry of `dir` named like a
        thumbnail of `id` is removed, one at a time, in an order the model
        leaves open. A directory among them makes `rmSync` throw, and the
        files not reached by then stay. */
    method RemoveThumbnails(dir: Path, id: string) returns (ok: bool)
      requires disk.Valid()
      modifies disk
      ensures disk.Valid()
      ensures disk.dirs == old(disk.dirs)
      ensures ok <==> ThumbnailDirs(old(disk.dirs), dir, id) == {}
      ensures ok ==> disk.files == old(disk.files) - Thumbnails(old(disk.files), dir, id)
      ensures !ok ==> LessSomeOf(disk.files, old(disk.files), Thumbnails(old(disk.files), dir, id))
    {
      var thumbs := Thumbnails(disk.files, dir, id);
      var entries := thumbs + ThumbnailDirs(disk.dirs, dir, id);
      var victims := entries;
      ok := true;
      while victims != {}
        invariant disk.Valid()
        invariant disk.dirs == old(disk.dirs)
        invariant victims <= entries
        invariant ThumbnailDirs(old(disk.dirs), dir, id) <= victims
        invariant disk.files == old(disk.files) - (thumbs - victims)
        decreases |victims|
      {
        var f :| f in victims;
        ok := disk.RemoveFile(f);
        if !ok {
          assert f in ThumbnailDirs(old(disk.dirs), dir, id);
          return;
        }
        RemoveOneMore(old(disk.files), thumbs, victims, f);
        victims := victims - {f};
      }
      assert thumbs - victims == thumbs;
    }

    /** The steps of `deleteItem` after the item path is gone: the entries
        named like thumbnails of the id go, then the table is written back
        without the id's records. */
    method ClearThumbnailsAndRecords(contentType: string, id: string) returns (ok: bool)
      requires disk.Valid() && disk.IsDir(TypeDir(contentType))
      modifies disk
      ensures disk.Valid()
      ensures disk.dirs == old(disk.dirs)
      ensures var thumbs := Thumbnails(old(disk.files), TypeDir(contentType), id);
        var t := old(LoadCsvTable(contentType));
        var clean := ThumbnailDirs(old(disk.dirs), TypeDir(contentType), id) == {};
        && (ok <==> clean && !old(disk.IsDir(CsvPath(contentType))))
        && (!clean ==> LessSomeOf(disk.files, old(disk.files), thumbs))
        && (clean && !ok ==> disk.files == old(disk.files) - thumbs)
        && (ok ==> disk.files == (old(disk.files) - thumbs)[CsvPath(contentType) := CsvText(codec, t.header, WithoutId(t.rows, id))])
    {
      ghost var files0 := disk.files;
      ok := RemoveThumbnails(TypeDir(contentType), id);
      if !ok {
        return;
      }
      TableNotThumbnail(contentType, id);
      assert LoadCsvTable(contentType) == TableIn(files0, contentType);
      var table := LoadCsvTable(contentType);
      ok := SaveCsvTable(contentType, table.header, WithoutId(table.rows, id));
    }

    /** `deleteItem(contentType, id)`: the item path goes, then the entries
        named like thumbnails of the id beside it, then its records in the
        table. `ok` is false where a call throws: `readdirSync` of a type
        directory that is not there, `rmSync` of a directory named like a
        thumbnail, or a table path that is a directory. With the id
        `<type>.csv` the item path is the table itself, so the table reads
        back empty and is written as the header `id` alone. */
    method DeleteItem(contentType: string, id: string) returns (ok: bool)
      requires disk.Valid()
      modifies disk
      ensures disk.Valid()
      ensures disk.dirs == Outside(old(disk.dirs), ItemDir(contentType, id))
      ensures var kept := Pruned(old(disk.files), ItemDir(contentType, id));
        var thumbs := Thumbnails(kept, TypeDir(contentType), id);
        var t := TableIn(kept, contentType);
        var listable := old(disk.IsDir(TypeDir(contentType)));
        var clean := ThumbnailDirs(old(disk.dirs), TypeDir(contentType), id) == {};
        && (ok <==> listable && clean && (id == contentType + ".csv" || !old(disk.IsDir(CsvPath(contentType)))))
        && (!listable ==> disk.files == kept)
        && (listable && !clean ==> LessSomeOf(disk.files, kept, thumbs))
        && (listable && clean && !ok ==> disk.files == kept - thumbs)
        && (ok ==> disk.files == (kept - thumbs)[CsvPath(contentType) := CsvText(codec, t.header, WithoutId(t.rows, id))])
      ensures id != contentType + ".csv" ==> forall p :: p in disk.files ==> !IsPrefix(ItemDir(contentType, id), p)
      ensures ok ==> forall p :: p in disk.files ==> !IsThumbnailPath(p, TypeDir(contentType), id)
    {
      DeletedLeavesNothing(old(disk.files), contentType, id);
      var typeDir := contentRoot + [contentType];
      var itemDir := typeDir + [id];
      assert itemDir == ItemDir(contentType, id);
      ghost var csvDir0 := disk.IsDir(CsvPath(contentType));
      assert !IsPrefix(itemDir, typeDir);
      disk.RemoveTreeIfExists(itemDir);
      ThumbnailDirsOutsideItem(old(disk.dirs), typeDir, id);
      if !disk.IsDir(typeDir) {
        return false;
      }
      var csvPath := CsvPath(contentType);
      if id != contentType + ".csv" {
        assert !IsPrefix(itemDir, csvPath) by {
          assert csvPath[|typeDir|] != itemDir[|typeDir|];
        }
        assert disk.IsDir(csvPath) == csvDir0;
      } else {
        assert csvPath == itemDir;
        assert !disk.IsDir(csvPath);
      }
      ok := ClearThumbnailsAndRecords(contentType, id);
    }

    /** After a successful delete nothing of the item is left: no file below
        its path (unless that path is the table) and no thumbnail of its id. */
    lemma DeletedLeavesNothing(files: map<Path, string>, contentType: string, id: string)
      ensures var kept := Pruned(files, ItemDir(contentType, id));
        var thumbs := Thumbnails(kept, TypeDir(contentType), id);
        var t := TableIn(kept, contentType);
        var after := (kept - thumbs)[CsvPath(contentType) := CsvText(codec, t.header, WithoutId(t.rows, id))];
        && (forall p :: p in after ==> !IsThumbnailPath(p, TypeDir(contentType), id))
        && (id != contentType + ".csv" ==> forall p :: p in after ==> !IsPrefix(ItemDir(contentType, id), p))
    {
      TableNotThumbnail(contentType, id);
      var csvPath := CsvPath(contentType);
      assert IsThumbnailPath(csvPath, TypeDir(contentType), id) ==> IsThumbnailOf(contentType + ".csv", id);
      if id != contentType + ".csv" {
        assert !IsPrefix(ItemDir(contentType, id), csvPath) by {
          assert csvPath[|contentRoot| + 1] != ItemDir(contentType, id)[|contentRoot| + 1];
        }
      }
    }

    /** `updateCell(contentType, id, column, value)`: the first record of the
        id gets the value and the table is written back; without such a record
        nothing happens. A directory at the table path makes the read throw
        before anything is written. A record exists only in a table file,
        whose directory exists, so the write cannot fail. */
    method UpdateCell(contentType: string, id: string, column: string, value: string) returns (ok: bool)
      requires disk.Valid()
      modifies disk
      ensures disk.Valid()
      ensures disk.dirs == old(disk.dirs)
      ensures ok <==> !old(disk.IsDir(CsvPath(contentType)))
      ensures !ok ==> disk.files == old(disk.files)
      ensures ok ==> var t := old(LoadCsvTable(contentType));
        match UpdateRows(t.rows, id, column, value)
        case None => disk.files == old(disk.files)
        case Some(rows) => disk.files == old(disk.files)[CsvPath(contentType) := CsvText(codec, t.header, rows)]
    {
      if disk.IsDir(CsvPath(contentType)) {
        return false;
      }
      var table := LoadCsvTable(contentType);
      var updated := UpdateRows(table.rows, id, column, value);
      if updated.Some? {
        var csvPath := CsvPath(contentType);
        assert csvPath in disk.files;
        assert Parent(csvPath) == TypeDir(contentType);
        var saved := SaveCsvTable(contentType, table.header, updated.value);
        assert saved;
      }
      ok := true;
    }

    /** The steps of `createItem` once the type directory is there: the item
        directory with its article, then the blank row. When the table write
        fails, the directory and the article stay; that is so for the id
        `<type>.csv`, whose directory takes the table's place. */
    method AddItemWithRow(contentType: string, id: string) returns (ok: bool)
      requires disk.Valid() && disk.IsDir(TypeDir(contentType))
      modifies disk
      ensures disk.Valid()
      ensures ok <==> !old(disk.Exists(ItemDir(contentType, id))) && !old(disk.IsDir(CsvPath(contentType))) && id != contentType + ".csv"
      ensures disk.dirs == old(disk.dirs) || disk.dirs == old(disk.dirs) + [ItemDir(contentType, id)]
      ensures ok ==> disk.IsDir(ItemDir(contentType, id))
      ensures ok ==> var t := old(LoadCsvTable(contentType));
        var header := WithIdColumn(t.header);
        disk.files == old(disk.files)[ItemDir(contentType, id) + ["article.md"] := NewArticle]
                                     [CsvPath(contentType) := CsvText(codec, header, t.rows + [BlankRow(header, id)])]
      ensures !ok ==>
        || disk.files == old(disk.files)
        || (&& disk.files == old(disk.files)[ItemDir(contentType, id) + ["article.md"] := NewArticle]
            && disk.IsDir(ItemDir(contentType, id)) && disk.IsDir(CsvPath(contentType)))
    {
      var itemDir := TypeDir(contentType) + [id];
      assert itemDir == ItemDir(contentType, id);
      assert Parent(itemDir) == TypeDir(contentType);
      ghost var table0 := LoadCsvTable(contentType);
      ghost var csvDir0 := disk.IsDir(CsvPath(contentType));
      ok := AddItemDir(itemDir);
      if !ok {
        return;
      }
      assert itemDir + ["article.md"] != CsvPath(contentType) by {
        assert |itemDir + ["article.md"]| != |CsvPath(contentType)|;
      }
      if id == contentType + ".csv" {
        assert itemDir == CsvPath(contentType);
      } else {
        assert disk.IsDir(CsvPath(contentType)) == csvDir0 by {
          assert itemDir[|itemDir| - 1] != CsvPath(contentType)[|itemDir| - 1];
        }
      }
      assert LoadCsvTable(contentType) == table0;
      ghost var files1 := disk.files;
      ok := AppendBlankRow(contentType, id);
      if !ok {
        return;
      }
      ghost var header := WithIdColumn(table0.header);
      assert disk.files == files1[CsvPath(contentType) := CsvText(codec, header, table0.rows + [BlankRow(header, id)])];
    }

    /** `createItem(contentType)`: the next numeric id gets a directory with the
        template article, and the table gains a blank row carrying the id. The
        item is None where a file system call throws; when that is the table
        write, the directory and the article are already there. */
    method CreateItem(contentType: string) returns (item: Option<Item>)
      requires disk.Valid()
      modifies disk
      ensures disk.Valid()
      ensures forall d :: d in old(disk.dirs) ==> d in disk.dirs
      ensures var id := NumToString(NextId(old(disk.ChildDirs(TypeDir(contentType)))));
        forall d :: d in disk.dirs ==> d in old(disk.dirs) || IsPrefix(d, TypeDir(contentType)) || d == ItemDir(contentType, id)
      ensures item.None? ==> var id := NumToString(NextId(old(disk.ChildDirs(TypeDir(contentType)))));
        || disk.files == old(disk.files)
        || (&& disk.files == old(disk.files)[ItemDir(contentType, id) + ["article.md"] := NewArticle]
            && disk.IsDir(ItemDir(contentType, id)) && disk.IsDir(CsvPath(contentType)))
      ensures item.Some? ==> item.value == Item(NumToString(NextId(old(disk.ChildDirs(TypeDir(contentType))))), Str(NewTitle))
      ensures item.Some? ==> disk.IsDir(ItemDir(contentType, item.value.id)) && !old(disk.Exists(ItemDir(contentType, item.value.id)))
      ensures item.Some? ==> var t := old(LoadCsvTable(contentType));
        var header := WithIdColumn(t.header);
        disk.files == old(disk.files)[ItemDir(contentType, item.value.id) + ["article.md"] := NewArticle]
                                     [CsvPath(contentType) := CsvText(codec, header, t.rows + [BlankRow(header, item.value.id)])]
    {
      var typeDir := contentRoot + [contentType];
      ghost var table0 := LoadCsvTable(contentType);
      var ok := disk.EnsureNested(contentRoot, typeDir);
      if !ok {
        return None;
      }
      var idText := NumToString(NextId(disk.ChildDirs(typeDir)));
      assert ItemDir(contentType, idText) + ["article.md"] != CsvPath(contentType) by {
        assert |ItemDir(contentType, idText) + ["article.md"]| != |CsvPath(contentType)|;
      }
      assert LoadCsvTable(contentType) == table0;
      ok := AddItemWithRow(contentType, idText);
      if !ok {
        return None;
      }
      item := Some(Item(idText, Str(NewTitle)));
    }
  }
}
