/** The CMS's content service (morinolab_cms/src/services/content-service.ts):
    the same layout as the local repository, `<root>/<type>/<id>/article.md`
    with a `<type>.csv` table beside the item directories, but its own id
    choice, listing order and an update-or-append `updateCell`. The front
    matter reader (gray-matter) is a parameter: it gives the `title` of an
    article's front matter, or nothing where it throws. */
module Service {
  import opened Wrappers
  import opened Text
  import opened JsValues
  import opened CsvRecord
  import opened CmsDisk
  import opened DataLoader
  import opened ItemIds

  // ---------------------------------------------------------------------------
  // The new id
  // ---------------------------------------------------------------------------

  /** `.map((item) => parseInt(item.id, 10))`. */
  function ParseInts(names: seq<string>): (r: seq<Num>)
    ensures |r| == |names|
    ensures forall k :: 0 <= k < |r| ==> r[k] == ParseInt10(names[k])
  {
    seq(|names|, k requires 0 <= k < |names| => ParseInt10(names[k]))
  }

  /** `maxId + 1` as the code has it: `Math.max` over the parsed names, with
      no guard against names that do not parse. */
  function NextIdAsWritten(names: seq<string>): (r: Num)
    ensures |names| == 0 ==> r == Finite(1)
  {
    if |names| == 0 then Finite(1) else AddOne(MathMax(ParseInts(names)))
  }

  /** The id the code evidently means: one more than the largest name that
      parses as an integer, and 1 when none does, as the repository's own
      `createItem` and the CMS main process compute it. */
  function ServiceNextId(names: seq<string>): Num {
    var ids := DropNaN(ParseInts(names));
    if |ids| > 0 then AddOne(MathMax(ids)) else Finite(1)
  }

  /** A single name that does not parse makes the written id `NaN`, and once
      a directory "NaN" exists every later call picks it again. */
  lemma NaNIdReused()
    ensures NumToString(NextIdAsWritten(["drafts"])) == "NaN"
    ensures NumToString(NextIdAsWritten(["drafts", "NaN"])) == "NaN"
    ensures NumToString(NextIdAsWritten(["NaN"])) in ["NaN"]
  {
    assert !IsDigit("drafts"[0]) && !IsDigit("NaN"[0]);
    assert DropLeading("drafts", IsJsSpace) == "drafts";
    assert DropLeading("NaN", IsJsSpace) == "NaN";
    assert ParseInts(["drafts"]) == [NaN];
    assert ParseInts(["NaN"]) == [NaN];
    assert ParseInts(["drafts", "NaN"]) == [NaN, NaN];
  }

  /** Where every name parses, the written id and the corrected one agree;
      where one does not, they differ. */
  lemma AsWrittenAgreesExactlyWhenAllParse(names: seq<string>)
    ensures NextIdAsWritten(names) == ServiceNextId(names) <==>
      forall k :: 0 <= k < |names| ==> ParseInt10(names[k]) != NaN
  {
    var ns := ParseInts(names);
    if forall k :: 0 <= k < |names| ==> ParseInt10(names[k]) != NaN {
      DropNaNNone(ns);
    } else {
      var k :| 0 <= k < |names| && ParseInt10(names[k]) == NaN;
      assert ns[k] in ns;
      ServiceNextIdFinite(names);
    }
  }

  lemma ServiceNextIdFinite(names: seq<string>)
    ensures ServiceNextId(names).Finite?
  {
    var ids := DropNaN(ParseInts(names));
    if |ids| > 0 {
      var m := MathMax(ids);
      var k :| 0 <= k < |names| && ParseInts(names)[k] == m;
    }
  }

  /** The corrected id is an integer above every name that parses, so no
      directory already bears its text. */
  lemma ServiceNextIdFresh(names: seq<string>)
    ensures ServiceNextId(names).Finite?
    ensures forall k :: 0 <= k < |names| && ParseInt10(names[k]).Finite? ==>
      ParseInt10(names[k]).value < ServiceNextId(names).value
    ensures NumToString(ServiceNextId(names)) !in names
  {
    ServiceNextIdFinite(names);
    var ns := ParseInts(names);
    forall k | 0 <= k < |names| && ParseInt10(names[k]).Finite?
      ensures ParseInt10(names[k]).value < ServiceNextId(names).value
    {
      assert ns[k] in ns;
    }
    var v := ServiceNextId(names).value;
    if NumToString(ServiceNextId(names)) in names {
      var k :| 0 <= k < |names| && names[k] == IntToString(v);
      ParseIntOfIntToString(v);
    }
  }

  /** The ids that count are the values of the names that parse. */
  lemma ParsedMember(names: seq<string>, n: Num)
    ensures n in DropNaN(ParseInts(names)) <==> n != NaN && exists x :: x in names && ParseInt10(x) == n
  {
    if n in DropNaN(ParseInts(names)) {
      var k :| 0 <= k < |names| && ParseInts(names)[k] == n;
      assert names[k] in names;
    }
    if n != NaN && exists x :: x in names && ParseInt10(x) == n {
      var x :| x in names && ParseInt10(x) == n;
      var k :| 0 <= k < |names| && names[k] == x;
      assert ParseInts(names)[k] == n;
    }
  }

  /** Only which names there are matters, not their order or repeats. */
  lemma ServiceNextIdByNames(a: seq<string>, b: seq<string>)
    requires forall x :: x in a <==> x in b
    ensures ServiceNextId(a) == ServiceNextId(b)
  {
    var ia := DropNaN(ParseInts(a));
    var ib := DropNaN(ParseInts(b));
    forall n ensures n in ia <==> n in ib {
      ParsedMember(a, n);
      ParsedMember(b, n);
    }
    if |ia| > 0 {
      assert ia[0] in ib;
      MaxBySet(ia, ib);
    }
  }

  /** `Math.max` depends only on the set of its arguments. */
  lemma MaxBySet(a: seq<Num>, b: seq<Num>)
    requires |a| > 0 && |b| > 0 && forall n :: n in a <==> n in b
    requires NaN !in a
    ensures MathMax(a) == MathMax(b)
  {
    var ma := MathMax(a);
    var mb := MathMax(b);
    NumLtTotal(ma, mb);
  }

  // ---------------------------------------------------------------------------
  // The article template and the listing
  // ---------------------------------------------------------------------------

  /** `新しい${type} ${newId}`. */
  function NewTitle(contentType: string, id: string): string {
    "新しい" + contentType + " " + id
  }

  /** The initial article: the title in the front matter and as a heading. */
  function NewArticle(contentType: string, id: string): string {
    "---\ntitle: \"" + NewTitle(contentType, id) + "\"\n---\n\n# " + NewTitle(contentType, id)
    + "\n\nここに内容を記述してください。\n"
  }

  /** `parseInt(id, 10)`, the listing's sort key. */
  /** The title a listed item falls back to: `data.title || dir.name`. */
  function NameTitle(name: string): JsValue {
    Str(name)
  }

  function IdKey(id: string): Num {
    ParseInt10(id)
  }

  // ---------------------------------------------------------------------------
  // updateCell
  // ---------------------------------------------------------------------------

  /** `r.id === id`: a record without an id cell never matches. */
  predicate HasId(r: Row, id: string) {
    "id" in r && r["id"] == id
  }

  /** `rows.find((r) => r.id === id)`, as the index of the record found. */
  function FindExact(rows: seq<Row>, id: string): (i: Option<nat>)
    ensures i.Some? ==> i.value < |rows| && HasId(rows[i.value], id)
    ensures i.Some? ==> forall j :: 0 <= j < i.value ==> !HasId(rows[j], id)
    ensures i.None? ==> forall j :: 0 <= j < |rows| ==> !HasId(rows[j], id)
  {
    if |rows| == 0 then None
    else if HasId(rows[0], id) then Some(0)
    else
      match FindExact(rows[1..], id)
      case None => None
      case Some(i) => Some(i + 1)
  }

  /** The rows `updateCell` saves: the cell of the first record of the id is
      set, or a record `{ id, [column]: value }` is appended. */
  function Upsert(rows: seq<Row>, id: string, column: string, value: string): (r: seq<Row>)
    ensures FindExact(rows, id).Some? ==> var i := FindExact(rows, id).value;
      && |r| == |rows|
      && r[i].Keys == rows[i].Keys + {column} && r[i][column] == value
      && (forall c :: c in rows[i] && c != column ==> r[i][c] == rows[i][c])
      && (forall j :: 0 <= j < |rows| && j != i ==> r[j] == rows[j])
    ensures FindExact(rows, id).None? ==> |r| == |rows| + 1 && r[..|rows|] == rows
    ensures FindExact(rows, id).None? ==> var added := r[|rows|];
      && added.Keys == {"id", column} && added[column] == value
      && (column != "id" ==> added["id"] == id)
  {
    match FindExact(rows, id)
    case Some(i) => rows[i := rows[i][column := value]]
    case None => rows + [map["id" := id][column := value]]
  }

  /** Unless the id itself is overwritten, the record is there afterwards,
      holding the value. */
  lemma UpsertFinds(rows: seq<Row>, id: string, column: string, value: string)
    requires column != "id"
    ensures var r := Upsert(rows, id, column, value);
      && FindExact(r, id).Some?
      && column in r[FindExact(r, id).value] && r[FindExact(r, id).value][column] == value
      && FindExact(r, id).value == (if FindExact(rows, id).Some? then FindExact(rows, id).value else |rows|)
  {
    var r := Upsert(rows, id, column, value);
    var i := if FindExact(rows, id).Some? then FindExact(rows, id).value else |rows|;
    assert HasId(r[i], id);
    forall j | 0 <= j < i ensures !HasId(r[j], id) {
      assert r[j] == rows[j];
    }
    match FindExact(r, id)
    case None =>
    case Some(k) =>
  }

  /** Setting the same cell twice is setting it once: a second call finds the
      record the first one appended instead of appending another. */
  lemma UpsertIdempotent(rows: seq<Row>, id: string, column: string, value: string)
    requires column != "id"
    ensures Upsert(Upsert(rows, id, column, value), id, column, value) == Upsert(rows, id, column, value)
  {
    var r := Upsert(rows, id, column, value);
    UpsertFinds(rows, id, column, value);
    var i := FindExact(r, id).value;
    assert r[i][column := value] == r[i];
  }

  class ContentService {
    var contentRoot: Path
    const disk: Disk
    const codec: CsvCodec
    const matter: string -> Option<JsValue>

    constructor(contentRoot: Path, disk: Disk, codec: CsvCodec, matter: string -> Option<JsValue>)
      ensures this.contentRoot == contentRoot && this.disk == disk && this.codec == codec && this.matter == matter
    {
      this.contentRoot := contentRoot;
      this.disk := disk;
      this.codec := codec;
      this.matter := matter;
    }

    /** `setContentRoot(newRoot)`. */
    method SetContentRoot(newRoot: Path)
      modifies this
      ensures contentRoot == newRoot
    {
      contentRoot := newRoot;
    }

    /** `getContentRoot()`: the root last set. */
    method GetContentRoot() returns (root: Path)
      ensures root == contentRoot
    {
      root := contentRoot;
    }

    function TypeDir(contentType: string): Path
      reads this
    {
      contentRoot + [contentType]
    }

    function ItemDir(contentType: string, id: string): Path
      reads this
    {
      contentRoot + [contentType, id]
    }

    function CsvPath(contentType: string): Path
      reads this
    {
      contentRoot + [contentType, contentType + ".csv"]
    }

    /** `listItems(type)`: nothing when the type directory is missing, None
        where `readdirSync` throws on a file, otherwise its directories in
        `parseInt` order. */
    function ListItems(contentType: string): (r: Option<seq<Item>>)
      reads this, disk
      ensures !disk.Exists(TypeDir(contentType)) ==> r == Some([])
      ensures r.None? <==> disk.Exists(TypeDir(contentType)) && !disk.IsDir(TypeDir(contentType))
      ensures r.Some? ==> forall k :: 0 <= k < |r.value| ==>
        r.value[k] == ListedItem(disk.files, matter, TypeDir(contentType), r.value[k].id, NameTitle)
    {
      var typeDir := TypeDir(contentType);
      if !disk.Exists(typeDir) then Some([])
      else if !disk.IsDir(typeDir) then None
      else
        var names := disk.ChildDirs(typeDir);
        var items := ListedItems(disk.files, matter, typeDir, names, NameTitle);
        var sorted := SortById(items, IdKey);
        assert forall k :: 0 <= k < |sorted| ==> sorted[k] in multiset(items);
        Some(sorted)
    }

    /** `loadCsvTable(type)`: a missing file reads as no header and no rows;
        otherwise the text, untrimmed, goes to the CSV parser. */
    function LoadCsvTable(contentType: string): (t: Table)
      reads this, disk
      ensures CsvPath(contentType) !in disk.files ==> t == Table([], [])
      ensures CsvPath(contentType) in disk.files ==> t == codec.parse(disk.files[CsvPath(contentType)])
    {
      var p := CsvPath(contentType);
      if p in disk.files then codec.parse(disk.files[p]) else Table([], [])
    }

    /** `saveCsvTable(type, header, rows)`: always `Papa.unparse`, even for
        no rows. */
    method SaveCsvTable(contentType: string, header: seq<string>, rows: seq<Row>) returns (ok: bool)
      requires disk.Valid()
      modifies disk
      ensures disk.Valid()
      ensures disk.dirs == old(disk.dirs)
      ensures ok <==> old(disk.IsDir(TypeDir(contentType))) && !old(disk.IsDir(CsvPath(contentType)))
      ensures ok ==> disk.files == old(disk.files)[CsvPath(contentType) := codec.unparse(header, rows)]
      ensures !ok ==> disk.files == old(disk.files)
    {
      assert Parent(CsvPath(contentType)) == TypeDir(contentType);
      ok := disk.WriteFile(CsvPath(contentType), codec.unparse(header, rows));
    }

    /** `updateCell(type, id, column, value)`: update or append, then save
        with the header as loaded. */
    method UpdateCell(contentType: string, id: string, column: string, value: string) returns (ok: bool)
      requires disk.Valid()
      modifies disk
      ensures disk.Valid()
      ensures disk.dirs == old(disk.dirs)
      ensures ok <==> old(disk.IsDir(TypeDir(contentType))) && !old(disk.IsDir(CsvPath(contentType)))
      ensures ok ==> var t := old(LoadCsvTable(contentType));
        disk.files == old(disk.files)[CsvPath(contentType) := codec.unparse(t.header, Upsert(t.rows, id, column, value))]
      ensures !ok ==> disk.files == old(disk.files)
    {
      var table := LoadCsvTable(contentType);
      ok := SaveCsvTable(contentType, table.header, Upsert(table.rows, id, column, value));
    }

    /** `deleteItem(type, id)`: the item directory and everything in it go;
        the table is not touched. */
    method DeleteItem(contentType: string, id: string)
      requires disk.Valid()
      modifies disk
      ensures disk.Valid()
      ensures disk.dirs == Outside(old(disk.dirs), ItemDir(contentType, id))
      ensures disk.files == Pruned(old(disk.files), ItemDir(contentType, id))
    {
      disk.RemoveTreeIfExists(ItemDir(contentType, id));
    }

    /** The id `createItem` reads off the listing is the corrected next id
        of the directory names, and no directory of the type bears it. */
    lemma ListedNextIdFresh(contentType: string)
      requires disk.IsDir(TypeDir(contentType))
      ensures ListItems(contentType).Some?
      ensures var names := disk.ChildDirs(TypeDir(contentType));
        var id := NumToString(ServiceNextId(Ids(ListItems(contentType).value)));
        && id == NumToString(ServiceNextId(names))
        && TypeDir(contentType) + [id] !in disk.dirs
    {
      var names := disk.ChildDirs(TypeDir(contentType));
      ListItemsAreTheDirs(contentType);
      var ids := Ids(ListItems(contentType).value);
      forall x ensures x in ids <==> x in names {
        assert x in ids <==> x in multiset(ids);
      }
      ServiceNextIdByNames(ids, names);
      ServiceNextIdFresh(names);
      ChildDirsMember(disk.dirs, TypeDir(contentType), NumToString(ServiceNextId(names)));
    }

    /** `mkdirSync(newDir, { recursive: true })` and then the same for its
        `media` directory: both fail exactly when a file stands on the way to
        the `media` directory, and all they add lies on that way. */
    method MakeItemDirs(newDir: Path) returns (ok: bool)
      requires disk.Valid() && newDir != []
      modifies disk
      ensures disk.Valid()
      ensures disk.files == old(disk.files)
      ensures forall d :: d in old(disk.dirs) ==> d in disk.dirs
      ensures forall d :: d in disk.dirs ==> d in old(disk.dirs) || IsPrefix(d, newDir + ["media"])
      ensures ok <==> forall f :: f in old(disk.files) ==> !IsPrefix(f, newDir + ["media"])
      ensures ok ==> disk.IsDir(newDir) && disk.IsDir(newDir + ["media"])
    {
      var mediaDir := newDir + ["media"];
      ok := disk.MkdirAll(newDir);
      if !ok {
        var f :| f in disk.files && IsPrefix(f, newDir);
        PrefixOfLonger(f, newDir, ["media"]);
        return;
      }
      forall d | d in disk.dirs && d !in old(disk.dirs) ensures IsPrefix(d, mediaDir) {
        PrefixOfLonger(d, newDir, ["media"]);
      }
      ok := disk.MkdirAll(mediaDir);
    }

    /** The directory steps of `createItem`: the item and `media`
        directories, then the article. */
    method AddItemDir(newDir: Path, article: string) returns (ok: bool)
      requires disk.Valid() && newDir != []
      modifies disk
      ensures disk.Valid()
      ensures forall d :: d in old(disk.dirs) ==> d in disk.dirs
      ensures forall d :: d in disk.dirs ==> d in old(disk.dirs) || IsPrefix(d, newDir + ["media"])
      ensures ok <==> (forall f :: f in old(disk.files) ==> !IsPrefix(f, newDir + ["media"])) && newDir + ["article.md"] !in old(disk.dirs)
      ensures !ok ==> disk.files == old(disk.files)
      ensures ok ==> newDir !in old(disk.files)
      ensures ok ==> disk.IsDir(newDir) && disk.IsDir(newDir + ["media"])
      ensures ok ==> disk.files == old(disk.files)[newDir + ["article.md"] := article]
    {
      var mediaDir := newDir + ["media"];
      var articlePath := newDir + ["article.md"];
      ok := MakeItemDirs(newDir);
      if !ok {
        return;
      }
      assert newDir !in old(disk.files) by {
        assert IsPrefix(newDir, newDir);
        PrefixOfLonger(newDir, newDir, ["media"]);
      }
      assert articlePath in disk.dirs ==> articlePath in old(disk.dirs) by {
        assert mediaDir[|newDir|] != articlePath[|newDir|];
        assert !IsPrefix(articlePath, mediaDir);
      }
      assert Parent(articlePath) == newDir;
      ok := disk.WriteFile(articlePath, article);
    }

    /** `createItem(type)`: a directory for the next id with a `media`
        directory and the template article in it. The id is the corrected
        one; the item is None where a call throws. */
    method CreateItem(contentType: string) returns (item: Option<Item>)
      requires disk.Valid()
      modifies disk
      ensures disk.Valid()
      ensures forall d :: d in old(disk.dirs) ==> d in disk.dirs
      ensures var id := NumToString(ServiceNextId(old(disk.ChildDirs(TypeDir(contentType)))));
        forall d :: d in disk.dirs ==> d in old(disk.dirs) || IsPrefix(d, ItemDir(contentType, id) + ["media"])
      ensures item.None? ==> disk.files == old(disk.files)
      ensures item.Some? ==> item.value.id == NumToString(ServiceNextId(old(disk.ChildDirs(TypeDir(contentType)))))
      ensures item.Some? ==> item.value.title == Str(NewTitle(contentType, item.value.id))
      ensures item.Some? ==> !old(disk.Exists(ItemDir(contentType, item.value.id)))
      ensures item.Some? ==> disk.IsDir(ItemDir(contentType, item.value.id)) && disk.IsDir(ItemDir(contentType, item.value.id) + ["media"])
      ensures item.Some? ==> disk.files == old(disk.files)[ItemDir(contentType, item.value.id) + ["article.md"] := NewArticle(contentType, item.value.id)]
    {
      var typeDir := contentRoot + [contentType];
      ghost var id0 := NumToString(ServiceNextId(disk.ChildDirs(typeDir)));
      var ok := disk.EnsureNested(contentRoot, typeDir);
      assert ItemDir(contentType, id0) == typeDir + [id0];
      forall d | d in disk.dirs && d !in old(disk.dirs) ensures IsPrefix(d, ItemDir(contentType, id0) + ["media"]) {
        PrefixOfLonger(d, typeDir, [id0]);
        PrefixOfLonger(d, typeDir + [id0], ["media"]);
      }
      if !ok {
        return None;
      }
      var listing := ListItems(contentType);
      ListedNextIdFresh(contentType);
      var newId := NumToString(ServiceNextId(Ids(listing.value)));
      assert newId == id0;
      var newDir := typeDir + [newId];
      assert newDir == ItemDir(contentType, newId);
      ok := AddItemDir(newDir, NewArticle(contentType, newId));
      if !ok {
        return None;
      }
      item := Some(Item(newId, Str(NewTitle(contentType, newId))));
    }

    /** The listing holds each directory of the type exactly once. */
    lemma ListItemsAreTheDirs(contentType: string)
      requires disk.IsDir(TypeDir(contentType))
      ensures ListItems(contentType).Some?
      ensures multiset(Ids(ListItems(contentType).value)) == multiset(disk.ChildDirs(TypeDir(contentType)))
    {
      var names := disk.ChildDirs(TypeDir(contentType));
      var items := ListedItems(disk.files, matter, TypeDir(contentType), names, NameTitle);
      assert Ids(items) == names;
      IdsOfSort(items, IdKey);
    }

    /** When every directory name parses, the listing is in ascending id order. */
    lemma ListItemsSorted(contentType: string)
      requires ListItems(contentType).Some?
      requires forall n :: n in disk.ChildDirs(TypeDir(contentType)) ==> ParseInt10(n) != NaN
      ensures SortedById(ListItems(contentType).value, IdKey)
    {
      if disk.IsDir(TypeDir(contentType)) {
        var names := disk.ChildDirs(TypeDir(contentType));
        var items := ListedItems(disk.files, matter, TypeDir(contentType), names, NameTitle);
        forall k | 0 <= k < |items| ensures !IdKey(items[k].id).NaN? {
          assert names[k] in names;
        }
        SortByIdSorted(items, IdKey);
      }
    }
  }
}
