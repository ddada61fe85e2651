/** The content validator (scripts/validate_contents_db.py): a fixed schema
    table of datasets, a first pass that collects every dataset's ids, and a
    second pass that checks each row for blank or duplicate ids, blank required
    fields, missing article files and foreign keys that do not resolve. Every
    problem becomes one finding; nothing aborts the run.

    The CSV files are given as already-read tables: a dataset whose name is not
    a key of `csvs` is one whose file is missing or cannot be read. A row maps
    each header to its cell; `None` is the value `csv.DictReader` gives the
    columns a short row does not reach. The set `articles` holds the article
    paths that exist. */
module ContentValidator {
  import opened Text
  import opened Wrappers
  import opened Seqs

  type Row = map<string, Option<string>>
  type Table = seq<Row>

  /** One entry of the schema table: required columns, whether every row needs
      an article file, and the foreign-key columns with the dataset each refers
      to, in declaration order. */
  datatype DatasetCfg = DatasetCfg(name: string, required: seq<string>, hasArticle: bool,
                                   fkColumns: seq<(string, string)>)

  /** The schema table, in the order the validator visits it. */
  const Datasets: seq<DatasetCfg> := [
    DatasetCfg("tags", ["id", "name"], false, []),
    DatasetCfg("member", ["id", "name", "desc", "nameEnglish", "descEnglish", "admissionYear"], true,
               [("tagIds", "tags")]),
    DatasetCfg("company", ["id", "nameJa", "nameEn", "year"], false, []),
    DatasetCfg("theme", ["id", "titleJa", "titleEn", "descJa", "descEn"], true, []),
    DatasetCfg("lecture", ["id", "titleJa", "titleEn", "descJa", "descEn"], true, []),
    DatasetCfg("news", ["id", "date", "textJa", "textEn"], true, []),
    DatasetCfg("publication", ["id", "fiscalYear", "type", "authorMemberIds"], true,
               [("authorMemberIds", "member"), ("tagIds", "tags")])
  ]

  /** A finding of the report. Row numbers count the header as row 1. */
  datatype Finding =
    | ReadFailed(dataset: string)
    | Aborted(dataset: string)
    | BlankId(dataset: string, row: nat)
    | DuplicateId(dataset: string, id: string, row: nat)
    | RequiredBlank(dataset: string, row: nat, field: string)
    | ArticleMissing(dataset: string, row: nat, path: string)
    | DanglingReference(dataset: string, row: nat, value: string, column: string, refDataset: string)

  /** The row a finding is about; 0 for the dataset-level findings. */
  function RowOf(f: Finding): nat {
    match f
    case ReadFailed(_) => 0
    case Aborted(_) => 0
    case BlankId(_, n) => n
    case DuplicateId(_, _, n) => n
    case RequiredBlank(_, n, _) => n
    case ArticleMissing(_, n, _) => n
    case DanglingReference(_, n, _, _, _) => n
  }

  predicate NoDuplicates<T(==)>(s: seq<T>) {
    forall i, j :: 0 <= i < j < |s| ==> s[i] != s[j]
  }

  // ---------------------------------------------------------------------------
  // Cell access
  // ---------------------------------------------------------------------------

  /** `row.get(key, "")`: an absent column reads as the empty string. */
  function GetDefault(row: Row, key: string): Option<string> {
    if key in row then row[key] else Some("")
  }

  /** `row.get(key)`: an absent column reads as `None`. */
  function Get(row: Row, key: string): Option<string> {
    if key in row then row[key] else None
  }

  /** `row.get("id", "").strip()`, with "" standing in where that would raise. */
  function StrippedId(row: Row): string {
    match GetDefault(row, "id")
    case Some(v) => PyStrip(v)
    case None => ""
  }

  /** `row.get(field, "").strip() == ""` (an absent column is blank). */
  predicate FieldBlank(row: Row, field: string) {
    match GetDefault(row, field)
    case Some(v) => PyStrip(v) == ""
    case None => false
  }

  /** Reading this field with `get(field, "")` yields `None`. */
  predicate FieldNone(row: Row, field: string) {
    GetDefault(row, field).None?
  }

  /** The id of this row reads as `None`. */
  predicate IdNone(row: Row) {
    FieldNone(row, "id")
  }

  /** A required field of this row reads as `None`. */
  predicate RequiredNone(cfg: DatasetCfg, row: Row) {
    exists k :: 0 <= k < |cfg.required| && FieldNone(row, cfg.required[k])
  }

  /** Some row among `rows` has an id that reads as `None`. */
  predicate AnyIdNone(rows: Table) {
    |rows| > 0 && (AnyIdNone(rows[..|rows| - 1]) || IdNone(rows[|rows| - 1]))
  }

  /** Some row among `rows` has a required field that reads as `None`. */
  predicate AnyRequiredNone(cfg: DatasetCfg, rows: Table) {
    |rows| > 0 && (AnyRequiredNone(cfg, rows[..|rows| - 1]) || RequiredNone(cfg, rows[|rows| - 1]))
  }

  lemma {:induction false} AnyIdNoneIff(rows: Table)
    ensures AnyIdNone(rows) <==> exists i :: 0 <= i < |rows| && IdNone(rows[i])
  {
    if |rows| > 0 {
      var p := rows[..|rows| - 1];
      AnyIdNoneIff(p);
      if exists i :: 0 <= i < |p| && IdNone(p[i]) {
        var i :| 0 <= i < |p| && IdNone(p[i]);
        assert rows[i] == p[i];
      }
      if exists i :: 0 <= i < |rows| - 1 && IdNone(rows[i]) {
        var i :| 0 <= i < |rows| - 1 && IdNone(rows[i]);
        assert rows[i] == p[i];
      }
    }
  }

  lemma {:induction false} AnyRequiredNoneIff(cfg: DatasetCfg, rows: Table)
    ensures AnyRequiredNone(cfg, rows) <==> exists i :: 0 <= i < |rows| && RequiredNone(cfg, rows[i])
  {
    if |rows| > 0 {
      var p := rows[..|rows| - 1];
      AnyRequiredNoneIff(cfg, p);
      if exists i :: 0 <= i < |p| && RequiredNone(cfg, p[i]) {
        var i :| 0 <= i < |p| && RequiredNone(cfg, p[i]);
        assert rows[i] == p[i];
      }
      if exists i :: 0 <= i < |rows| - 1 && RequiredNone(cfg, rows[i]) {
        var i :| 0 <= i < |rows| - 1 && RequiredNone(cfg, rows[i]);
        assert rows[i] == p[i];
      }
    }
  }

  /** `validate_dataset` raises on some row: an id or a required field reads
      as `None` (`AnyIdNoneIff` and `AnyRequiredNoneIff` say which rows). */
  predicate Crashes(cfg: DatasetCfg, rows: Table) {
    AnyIdNone(rows) || AnyRequiredNone(cfg, rows)
  }

  // ---------------------------------------------------------------------------
  // parse_id_list
  // ---------------------------------------------------------------------------

  /** Stripped pieces of `parts`, empty ones dropped, order kept. */
  function StripNonEmpty(parts: seq<string>): (r: seq<string>)
    ensures |r| <= |parts|
    ensures forall k :: 0 <= k < |r| ==> r[k] != ""
  {
    if |parts| == 0 then []
    else
      var t := PyStrip(parts[0]);
      (if t != "" then [t] else []) + StripNonEmpty(parts[1..])
  }

  /** `parse_id_list(value)`. */
  function ParseIdList(value: Option<string>): (ids: seq<string>)
    ensures value.None? || PyStrip(value.value) == "" ==> ids == []
    ensures forall k :: 0 <= k < |ids| ==> ids[k] != ""
  {
    match value
    case None => []
    case Some(v) => if PyStrip(v) == "" then [] else StripNonEmpty(Split(v, ','))
  }

  /** Every element is a stripped comma-free piece of the input. */
  lemma ParseIdListElements(v: string)
    ensures forall k :: 0 <= k < |ParseIdList(Some(v))| ==>
      var e := ParseIdList(Some(v))[k];
      e != "" && ',' !in e && PyStrip(e) == e
  {
    SplitJoin(v, ',');
    StripNonEmptyElements(Split(v, ','), ',');
  }

  lemma {:induction false} StripNonEmptyElements(parts: seq<string>, sep: char)
    requires forall k :: 0 <= k < |parts| ==> sep !in parts[k]
    ensures forall k :: 0 <= k < |StripNonEmpty(parts)| ==>
      sep !in StripNonEmpty(parts)[k] && PyStrip(StripNonEmpty(parts)[k]) == StripNonEmpty(parts)[k]
  {
    if |parts| > 0 {
      StripNonEmptyElements(parts[1..], sep);
      PyStripIdempotent(parts[0]);
      StripIsSubsequence(parts[0]);
    }
  }

  lemma StripIsSubsequence(s: string)
    ensures forall c :: c in PyStrip(s) ==> c in s
  {
    var a, b := TrimWithIsSlice(s, IsPySpace);
    forall c | c in PyStrip(s) ensures c in s {
      var k :| 0 <= k < |PyStrip(s)| && PyStrip(s)[k] == c;
      assert s[a + k] == c;
    }
  }

  /** Writing ids joined by commas and parsing them back gives the same list,
      for ids that are non-empty, stripped and comma-free. */
  lemma {:induction false} ParseIdListJoin(ids: seq<string>)
    requires |ids| > 0
    requires forall k :: 0 <= k < |ids| ==> ids[k] != "" && ',' !in ids[k] && PyStrip(ids[k]) == ids[k]
    ensures ParseIdList(Some(Join(ids, ','))) == ids
  {
    SplitOfJoin(ids, ',');
    var v := Join(ids, ',');
    assert PyStrip(v) != "" by {
      JoinNonBlank(ids);
    }
    StripNonEmptyIdentity(ids);
  }

  lemma {:induction false} StripNonEmptyIdentity(ids: seq<string>)
    requires forall k :: 0 <= k < |ids| ==> ids[k] != "" && PyStrip(ids[k]) == ids[k]
    ensures StripNonEmpty(ids) == ids
  {
    if |ids| > 0 {
      StripNonEmptyIdentity(ids[1..]);
    }
  }

  lemma JoinNonBlank(ids: seq<string>)
    requires |ids| > 0
    requires forall k :: 0 <= k < |ids| ==> ids[k] != "" && PyStrip(ids[k]) == ids[k]
    ensures PyStrip(Join(ids, ',')) != ""
  {
    var v := Join(ids, ',');
    JoinStartsWith(ids, ',');
    PyStripEmptyIff(ids[0]);
    var i :| 0 <= i < |ids[0]| && !IsPySpace(ids[0][i]);
    assert v[i] == ids[0][i];
    PyStripEmptyIff(v);
  }

  // ---------------------------------------------------------------------------
  // Pass 1: id collection
  // ---------------------------------------------------------------------------

  /** `{row.get("id", "").strip() for row in rows if row.get("id")}`. */
  function Pass1Ids(rows: Table): set<string> {
    if |rows| == 0 then {}
    else
      var last := rows[|rows| - 1];
      Pass1Ids(rows[..|rows| - 1])
        + (match Get(last, "id") case Some(v) => if v != "" then {PyStrip(v)} else {} case None => {})
  }

  /** The ids `validate_dataset` collects in `ids_seen`: the non-blank stripped ids. */
  function IdsOf(rows: Table): set<string> {
    if |rows| == 0 then {}
    else
      var v := StrippedId(rows[|rows| - 1]);
      IdsOf(rows[..|rows| - 1]) + (if v != "" then {v} else {})
  }

  /** `ids_seen` is exactly the set of non-blank stripped ids. */
  lemma {:induction false} IdsOfIsNonBlankIds(rows: Table, v: string)
    ensures v in IdsOf(rows) <==> v != "" && exists i :: 0 <= i < |rows| && StrippedId(rows[i]) == v
  {
    if |rows| > 0 {
      var p := rows[..|rows| - 1];
      IdsOfIsNonBlankIds(p, v);
      if exists i :: 0 <= i < |rows| && StrippedId(rows[i]) == v {
        var i :| 0 <= i < |rows| && StrippedId(rows[i]) == v;
        if i < |rows| - 1 {
          assert p[i] == rows[i];
        }
      }
      if exists i :: 0 <= i < |p| && StrippedId(p[i]) == v {
        var i :| 0 <= i < |p| && StrippedId(p[i]) == v;
        assert rows[i] == p[i];
      }
    }
  }

  /** The pass-1 set differs from `ids_seen` only in possibly holding "" (a
      whitespace-only id is truthy before stripping). */
  lemma {:induction false} Pass1IdsAgree(rows: Table)
    ensures Pass1Ids(rows) - {""} == IdsOf(rows)
  {
    if |rows| > 0 {
      Pass1IdsAgree(rows[..|rows| - 1]);
      var last := rows[|rows| - 1];
      match Get(last, "id")
      case Some(v) =>
        if v == "" {
          PyStripEmptyIff(v);
        }
      case None =>
    }
  }

  // ---------------------------------------------------------------------------
  // Pass 2: the four checks of validate_dataset
  // ---------------------------------------------------------------------------

  datatype Check = Uniqueness | RequiredFields | Articles | ForeignKeys

  /** What a check needs besides the rows. */
  datatype Ctx = Ctx(cfg: DatasetCfg, fkIds: map<string, set<string>>, root: string, articles: set<string>)

  /** `<root>/<dataset>/<id>/article.html`. */
  function ArticlePath(root: string, dataset: string, id: string): string {
    root + "/" + dataset + "/" + id + "/article.html"
  }

  /** `fk_ids.get(ref, set())`: an unread dataset counts as having no ids. */
  function RefIds(fkIds: map<string, set<string>>, ref: string): set<string> {
    if ref in fkIds then fkIds[ref] else {}
  }

  /** The uniqueness finding of row `n`, given the rows before it. */
  function IdFinding(name: string, before: Table, row: Row, n: nat): seq<Finding> {
    var v := StrippedId(row);
    if v == "" then [BlankId(name, n)]
    else if v in IdsOf(before) then [DuplicateId(name, v, n)]
    else []
  }

  /** The required-field findings of row `n`, in field order. */
  function RequiredRow(name: string, n: nat, fields: seq<string>, row: Row): seq<Finding> {
    if |fields| == 0 then []
    else
      var f := fields[|fields| - 1];
      RequiredRow(name, n, fields[..|fields| - 1], row)
        + (if FieldBlank(row, f) then [RequiredBlank(name, n, f)] else [])
  }

  /** The article finding of row `n` (rows with a blank id are skipped). */
  function ArticleRow(ctx: Ctx, row: Row, n: nat): seq<Finding> {
    var v := StrippedId(row);
    var path := ArticlePath(ctx.root, ctx.cfg.name, v);
    if !ctx.cfg.hasArticle || v == "" || path in ctx.articles then []
    else [ArticleMissing(ctx.cfg.name, n, path)]
  }

  /** One finding per listed id that the referenced dataset does not have. */
  function FkCell(name: string, n: nat, col: string, ref: string, ids: seq<string>, known: set<string>): seq<Finding> {
    if |ids| == 0 then []
    else
      var v := ids[|ids| - 1];
      FkCell(name, n, col, ref, ids[..|ids| - 1], known)
        + (if v !in known then [DanglingReference(name, n, v, col, ref)] else [])
  }

  /** True when the foreign-key cell is absent, `None` or blank. */
  predicate FkCellBlank(row: Row, col: string) {
    match Get(row, col)
    case None => true
    case Some(v) => PyStrip(v) == ""
  }

  function FkCellFindings(name: string, n: nat, row: Row, col: string, ref: string, fkIds: map<string, set<string>>): seq<Finding> {
    if FkCellBlank(row, col) then []
    else FkCell(name, n, col, ref, ParseIdList(Get(row, col)), RefIds(fkIds, ref))
  }

  /** The findings `g` produces for each element of `xs`, in order. */
  function FlatMap<T>(xs: seq<T>, g: T -> seq<Finding>): seq<Finding> {
    if |xs| == 0 then []
    else FlatMap(xs[..|xs| - 1], g) + g(xs[|xs| - 1])
  }

  /** The foreign-key findings of row `n`, column by column. */
  function FkRow(name: string, n: nat, fks: seq<(string, string)>, fkIds: map<string, set<string>>, row: Row): seq<Finding> {
    FlatMap(fks, (fk: (string, string)) => FkCellFindings(name, n, row, fk.0, fk.1, fkIds))
  }

  function RowFindings(check: Check, ctx: Ctx, before: Table, row: Row, n: nat): seq<Finding> {
    match check
    case Uniqueness => IdFinding(ctx.cfg.name, before, row, n)
    case RequiredFields => RequiredRow(ctx.cfg.name, n, ctx.cfg.required, row)
    case Articles => ArticleRow(ctx, row, n)
    case ForeignKeys => FkRow(ctx.cfg.name, n, ctx.cfg.fkColumns, ctx.fkIds, row)
  }

  /** The findings `g` produces for each row, given the rows before it and
      the row's number, row by row from row 2 (the header is row 1). */
  function PerRow(rows: Table, g: (Table, Row, nat) -> seq<Finding>): seq<Finding> {
    if |rows| == 0 then []
    else
      var k := |rows| - 1;
      PerRow(rows[..k], g) + g(rows[..k], rows[k], k + 2)
  }

  /** The findings of one check over all rows. */
  function CheckFindings(check: Check, ctx: Ctx, rows: Table): seq<Finding> {
    PerRow(rows, (before: Table, row: Row, n: nat) => RowFindings(check, ctx, before, row, n))
  }

  /** `validate_dataset`: a failure if the CSV cannot be read or a row makes it
      raise; otherwise `ids_seen` and the findings of the four checks in order. */
  function ValidateDatasetSpec(ctx: Ctx, table: Option<Table>): Result<(set<string>, seq<Finding>), Finding> {
    match table
    case None => Failure(ReadFailed(ctx.cfg.name))
    case Some(rows) =>
      if Crashes(ctx.cfg, rows) then Failure(Aborted(ctx.cfg.name))
      else Success((IdsOf(rows),
                    CheckFindings(Uniqueness, ctx, rows) + CheckFindings(RequiredFields, ctx, rows)
                    + CheckFindings(Articles, ctx, rows) + CheckFindings(ForeignKeys, ctx, rows)))
  }

  // ---------------------------------------------------------------------------
  // validate_dataset, step by step
  // ---------------------------------------------------------------------------

  lemma PrefixStep(rows: Table, i: nat)
    requires i < |rows|
    ensures rows[..i + 1][..i] == rows[..i] && rows[..i + 1][i] == rows[i]
  {
  }

  /** The required-field loop for one row; `None` when a field is `None`. */
  method RequiredForRow(name: string, n: nat, fields: seq<string>, row: Row) returns (r: Option<seq<Finding>>)
    ensures r.None? <==> exists k :: 0 <= k < |fields| && FieldNone(row, fields[k])
    ensures r.Some? ==> r.value == RequiredRow(name, n, fields, row)
  {
    var errs: seq<Finding> := [];
    var j := 0;
    while j < |fields|
      invariant 0 <= j <= |fields|
      invariant errs == RequiredRow(name, n, fields[..j], row)
      invariant forall k :: 0 <= k < j ==> !FieldNone(row, fields[k])
    {
      var v := GetDefault(row, fields[j]);
      if v.None? {
        assert FieldNone(row, fields[j]);
        return None;
      }
      RequiredRowStep(name, n, fields, row, j);
      if PyStrip(v.value) == "" {
        errs := errs + [RequiredBlank(name, n, fields[j])];
      }
      j := j + 1;
    }
    PrefixWhole(fields);
    return Some(errs);
  }

  /** One more required field adds its own finding, if any, at the end. */
  lemma RequiredRowStep(name: string, n: nat, fields: seq<string>, row: Row, j: nat)
    requires j < |fields|
    ensures RequiredRow(name, n, fields[..j + 1], row) ==
      RequiredRow(name, n, fields[..j], row) + if FieldBlank(row, fields[j]) then [RequiredBlank(name, n, fields[j])] else []
  {
    assert fields[..j + 1][..j] == fields[..j];
  }

  /** The innermost foreign-key loop over the listed ids of one cell. */
  method CheckFkCell(name: string, n: nat, col: string, ref: string, ids: seq<string>, known: set<string>)
    returns (errs: seq<Finding>)
    ensures errs == FkCell(name, n, col, ref, ids, known)
  {
    errs := [];
    var j := 0;
    while j < |ids|
      invariant 0 <= j <= |ids|
      invariant errs == FkCell(name, n, col, ref, ids[..j], known)
    {
      assert ids[..j + 1][..j] == ids[..j];
      if ids[j] !in known {
        errs := errs + [DanglingReference(name, n, ids[j], col, ref)];
      }
      j := j + 1;
    }
    assert ids[..j] == ids;
  }

  /** The foreign-key loop over the declared columns of one row. */
  method CheckFkRow(name: string, n: nat, fks: seq<(string, string)>, fkIds: map<string, set<string>>, row: Row)
    returns (errs: seq<Finding>)
    ensures errs == FkRow(name, n, fks, fkIds, row)
  {
    errs := [];
    var j := 0;
    while j < |fks|
      invariant 0 <= j <= |fks|
      invariant errs == FkRow(name, n, fks[..j], fkIds, row)
    {
      assert fks[..j + 1][..j] == fks[..j];
      var (col, ref) := fks[j];
      var raw := Get(row, col);
      if !(raw.None? || PyStrip(raw.value) == "") {
        var cell := CheckFkCell(name, n, col, ref, ParseIdList(raw), RefIds(fkIds, ref));
        errs := errs + cell;
      }
      j := j + 1;
    }
    assert fks[..j] == fks;
  }

  /** One more row adds its id finding, its id and its chance to raise. */
  lemma UniquenessStep(ctx: Ctx, rows: Table, i: nat)
    requires i < |rows|
    ensures CheckFindings(Uniqueness, ctx, rows[..i + 1]) ==
      CheckFindings(Uniqueness, ctx, rows[..i]) + IdFinding(ctx.cfg.name, rows[..i], rows[i], i + 2)
    ensures IdsOf(rows[..i + 1]) ==
      IdsOf(rows[..i]) + if StrippedId(rows[i]) != "" then {StrippedId(rows[i])} else {}
    ensures AnyIdNone(rows[..i + 1]) <==> AnyIdNone(rows[..i]) || IdNone(rows[i])
  {
    PrefixStep(rows, i);
  }

  /** The id uniqueness loop: `None` when some id reads as `None`, otherwise
      its findings and `ids_seen`. */
  method CheckIds(ctx: Ctx, rows: Table) returns (r: Option<(seq<Finding>, set<string>)>)
    ensures r.None? <==> AnyIdNone(rows)
    ensures r.Some? ==> r.value == (CheckFindings(Uniqueness, ctx, rows), IdsOf(rows))
  {
    var name := ctx.cfg.name;
    var errs: seq<Finding> := [];
    var idsSeen: set<string> := {};
    var i := 0;
    while i < |rows|
      invariant 0 <= i <= |rows|
      invariant errs == CheckFindings(Uniqueness, ctx, rows[..i])
      invariant idsSeen == IdsOf(rows[..i])
      invariant !AnyIdNone(rows[..i])
    {
      UniquenessStep(ctx, rows, i);
      match GetDefault(rows[i], "id")
      case None =>
        assert AnyIdNone(rows[..i + 1]);
        AnyIdNoneIff(rows[..i + 1]);
        AnyIdNoneIff(rows);
        var k :| 0 <= k < i + 1 && IdNone(rows[..i + 1][k]);
        assert rows[k] == rows[..i + 1][k];
        return None;
      case Some(raw) =>
        var rowId := PyStrip(raw);
        if rowId == "" {
          errs := errs + [BlankId(name, i + 2)];
        } else {
          if rowId in idsSeen {
            errs := errs + [DuplicateId(name, rowId, i + 2)];
          }
          idsSeen := idsSeen + {rowId};
        }
      i := i + 1;
    }
    assert rows[..i] == rows;
    return Some((errs, idsSeen));
  }

  /** The required-field loop: `None` when a required field reads as `None`. */
  method CheckRequired(ctx: Ctx, rows: Table) returns (r: Option<seq<Finding>>)
    ensures r.None? <==> AnyRequiredNone(ctx.cfg, rows)
    ensures r.Some? ==> r.value == CheckFindings(RequiredFields, ctx, rows)
  {
    var errs: seq<Finding> := [];
    var i := 0;
    while i < |rows|
      invariant 0 <= i <= |rows|
      invariant errs == CheckFindings(RequiredFields, ctx, rows[..i])
      invariant !AnyRequiredNone(ctx.cfg, rows[..i])
    {
      PrefixStep(rows, i);
      var rowReq := RequiredForRow(ctx.cfg.name, i + 2, ctx.cfg.required, rows[i]);
      if rowReq.None? {
        assert AnyRequiredNone(ctx.cfg, rows[..i + 1]);
        AnyRequiredNoneIff(ctx.cfg, rows[..i + 1]);
        AnyRequiredNoneIff(ctx.cfg, rows);
        var k :| 0 <= k < i + 1 && RequiredNone(ctx.cfg, rows[..i + 1][k]);
        assert rows[k] == rows[..i + 1][k];
        return None;
      }
      errs := errs + rowReq.value;
      i := i + 1;
    }
    assert rows[..i] == rows;
    return Some(errs);
  }

  /** The article loop (only run for datasets that have articles). */
  method CheckArticles(ctx: Ctx, rows: Table) returns (errs: seq<Finding>)
    ensures errs == CheckFindings(Articles, ctx, rows)
  {
    errs := [];
    var i := 0;
    while i < |rows|
      invariant 0 <= i <= |rows|
      invariant errs == CheckFindings(Articles, ctx, rows[..i])
    {
      PrefixStep(rows, i);
      var rowId := StrippedId(rows[i]);
      if ctx.cfg.hasArticle && rowId != "" {
        var path := ArticlePath(ctx.root, ctx.cfg.name, rowId);
        if path !in ctx.articles {
          errs := errs + [ArticleMissing(ctx.cfg.name, i + 2, path)];
        }
      }
      i := i + 1;
    }
    assert rows[..i] == rows;
  }

  /** The foreign-key loop over all rows. */
  method CheckForeignKeys(ctx: Ctx, rows: Table) returns (errs: seq<Finding>)
    ensures errs == CheckFindings(ForeignKeys, ctx, rows)
  {
    errs := [];
    var i := 0;
    while i < |rows|
      invariant 0 <= i <= |rows|
      invariant errs == CheckFindings(ForeignKeys, ctx, rows[..i])
    {
      PrefixStep(rows, i);
      var rowFk := CheckFkRow(ctx.cfg.name, i + 2, ctx.cfg.fkColumns, ctx.fkIds, rows[i]);
      errs := errs + rowFk;
      i := i + 1;
    }
    assert rows[..i] == rows;
  }

  /** `validate_dataset(name, cfg, fk_ids)`: its four loops in order. */
  method ValidateDataset(ctx: Ctx, table: Option<Table>) returns (r: Result<(set<string>, seq<Finding>), Finding>)
    ensures r == ValidateDatasetSpec(ctx, table)
  {
    if table.None? {
      return Failure(ReadFailed(ctx.cfg.name));
    }
    var rows := table.value;
    var ids := CheckIds(ctx, rows);
    if ids.None? {
      return Failure(Aborted(ctx.cfg.name));
    }
    var req := CheckRequired(ctx, rows);
    if req.None? {
      return Failure(Aborted(ctx.cfg.name));
    }
    var art := CheckArticles(ctx, rows);
    var fk := CheckForeignKeys(ctx, rows);
    var (uniq, idsSeen) := ids.value;
    return Success((idsSeen, uniq + req.value + art + fk));
  }

  // ---------------------------------------------------------------------------
  // main: two passes over the schema table
  // ---------------------------------------------------------------------------

  /** The findings pass 1 records: one per dataset whose CSV cannot be read. */
  function Pass1Findings(datasets: seq<DatasetCfg>, csvs: map<string, Table>): seq<Finding> {
    if |datasets| == 0 then []
    else
      var d := datasets[|datasets| - 1];
      Pass1Findings(datasets[..|datasets| - 1], csvs) + (if d.name in csvs then [] else [ReadFailed(d.name)])
  }

  /** `dataset_ids` after pass 1. */
  function Pass1Map(datasets: seq<DatasetCfg>, csvs: map<string, Table>): map<string, set<string>> {
    if |datasets| == 0 then map[]
    else
      var d := datasets[|datasets| - 1];
      Pass1Map(datasets[..|datasets| - 1], csvs)[d.name := if d.name in csvs then Pass1Ids(csvs[d.name]) else {}]
  }

  function TableOf(csvs: map<string, Table>, name: string): Option<Table> {
    if name in csvs then Some(csvs[name]) else None
  }

  /** What pass 2 appends for one dataset. */
  function DatasetFindings(d: DatasetCfg, csvs: map<string, Table>, ids: map<string, set<string>>,
                           root: string, articles: set<string>): seq<Finding> {
    Outcome(ValidateDatasetSpec(Ctx(d, ids, root, articles), TableOf(csvs, d.name)))
  }

  function Pass2Findings(datasets: seq<DatasetCfg>, csvs: map<string, Table>, ids: map<string, set<string>>,
                         root: string, articles: set<string>): seq<Finding> {
    if |datasets| == 0 then []
    else
      var k := |datasets| - 1;
      Pass2Findings(datasets[..k], csvs, ids, root, articles) + DatasetFindings(datasets[k], csvs, ids, root, articles)
  }

  /** The whole report: pass 1 over every dataset, then pass 2 with the
      complete id map. */
  function Report(datasets: seq<DatasetCfg>, csvs: map<string, Table>, root: string, articles: set<string>): seq<Finding> {
    Pass1Findings(datasets, csvs) + Pass2Findings(datasets, csvs, Pass1Map(datasets, csvs), root, articles)
  }

  /** What `main` appends for one `validate_dataset` call: its findings, or the
      one finding for the exception it raised. */
  function Outcome(r: Result<(set<string>, seq<Finding>), Finding>): seq<Finding> {
    match r
    case Success((_, errs)) => errs
    case Failure(f) => [f]
  }

  /** The first loop of `main`: gather the ids of each dataset, recording one
      finding per CSV that cannot be read. */
  method CollectIds(datasets: seq<DatasetCfg>, csvs: map<string, Table>)
    returns (errors: seq<Finding>, datasetIds: map<string, set<string>>)
    ensures errors == Pass1Findings(datasets, csvs)
    ensures datasetIds == Pass1Map(datasets, csvs)
  {
    errors := [];
    datasetIds := map[];
    var i := 0;
    while i < |datasets|
      invariant 0 <= i <= |datasets|
      invariant errors == Pass1Findings(datasets[..i], csvs)
      invariant datasetIds == Pass1Map(datasets[..i], csvs)
    {
      assert datasets[..i + 1][..i] == datasets[..i];
      var d := datasets[i];
      var rows: Table;
      if d.name in csvs {
        rows := csvs[d.name];
      } else {
        errors := errors + [ReadFailed(d.name)];
        rows := [];
      }
      datasetIds := datasetIds[d.name := Pass1Ids(rows)];
      i := i + 1;
    }
    assert datasets[..i] == datasets;
  }

  /** The second loop of `main`: full validation of each dataset against the
      complete id map. */
  method ValidateEach(datasets: seq<DatasetCfg>, csvs: map<string, Table>, datasetIds: map<string, set<string>>,
                      root: string, articles: set<string>)
    returns (errors: seq<Finding>)
    ensures errors == Pass2Findings(datasets, csvs, datasetIds, root, articles)
  {
    errors := [];
    var i := 0;
    while i < |datasets|
      invariant 0 <= i <= |datasets|
      invariant errors == Pass2Findings(datasets[..i], csvs, datasetIds, root, articles)
    {
      assert datasets[..i + 1][..i] == datasets[..i];
      var d := datasets[i];
      var res := ValidateDataset(Ctx(d, datasetIds, root, articles), TableOf(csvs, d.name));
      errors := errors + Outcome(res);
      i := i + 1;
    }
    assert datasets[..i] == datasets;
  }

  /** `main`: returns the findings and the exit status (1 exactly when there
      is a finding). */
  method ValidateAll(datasets: seq<DatasetCfg>, csvs: map<string, Table>, root: string, articles: set<string>)
    returns (allErrors: seq<Finding>, exitCode: int)
    ensures allErrors == Report(datasets, csvs, root, articles)
    ensures exitCode == (if |allErrors| > 0 then 1 else 0)
  {
    var pass1, datasetIds := CollectIds(datasets, csvs);
    var pass2 := ValidateEach(datasets, csvs, datasetIds, root, articles);
    allErrors := pass1 + pass2;
    exitCode := if |allErrors| > 0 then 1 else 0;
  }
}
