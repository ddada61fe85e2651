/** What the content validator's report says about the rows: which findings a
    row produces, that none is reported twice, how many foreign-key findings a
    cell yields, and how the two passes fit together. */
module ContentValidatorProps {
  import opened Text
  import opened Wrappers
  import opened ContentValidator

  // ---------------------------------------------------------------------------
  // Findings of one check
  // ---------------------------------------------------------------------------

  /** The row-by-row fold holds a finding exactly when some row `i` produces
      it, given the rows before it, under row number `i + 2`. */
  lemma {:induction false} PerRowMember(rows: Table, g: (Table, Row, nat) -> seq<Finding>, f: Finding)
    ensures f in PerRow(rows, g) <==> exists i :: 0 <= i < |rows| && f in g(rows[..i], rows[i], i + 2)
  {
    if |rows| > 0 {
      var k := |rows| - 1;
      var p := rows[..k];
      PerRowMember(p, g, f);
      if exists i :: 0 <= i < |p| && f in g(p[..i], p[i], i + 2) {
        var i :| 0 <= i < |p| && f in g(p[..i], p[i], i + 2);
        assert p[..i] == rows[..i] && p[i] == rows[i];
      }
      if exists i :: 0 <= i < k && f in g(rows[..i], rows[i], i + 2) {
        var i :| 0 <= i < k && f in g(rows[..i], rows[i], i + 2);
        assert p[..i] == rows[..i] && p[i] == rows[i];
      }
    }
  }

  /** A check reports a finding exactly when some row `i` produces it, given
      the rows before it, under row number `i + 2`. */
  lemma CheckFindingsMember(check: Check, ctx: Ctx, rows: Table, f: Finding)
    ensures f in CheckFindings(check, ctx, rows) <==>
      exists i :: 0 <= i < |rows| && f in RowFindings(check, ctx, rows[..i], rows[i], i + 2)
  {
    PerRowMember(rows, (before: Table, row: Row, n: nat) => RowFindings(check, ctx, before, row, n), f);
  }

  lemma {:induction false} RequiredRowShape(name: string, n: nat, fields: seq<string>, row: Row)
    ensures forall f :: f in RequiredRow(name, n, fields, row) ==>
      f.RequiredBlank? && f.dataset == name && f.row == n && f.field in fields
  {
    if |fields| > 0 {
      RequiredRowShape(name, n, fields[..|fields| - 1], row);
    }
  }

  lemma {:induction false} FkCellShape(name: string, n: nat, col: string, ref: string, ids: seq<string>, known: set<string>)
    ensures forall f :: f in FkCell(name, n, col, ref, ids, known) ==>
      f.DanglingReference? && f.dataset == name && f.row == n && f.column == col && f.refDataset == ref
  {
    if |ids| > 0 {
      FkCellShape(name, n, col, ref, ids[..|ids| - 1], known);
    }
  }

  lemma {:induction false} FlatMapMember<T>(xs: seq<T>, g: T -> seq<Finding>, f: Finding)
    ensures f in FlatMap(xs, g) <==> exists k :: 0 <= k < |xs| && f in g(xs[k])
  {
    if |xs| > 0 {
      var p := xs[..|xs| - 1];
      FlatMapMember(p, g, f);
      if exists k :: 0 <= k < |p| && f in g(p[k]) {
        var k :| 0 <= k < |p| && f in g(p[k]);
        assert xs[k] == p[k];
      }
      if exists k :: 0 <= k < |xs| - 1 && f in g(xs[k]) {
        var k :| 0 <= k < |xs| - 1 && f in g(xs[k]);
        assert xs[k] == p[k];
      }
    }
  }

  lemma FkRowShape(name: string, n: nat, fks: seq<(string, string)>, fkIds: map<string, set<string>>, row: Row)
    ensures forall f :: f in FkRow(name, n, fks, fkIds, row) ==>
      f.DanglingReference? && f.dataset == name && f.row == n
  {
    forall f | f in FkRow(name, n, fks, fkIds, row)
      ensures f.DanglingReference? && f.dataset == name && f.row == n
    {
      FlatMapMember(fks, (fk: (string, string)) => FkCellFindings(name, n, row, fk.0, fk.1, fkIds), f);
      var k :| 0 <= k < |fks| && f in FkCellFindings(name, n, row, fks[k].0, fks[k].1, fkIds);
      var (c, r) := fks[k];
      if !FkCellBlank(row, c) {
        FkCellShape(name, n, c, r, ParseIdList(Get(row, c)), RefIds(fkIds, r));
      }
    }
  }

  /** Every finding a row produces names the dataset and carries the row's number. */
  lemma RowFindingsAt(check: Check, ctx: Ctx, before: Table, row: Row, n: nat)
    ensures forall f :: f in RowFindings(check, ctx, before, row, n) ==> RowOf(f) == n && f.dataset == ctx.cfg.name
  {
    match check
    case Uniqueness =>
    case RequiredFields => RequiredRowShape(ctx.cfg.name, n, ctx.cfg.required, row);
    case Articles =>
    case ForeignKeys => FkRowShape(ctx.cfg.name, n, ctx.cfg.fkColumns, ctx.fkIds, row);
  }

  /** Row numbers of a check's findings run from 2 (the header is row 1). */
  lemma CheckFindingsRows(check: Check, ctx: Ctx, rows: Table)
    ensures forall f :: f in CheckFindings(check, ctx, rows) ==> 2 <= RowOf(f) < |rows| + 2
  {
    forall f | f in CheckFindings(check, ctx, rows) ensures 2 <= RowOf(f) < |rows| + 2 {
      CheckFindingsMember(check, ctx, rows, f);
      var i :| 0 <= i < |rows| && f in RowFindings(check, ctx, rows[..i], rows[i], i + 2);
      RowFindingsAt(check, ctx, rows[..i], rows[i], i + 2);
    }
  }

  /** A finding is reported for row `n` exactly when row `n - 2` produces it. */
  lemma ReportedAtRow(check: Check, ctx: Ctx, rows: Table, f: Finding)
    ensures f in CheckFindings(check, ctx, rows) <==>
      2 <= RowOf(f) < |rows| + 2
      && f in RowFindings(check, ctx, rows[..RowOf(f) - 2], rows[RowOf(f) - 2], RowOf(f))
  {
    CheckFindingsMember(check, ctx, rows, f);
    if f in CheckFindings(check, ctx, rows) {
      var i :| 0 <= i < |rows| && f in RowFindings(check, ctx, rows[..i], rows[i], i + 2);
      RowFindingsAt(check, ctx, rows[..i], rows[i], i + 2);
    }
  }

  /** `validate_dataset` raises exactly when some row has an id or a required
      field that reads as `None`. */
  lemma CrashesIff(cfg: DatasetCfg, rows: Table)
    ensures Crashes(cfg, rows) <==> exists i :: 0 <= i < |rows| && (IdNone(rows[i]) || RequiredNone(cfg, rows[i]))
  {
    AnyIdNoneIff(rows);
    AnyRequiredNoneIff(cfg, rows);
  }

  // ---------------------------------------------------------------------------
  // Blank and duplicate ids
  // ---------------------------------------------------------------------------

  /** A row is reported as having a blank id exactly when its stripped id is empty. */
  lemma BlankIdReported(ctx: Ctx, rows: Table, n: nat)
    ensures BlankId(ctx.cfg.name, n) in CheckFindings(Uniqueness, ctx, rows) <==>
      2 <= n < |rows| + 2 && StrippedId(rows[n - 2]) == ""
  {
    var f := BlankId(ctx.cfg.name, n);
    ReportedAtRow(Uniqueness, ctx, rows, f);
    if 2 <= n < |rows| + 2 {
      var fs := RowFindings(Uniqueness, ctx, rows[..n - 2], rows[n - 2], n);
      assert fs == IdFinding(ctx.cfg.name, rows[..n - 2], rows[n - 2], n);
      assert f in fs <==> StrippedId(rows[n - 2]) == "";
    }
  }

  /** A row is reported as a duplicate of `v` exactly when its stripped id is
      the non-blank `v` and `v` is among the ids seen before it (`IdsBefore`:
      the stripped id of an earlier row); the first occurrence of an id is
      therefore never reported. */
  lemma DuplicateIdReported(ctx: Ctx, rows: Table, v: string, n: nat)
    ensures DuplicateId(ctx.cfg.name, v, n) in CheckFindings(Uniqueness, ctx, rows) <==>
      2 <= n < |rows| + 2 && v != "" && StrippedId(rows[n - 2]) == v && v in IdsOf(rows[..n - 2])
  {
    ReportedAtRow(Uniqueness, ctx, rows, DuplicateId(ctx.cfg.name, v, n));
  }

  /** The ids seen before row `m` are the non-blank stripped ids of the rows before it. */
  lemma IdsBefore(rows: Table, m: nat, v: string)
    requires m <= |rows|
    ensures v in IdsOf(rows[..m]) <==> v != "" && exists j :: 0 <= j < m && StrippedId(rows[j]) == v
  {
    var before := rows[..m];
    IdsOfIsNonBlankIds(before, v);
    if exists j :: 0 <= j < m && StrippedId(rows[j]) == v {
      var j :| 0 <= j < m && StrippedId(rows[j]) == v;
      assert before[j] == rows[j];
    }
  }

  lemma {:induction false} ConcatNoDuplicates<T>(a: seq<T>, b: seq<T>)
    requires NoDuplicates(a) && NoDuplicates(b)
    requires forall x :: x in a ==> x !in b
    ensures NoDuplicates(a + b)
  {
    forall i, j | 0 <= i < j < |a + b| ensures (a + b)[i] != (a + b)[j] {
      if i < |a| && j >= |a| {
        assert (a + b)[i] in a;
        assert (a + b)[j] == b[j - |a|];
      }
    }
  }

  lemma {:induction false} RequiredRowNoDuplicates(name: string, n: nat, fields: seq<string>, row: Row)
    requires NoDuplicates(fields)
    ensures NoDuplicates(RequiredRow(name, n, fields, row))
  {
    if |fields| > 0 {
      var p := fields[..|fields| - 1];
      var f := fields[|fields| - 1];
      RequiredRowNoDuplicates(name, n, p, row);
      RequiredRowShape(name, n, p, row);
      assert f !in p;
      ConcatNoDuplicates(RequiredRow(name, n, p, row), if FieldBlank(row, f) then [RequiredBlank(name, n, f)] else []);
    }
  }

  /** The id, required-field and article checks never report the same finding
      twice (for the required-field check, when no field is listed twice). */
  lemma {:induction false} CheckFindingsNoDuplicates(check: Check, ctx: Ctx, rows: Table)
    requires check != ForeignKeys
    requires check == RequiredFields ==> NoDuplicates(ctx.cfg.required)
    ensures NoDuplicates(CheckFindings(check, ctx, rows))
  {
    if |rows| > 0 {
      var k := |rows| - 1;
      var a := CheckFindings(check, ctx, rows[..k]);
      var b := RowFindings(check, ctx, rows[..k], rows[k], k + 2);
      CheckFindingsNoDuplicates(check, ctx, rows[..k]);
      CheckFindingsRows(check, ctx, rows[..k]);
      RowFindingsAt(check, ctx, rows[..k], rows[k], k + 2);
      if check == RequiredFields {
        RequiredRowNoDuplicates(ctx.cfg.name, k + 2, ctx.cfg.required, rows[k]);
      }
      ConcatNoDuplicates(a, b);
    }
  }

  // ---------------------------------------------------------------------------
  // Required fields and articles
  // ---------------------------------------------------------------------------

  lemma {:induction false} RequiredRowMember(name: string, n: nat, fields: seq<string>, row: Row, f: string)
    ensures RequiredBlank(name, n, f) in RequiredRow(name, n, fields, row) <==> f in fields && FieldBlank(row, f)
  {
    if |fields| > 0 {
      var p := fields[..|fields| - 1];
      RequiredRowMember(name, n, p, row, f);
      assert fields == p + [fields[|fields| - 1]];
    }
  }

  /** A row is reported for a required field exactly when that field is
      listed as required and its stripped value is empty (or the column is absent). */
  lemma RequiredBlankReported(ctx: Ctx, rows: Table, n: nat, f: string)
    ensures RequiredBlank(ctx.cfg.name, n, f) in CheckFindings(RequiredFields, ctx, rows) <==>
      2 <= n < |rows| + 2 && f in ctx.cfg.required && FieldBlank(rows[n - 2], f)
  {
    ReportedAtRow(RequiredFields, ctx, rows, RequiredBlank(ctx.cfg.name, n, f));
    if 2 <= n < |rows| + 2 {
      RequiredRowMember(ctx.cfg.name, n, ctx.cfg.required, rows[n - 2], f);
    }
  }

  /** A missing article is reported exactly for rows of a dataset with
      articles whose id is non-blank and whose article path is not present. */
  lemma ArticleMissingReported(ctx: Ctx, rows: Table, n: nat, p: string)
    ensures ArticleMissing(ctx.cfg.name, n, p) in CheckFindings(Articles, ctx, rows) <==>
      2 <= n < |rows| + 2 && ctx.cfg.hasArticle && StrippedId(rows[n - 2]) != ""
      && p == ArticlePath(ctx.root, ctx.cfg.name, StrippedId(rows[n - 2])) && p !in ctx.articles
  {
    var f := ArticleMissing(ctx.cfg.name, n, p);
    ReportedAtRow(Articles, ctx, rows, f);
    if 2 <= n < |rows| + 2 {
      var fs := RowFindings(Articles, ctx, rows[..n - 2], rows[n - 2], n);
      assert fs == ArticleRow(ctx, rows[n - 2], n);
    }
  }

  /** A row whose id is blank gets both the blank-id finding and the
      required-field finding for `id`, and no article finding. */
  lemma BlankIdRowFindings(ctx: Ctx, rows: Table, i: nat)
    requires i < |rows| && "id" in ctx.cfg.required
    requires !IdNone(rows[i]) && StrippedId(rows[i]) == ""
    ensures BlankId(ctx.cfg.name, i + 2) in CheckFindings(Uniqueness, ctx, rows)
    ensures RequiredBlank(ctx.cfg.name, i + 2, "id") in CheckFindings(RequiredFields, ctx, rows)
    ensures forall f :: f in CheckFindings(Articles, ctx, rows) ==> RowOf(f) != i + 2
  {
    BlankIdReported(ctx, rows, i + 2);
    RequiredBlankReported(ctx, rows, i + 2, "id");
    forall f | f in CheckFindings(Articles, ctx, rows) ensures RowOf(f) != i + 2 {
      ReportedAtRow(Articles, ctx, rows, f);
    }
  }

  // ---------------------------------------------------------------------------
  // Foreign keys
  // ---------------------------------------------------------------------------

  /** A listed value yields as many findings as it occurs in the list when the
      referenced dataset lacks it, and none otherwise. */
  lemma {:induction false} FkCellCount(name: string, n: nat, col: string, ref: string, ids: seq<string>,
                                       known: set<string>, v: string)
    ensures multiset(FkCell(name, n, col, ref, ids, known))[DanglingReference(name, n, v, col, ref)]
      == if v in known then 0 else multiset(ids)[v]
  {
    if |ids| > 0 {
      var p := ids[..|ids| - 1];
      FkCellCount(name, n, col, ref, p, known, v);
      assert ids == p + [ids[|ids| - 1]];
    }
  }

  lemma FkCellFindingsMember(name: string, n: nat, row: Row, c: string, r: string, fkIds: map<string, set<string>>,
                             v: string, col: string, ref: string)
    ensures DanglingReference(name, n, v, col, ref) in FkCellFindings(name, n, row, c, r, fkIds) <==>
      c == col && r == ref && !FkCellBlank(row, col)
      && v in ParseIdList(Get(row, col)) && v !in RefIds(fkIds, ref)
  {
    var f := DanglingReference(name, n, v, col, ref);
    if !FkCellBlank(row, c) {
      var ids := ParseIdList(Get(row, c));
      var cell := FkCell(name, n, c, r, ids, RefIds(fkIds, r));
      FkCellShape(name, n, c, r, ids, RefIds(fkIds, r));
      if c == col && r == ref {
        FkCellCount(name, n, c, r, ids, RefIds(fkIds, r), v);
        assert f in cell <==> multiset(cell)[f] > 0;
      }
    }
  }

  lemma FkRowMember(name: string, n: nat, fks: seq<(string, string)>, fkIds: map<string, set<string>>,
                     row: Row, v: string, col: string, ref: string)
    ensures DanglingReference(name, n, v, col, ref) in FkRow(name, n, fks, fkIds, row) <==>
      (col, ref) in fks && !FkCellBlank(row, col)
      && v in ParseIdList(Get(row, col)) && v !in RefIds(fkIds, ref)
  {
    var f := DanglingReference(name, n, v, col, ref);
    FlatMapMember(fks, (fk: (string, string)) => FkCellFindings(name, n, row, fk.0, fk.1, fkIds), f);
    if f in FkRow(name, n, fks, fkIds, row) {
      var k :| 0 <= k < |fks| && f in FkCellFindings(name, n, row, fks[k].0, fks[k].1, fkIds);
      FkCellFindingsMember(name, n, row, fks[k].0, fks[k].1, fkIds, v, col, ref);
    }
    if (col, ref) in fks {
      var k :| 0 <= k < |fks| && fks[k] == (col, ref);
      FkCellFindingsMember(name, n, row, col, ref, fkIds, v, col, ref);
    }
  }

  /** A dangling reference is reported for a row exactly when the value is
      listed in a non-blank declared foreign-key cell of that row and the
      referenced dataset's pass-1 ids lack it. */
  lemma DanglingReferenceReported(ctx: Ctx, rows: Table, n: nat, v: string, col: string, ref: string)
    ensures DanglingReference(ctx.cfg.name, n, v, col, ref) in CheckFindings(ForeignKeys, ctx, rows) <==>
      2 <= n < |rows| + 2 && (col, ref) in ctx.cfg.fkColumns && !FkCellBlank(rows[n - 2], col)
      && v in ParseIdList(Get(rows[n - 2], col)) && v !in RefIds(ctx.fkIds, ref)
  {
    ReportedAtRow(ForeignKeys, ctx, rows, DanglingReference(ctx.cfg.name, n, v, col, ref));
    if 2 <= n < |rows| + 2 {
      FkRowMember(ctx.cfg.name, n, ctx.cfg.fkColumns, ctx.fkIds, rows[n - 2], v, col, ref);
    }
  }

  // ---------------------------------------------------------------------------
  // The two passes
  // ---------------------------------------------------------------------------

  /** How many entries of the schema table carry the name `x`. */
  function NameCount(datasets: seq<DatasetCfg>, x: string): nat {
    if |datasets| == 0 then 0
    else NameCount(datasets[..|datasets| - 1], x) + (if datasets[|datasets| - 1].name == x then 1 else 0)
  }

  predicate DistinctNames(datasets: seq<DatasetCfg>) {
    forall i, j :: 0 <= i < j < |datasets| ==> datasets[i].name != datasets[j].name
  }

  lemma DatasetsDistinct()
    ensures DistinctNames(Datasets)
    ensures forall k :: 0 <= k < |Datasets| ==> "id" in Datasets[k].required && NoDuplicates(Datasets[k].required)
  {
    DatasetNamesDistinct();
    forall k | 0 <= k < |Datasets|
      ensures "id" in Datasets[k].required && NoDuplicates(Datasets[k].required)
    {
      RequiredFieldsDistinct(k);
    }
  }

  lemma DatasetNamesDistinct()
    ensures DistinctNames(Datasets)
  {
    var names := ["tags", "member", "company", "theme", "lecture", "news", "publication"];
    assert forall k :: 0 <= k < |Datasets| ==> Datasets[k].name == names[k];
    assert NoDuplicates(names);
  }

  lemma RequiredFieldsDistinct(k: nat)
    requires k < |Datasets|
    ensures "id" in Datasets[k].required && NoDuplicates(Datasets[k].required)
  {
    var req := Datasets[k].required;
    assert req[0] == "id";
  }

  lemma {:induction false} NameCountDistinct(datasets: seq<DatasetCfg>, k: nat)
    requires DistinctNames(datasets) && k < |datasets|
    ensures NameCount(datasets, datasets[k].name) == 1
  {
    var x := datasets[k].name;
    var last := |datasets| - 1;
    var p := datasets[..last];
    if k < last {
      assert p[k] == datasets[k];
      NameCountDistinct(p, k);
    } else {
      NameCountAbsent(p, x);
    }
  }

  lemma {:induction false} NameCountAbsent(datasets: seq<DatasetCfg>, x: string)
    requires forall i :: 0 <= i < |datasets| ==> datasets[i].name != x
    ensures NameCount(datasets, x) == 0
  {
    if |datasets| > 0 {
      NameCountAbsent(datasets[..|datasets| - 1], x);
    }
  }

  /** Pass 1 records one read failure per schema entry whose CSV is missing. */
  lemma {:induction false} Pass1ReadFailures(datasets: seq<DatasetCfg>, csvs: map<string, Table>, x: string)
    ensures multiset(Pass1Findings(datasets, csvs))[ReadFailed(x)] == if x in csvs then 0 else NameCount(datasets, x)
    ensures forall f :: f in Pass1Findings(datasets, csvs) ==> f.ReadFailed? && f.dataset !in csvs
  {
    if |datasets| > 0 {
      Pass1ReadFailures(datasets[..|datasets| - 1], csvs, x);
    }
  }

  /** Row-level checks never produce a dataset-level finding. */
  lemma NoReadFailureInCheck(check: Check, ctx: Ctx, rows: Table, x: string)
    ensures ReadFailed(x) !in CheckFindings(check, ctx, rows)
  {
    CheckFindingsRows(check, ctx, rows);
  }

  /** What pass 2 appends for one dataset holds the read failure of its name
      once when its CSV is missing, and no read failure otherwise. */
  lemma DatasetReadFailures(d: DatasetCfg, csvs: map<string, Table>, ids: map<string, set<string>>,
                            root: string, articles: set<string>, x: string)
    ensures multiset(DatasetFindings(d, csvs, ids, root, articles))[ReadFailed(x)]
      == if d.name == x && x !in csvs then 1 else 0
  {
    var out := DatasetFindings(d, csvs, ids, root, articles);
    if d.name !in csvs {
      assert out == [ReadFailed(d.name)];
    } else if Crashes(d, csvs[d.name]) {
      assert out == [Aborted(d.name)];
    } else {
      var ctx := Ctx(d, ids, root, articles);
      var rows := csvs[d.name];
      NoReadFailureInCheck(Uniqueness, ctx, rows, x);
      NoReadFailureInCheck(RequiredFields, ctx, rows, x);
      NoReadFailureInCheck(Articles, ctx, rows, x);
      NoReadFailureInCheck(ForeignKeys, ctx, rows, x);
      assert out == CheckFindings(Uniqueness, ctx, rows) + CheckFindings(RequiredFields, ctx, rows)
        + CheckFindings(Articles, ctx, rows) + CheckFindings(ForeignKeys, ctx, rows);
      assert ReadFailed(x) !in out;
    }
  }

  lemma {:induction false} Pass2ReadFailures(datasets: seq<DatasetCfg>, csvs: map<string, Table>, ids: map<string, set<string>>,
                                             root: string, articles: set<string>, x: string)
    ensures multiset(Pass2Findings(datasets, csvs, ids, root, articles))[ReadFailed(x)]
      == if x in csvs then 0 else NameCount(datasets, x)
  {
    if |datasets| > 0 {
      var k := |datasets| - 1;
      Pass2ReadFailures(datasets[..k], csvs, ids, root, articles, x);
      DatasetReadFailures(datasets[k], csvs, ids, root, articles, x);
    }
  }

  /** A dataset of the schema table whose CSV is missing is reported exactly
      twice: once by each pass. */
  lemma MissingCsvReportedTwice(csvs: map<string, Table>, root: string, articles: set<string>, k: nat)
    requires k < |Datasets| && Datasets[k].name !in csvs
    ensures multiset(Report(Datasets, csvs, root, articles))[ReadFailed(Datasets[k].name)] == 2
  {
    var x := Datasets[k].name;
    DatasetsDistinct();
    NameCountDistinct(Datasets, k);
    Pass1ReadFailures(Datasets, csvs, x);
    Pass2ReadFailures(Datasets, csvs, Pass1Map(Datasets, csvs), root, articles, x);
  }

  /** After pass 1 the id map holds every dataset of a table with distinct
      names: its pass-1 ids, or the empty set when its CSV is missing. */
  lemma {:induction false} Pass1MapLookup(datasets: seq<DatasetCfg>, csvs: map<string, Table>, k: nat)
    requires DistinctNames(datasets) && k < |datasets|
    ensures datasets[k].name in Pass1Map(datasets, csvs)
    ensures Pass1Map(datasets, csvs)[datasets[k].name]
      == if datasets[k].name in csvs then Pass1Ids(csvs[datasets[k].name]) else {}
  {
    var last := |datasets| - 1;
    if k < last {
      var p := datasets[..last];
      assert p[k] == datasets[k];
      Pass1MapLookup(p, csvs, k);
    }
  }

  /** Foreign keys are resolved against every dataset's ids, whatever its
      place in the schema table: a listed (non-blank) value resolves exactly
      when a row of the referenced dataset has it as its stripped id. */
  lemma ForeignKeysSeeAllIds(csvs: map<string, Table>, k: nat, v: string)
    requires k < |Datasets| && v != ""
    ensures v in RefIds(Pass1Map(Datasets, csvs), Datasets[k].name) <==>
      Datasets[k].name in csvs
      && exists i :: 0 <= i < |csvs[Datasets[k].name]| && StrippedId(csvs[Datasets[k].name][i]) == v
  {
    DatasetsDistinct();
    Pass1MapLookup(Datasets, csvs, k);
    var x := Datasets[k].name;
    if x in csvs {
      Pass1IdsAgree(csvs[x]);
      IdsOfIsNonBlankIds(csvs[x], v);
    }
  }
}
