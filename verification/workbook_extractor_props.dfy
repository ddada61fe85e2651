/** Properties of the workbook extractor: which rows become records and in
    what order, what a thumbnail cell can end up holding, how far the shared
    media iterator moves, and when a sheet produces no CSV file. */
module WorkbookExtractorProps {
  import opened Text
  import opened Wrappers
  import opened WorkbookExtractor
  import opened Seqs

  function Min(a: int, b: int): int {
    if a <= b then a else b
  }

  // ---------------------------------------------------------------------------
  // Reference definitions
  // ---------------------------------------------------------------------------

  /** Every byte string a thumbnail can be made from: the sheet's pictures,
      the image files that exist, and the media images that open. */
  function SourceBytes(ctx: SheetCtx, media: seq<Blob>): set<Bytes> {
    (if ctx.pictures.Some? then ctx.pictures.value.Values else {})
    + (set p | p in ctx.env.files && ctx.env.files[p].decodable :: ctx.env.files[p].bytes)
    + (set k | 0 <= k < |media| && media[k].decodable :: media[k].bytes)
  }

  /** The names a thumbnail cell may be given: the digest of a source plus `.jpg`. */
  function ThumbNames(ctx: SheetCtx, media: seq<Blob>): set<string> {
    set b | b in SourceBytes(ctx, media) :: ThumbName(ctx.env.md5, b)
  }

  predicate ThumbCellOk(ctx: SheetCtx, media: seq<Blob>, c: Cell) {
    c.Text? && (c.s == "" || c.s in ThumbNames(ctx, media))
  }

  /** A written record holds exactly the sheet's headers, and its thumbnail
      cell (if the sheet has one) is blank or a thumbnail name. */
  ghost predicate RecordShape(ctx: SheetCtx, media: seq<Blob>, r: Record)
    requires ValidCtx(ctx)
  {
    (forall h :: h in r <==> h in ctx.headers)
    && (ctx.thumb.Some? ==>
          var th := ctx.headers[ctx.thumb.value];
          th in r && ThumbCellOk(ctx, media, r[th]))
  }

  /** A record without its thumbnail cell. */
  function Base(ctx: SheetCtx, r: Record): Record
    requires ValidCtx(ctx)
  {
    if ctx.thumb.Some? then r - {ctx.headers[ctx.thumb.value]} else r
  }

  function Bases(ctx: SheetCtx, rs: seq<Record>): (bs: seq<Record>)
    requires ValidCtx(ctx)
    ensures |bs| == |rs|
  {
    if |rs| == 0 then [] else [Base(ctx, rs[0])] + Bases(ctx, rs[1..])
  }

  /** The rows from `i` on whose id is not blank, in order, as records without
      their thumbnail cell. */
  function KeptBases(ctx: SheetCtx, rows: seq<seq<Cell>>, i: nat): seq<Record>
    requires ValidCtx(ctx)
    decreases |rows| - i
  {
    if i >= |rows| then []
    else
      var rec := RecordOf(ctx.headers, rows[i]);
      (if RecordId(rec) != "" then [Base(ctx, rec)] else []) + KeptBases(ctx, rows, i + 1)
  }

  /** A kept record reaches the media tier: no picture at its cell and no
      openable file named by it. */
  predicate NeedsMedia(ctx: SheetCtx, idx: nat, row: seq<Cell>)
    requires ValidCtx(ctx)
  {
    var rec := RecordOf(ctx.headers, row);
    RecordId(rec) != "" && ctx.thumb.Some?
    && EmbeddedThumb(ctx, ctx.thumb.value, idx).None?
    && PathThumb(ctx.env, Lookup(rec, ctx.headers[ctx.thumb.value])).None?
  }

  function NeedCount(ctx: SheetCtx, rows: seq<seq<Cell>>, i: nat): nat
    requires ValidCtx(ctx)
    decreases |rows| - i
  {
    if i >= |rows| then 0
    else (if NeedsMedia(ctx, i, rows[i]) then 1 else 0) + NeedCount(ctx, rows, i + 1)
  }

  // ---------------------------------------------------------------------------
  // One record
  // ---------------------------------------------------------------------------

  /** The thumbnail chain moves the media iterator at most one step, and only
      when the first two tiers found nothing; it stops the run only when that
      image does not open; otherwise the record keeps every other cell and its
      thumbnail is a name made from a source, or blank once the media are used up. */
  lemma ThumbStepFacts(ctx: SheetCtx, media: seq<Blob>, pos: nat, t: nat, idx: nat, rec: Record)
    requires t < |ctx.headers| && pos <= |media|
    ensures var (r, p) := ThumbStep(ctx, media, pos, t, idx, rec);
      var reached := EmbeddedThumb(ctx, t, idx).None? && PathThumb(ctx.env, Lookup(rec, ctx.headers[t])).None?;
      && p <= |media|
      && (p == pos + 1 <==> reached && pos < |media|)
      && (p != pos + 1 ==> p == pos)
      && (r.None? <==> reached && pos < |media| && !media[pos].decodable)
      && (r.Some? ==> var c := r.value[ctx.headers[t]];
                        r.value == rec[ctx.headers[t] := c] && ThumbCellOk(ctx, media, c)
                        && (c == Text("") <==> reached && pos == |media|))
  {
    var th := ctx.headers[t];
    var (r, p) := ThumbStep(ctx, media, pos, t, idx, rec);
    var md5 := ctx.env.md5;
    match EmbeddedThumb(ctx, t, idx)
    case Some(name) =>
      var pics := ctx.pictures.value;
      var addr := CellAddress(t, idx);
      assert pics[addr] in SourceBytes(ctx, media);
      assert name in ThumbNames(ctx, media);
      assert name != "";
    case None =>
      match PathThumb(ctx.env, Lookup(rec, th))
      case Some(name) =>
        var src := ResolvePath(ctx.env.excelDir, PyStrip(PyStr(Lookup(rec, th))));
        assert ctx.env.files[src].bytes in SourceBytes(ctx, media);
        assert name in ThumbNames(ctx, media);
        assert name != "";
      case None =>
        if pos < |media| && media[pos].decodable {
          assert media[pos].bytes in SourceBytes(ctx, media);
          assert ThumbName(md5, media[pos].bytes) in ThumbNames(ctx, media);
          assert ThumbName(md5, media[pos].bytes) != "";
        }
  }

  /** The thumbnail header is never one of the three id headers. */
  lemma ThumbHeaderIsNotId(ctx: SheetCtx)
    requires ValidCtx(ctx) && ctx.thumb.Some?
    requires Lower(ctx.headers[ctx.thumb.value]) == "thumbnail"
    ensures var th := ctx.headers[ctx.thumb.value]; th != "id" && th != "ID" && th != "Id"
  {
    assert Lower("id") == "id";
    assert Lower("ID") == "id";
    assert Lower("Id") == "id";
  }

  /** Replacing the thumbnail cell changes neither the record's id nor the rest of it. */
  lemma ReplaceThumbKeepsBase(ctx: SheetCtx, rec: Record, c: Cell)
    requires ValidCtx(ctx) && ctx.thumb.Some?
    ensures Base(ctx, rec[ctx.headers[ctx.thumb.value] := c]) == Base(ctx, rec)
  {
    var th := ctx.headers[ctx.thumb.value];
    assert rec[th := c] - {th} == rec - {th};
  }

  lemma ReplaceThumbKeepsShape(ctx: SheetCtx, media: seq<Blob>, rec: Record, c: Cell)
    requires ValidCtx(ctx) && ctx.thumb.Some?
    requires forall h :: h in rec <==> h in ctx.headers
    requires ThumbCellOk(ctx, media, c)
    ensures RecordShape(ctx, media, rec[ctx.headers[ctx.thumb.value] := c])
  {
  }

  /** One row: a blank id leaves everything as it was; a kept row appends one
      record of the right shape whose other cells are the row's; a stop
      appends nothing. */
  lemma StepRowFacts(ctx: SheetCtx, media: seq<Blob>, st: RowState, idx: nat, row: seq<Cell>)
    requires ValidCtx(ctx) && st.pos <= |media| && !st.aborted
    ensures var st' := StepRow(ctx, media, st, idx, row);
      var rec := RecordOf(ctx.headers, row);
      && st'.pos <= |media|
      && (RecordId(rec) == "" ==> st' == st)
      && (st'.pos == st.pos + 1 <==> NeedsMedia(ctx, idx, row) && st.pos < |media|)
      && (st'.pos != st.pos + 1 ==> st'.pos == st.pos)
      && (st'.aborted ==> st'.records == st.records && RecordId(rec) != "")
      && (RecordId(rec) != "" && !st'.aborted ==>
            |st'.records| == |st.records| + 1 && st'.records[..|st.records|] == st.records
            && Base(ctx, st'.records[|st.records|]) == Base(ctx, rec)
            && RecordShape(ctx, media, st'.records[|st.records|]))
  {
    var rec := RecordOf(ctx.headers, row);
    if RecordId(rec) != "" && ctx.thumb.Some? {
      var t := ctx.thumb.value;
      ThumbStepFacts(ctx, media, st.pos, t, idx, rec);
      var (r, p) := ThumbStep(ctx, media, st.pos, t, idx, rec);
      if r.Some? {
        var c := r.value[ctx.headers[t]];
        ReplaceThumbKeepsBase(ctx, rec, c);
        ReplaceThumbKeepsShape(ctx, media, rec, c);
      }
    }
  }

  // ---------------------------------------------------------------------------
  // The row loop
  // ---------------------------------------------------------------------------

  /** The media iterator moves once for every kept row that reaches the media
      tier, until the images run out; a stop happens on one of those steps. */
  lemma {:induction false} RunRowsCursor(ctx: SheetCtx, media: seq<Blob>, rows: seq<seq<Cell>>, i: nat, st: RowState)
    requires ValidCtx(ctx) && st.pos <= |media| && !st.aborted
    decreases |rows| - i
    ensures var st' := RunRows(ctx, media, rows, i, st);
      && st.pos <= st'.pos <= |media|
      && st'.pos - st.pos <= NeedCount(ctx, rows, i)
      && (!st'.aborted ==> st'.pos == Min(|media|, st.pos + NeedCount(ctx, rows, i)))
  {
    if i < |rows| {
      var next := StepRow(ctx, media, st, i, rows[i]);
      RunRowsUnfold(ctx, media, rows, i, st);
      StepRowFacts(ctx, media, st, i, rows[i]);
      var need := NeedCount(ctx, rows, i);
      assert need == (if NeedsMedia(ctx, i, rows[i]) then 1 else 0) + NeedCount(ctx, rows, i + 1);
      if !next.aborted {
        RunRowsCursor(ctx, media, rows, i + 1, next);
      }
    }
  }

  /** Records already kept stay, and every record the loop adds is complete
      and has an acceptable thumbnail. */
  lemma {:induction false} RunRowsShape(ctx: SheetCtx, media: seq<Blob>, rows: seq<seq<Cell>>, i: nat, st: RowState)
    requires ValidCtx(ctx) && st.pos <= |media| && !st.aborted
    decreases |rows| - i
    ensures var st' := RunRows(ctx, media, rows, i, st);
      && |st.records| <= |st'.records|
      && st'.records[..|st.records|] == st.records
      && (forall k :: |st.records| <= k < |st'.records| ==> RecordShape(ctx, media, st'.records[k]))
  {
    if i < |rows| {
      var next := StepRow(ctx, media, st, i, rows[i]);
      RunRowsUnfold(ctx, media, rows, i, st);
      StepRowFacts(ctx, media, st, i, rows[i]);
      if !next.aborted {
        RunRowsShape(ctx, media, rows, i + 1, next);
        var fin := RunRows(ctx, media, rows, i + 1, next);
        var n := |st.records|;
        if |next.records| == n + 1 {
          assert fin.records[..n] == fin.records[..n + 1][..n];
          forall k | n <= k < |fin.records|
            ensures RecordShape(ctx, media, fin.records[k])
          {
            if k == n {
              assert fin.records[n] == next.records[n];
            }
          }
        }
      }
    }
  }

  /** Unless a media image stops it, the loop keeps exactly the rows with a
      non-blank id, in order; a stop happens only at a kept row, and rows with
      no kept record leave the state as it was. */
  lemma {:induction false} RunRowsKept(ctx: SheetCtx, media: seq<Blob>, rows: seq<seq<Cell>>, i: nat, st: RowState)
    requires ValidCtx(ctx) && st.pos <= |media| && !st.aborted
    decreases |rows| - i
    ensures var st' := RunRows(ctx, media, rows, i, st);
      && |st.records| <= |st'.records|
      && (!st'.aborted ==> Bases(ctx, st'.records[|st.records|..]) == KeptBases(ctx, rows, i))
      && (st'.aborted ==> KeptBases(ctx, rows, i) != [])
      && (KeptBases(ctx, rows, i) == [] ==> st' == st)
  {
    if i < |rows| {
      var next := StepRow(ctx, media, st, i, rows[i]);
      RunRowsUnfold(ctx, media, rows, i, st);
      StepRowFacts(ctx, media, st, i, rows[i]);
      var rec := RecordOf(ctx.headers, rows[i]);
      assert KeptBases(ctx, rows, i)
          == (if RecordId(rec) != "" then [Base(ctx, rec)] else []) + KeptBases(ctx, rows, i + 1);
      if !next.aborted {
        RunRowsKept(ctx, media, rows, i + 1, next);
        RunRowsShape(ctx, media, rows, i + 1, next);
        var fin := RunRows(ctx, media, rows, i + 1, next);
        var n := |st.records|;
        if |next.records| == n + 1 && !fin.aborted {
          SuffixCons(fin.records, n);
          assert fin.records[n] == next.records[n] by {
            assert fin.records[..n + 1] == next.records;
          }
        }
      }
    }
  }

  // ---------------------------------------------------------------------------
  // One worksheet
  // ---------------------------------------------------------------------------

  /** When a sheet yields a CSV file and when it does not: no cells, no `id`
      header in any letter case, or no row with a non-blank id each mean no
      file; a written file has the sheet's headers and one row per kept record. */
  lemma SheetOutcomes(sheet: Sheet, env: Env, media: seq<Blob>, pos: nat)
    requires pos <= |media|
    ensures var (o, p) := SheetSpec(sheet, env, media, pos);
      && pos <= p <= |media|
      && (o == SkippedEmpty <==> |sheet.cells| == 0 || |sheet.cells[0]| == 0)
      && (o == SkippedNoId <==> |sheet.cells| > 0 && |sheet.cells[0]| > 0
                                && FindLower(Headers(sheet.cells[0]), "id").None?)
      && (o.Written? ==> o.csv.key == SheetKey(sheet.title) && o.csv.header == Headers(sheet.cells[0])
                         && |o.csv.rows| == |KeptBases(SheetCtxOf(sheet, env), sheet.cells[1..], 0)| > 0)
      && (o.SkippedNoRows? ==> KeptBases(SheetCtxOf(sheet, env), sheet.cells[1..], 0) == [])
      && (o.Crashed? ==> KeptBases(SheetCtxOf(sheet, env), sheet.cells[1..], 0) != [])
      && (|sheet.cells| > 0 && KeptBases(SheetCtxOf(sheet, env), sheet.cells[1..], 0) == [] ==> !o.Written? && p == pos)
  {
    if |sheet.cells| > 0 && |sheet.cells[0]| > 0 {
      var ctx := SheetCtxOf(sheet, env);
      if FindLower(ctx.headers, "id").Some? {
        var st0 := RowState([], pos, false);
        RunRowsCursor(ctx, media, sheet.cells[1..], 0, st0);
        RunRowsKept(ctx, media, sheet.cells[1..], 0, st0);
        var st := RunRows(ctx, media, sheet.cells[1..], 0, st0);
        assert st.records[0..] == st.records;
      }
    }
  }

  /** With none of `id`, `ID` and `Id` among the headers every record's id is
      blank, so no row is kept. */
  lemma {:induction false} NoExactIdHeaderKeepsNothing(ctx: SheetCtx, rows: seq<seq<Cell>>, i: nat)
    requires ValidCtx(ctx)
    requires "id" !in ctx.headers && "ID" !in ctx.headers && "Id" !in ctx.headers
    decreases |rows| - i
    ensures KeptBases(ctx, rows, i) == []
  {
    if i < |rows| {
      var rec := RecordOf(ctx.headers, rows[i]);
      assert RawId(rec) == Empty;
      NoExactIdHeaderKeepsNothing(ctx, rows, i + 1);
    }
  }

  /** The header names of a first row holding the texts `iD` and `name`. */
  lemma MixedCaseHeaders(first: seq<Cell>)
    requires first == [Text("iD"), Text("name")]
    ensures Headers(first) == ["iD", "name"]
  {
    PyStripSolid("iD");
    PyStripSolid("name");
    var hs := Headers(first);
    assert hs[0] == HeaderOf(Text("iD")) == "iD";
    assert hs[1] == HeaderOf(Text("name")) == "name";
    PairOf(hs, "iD", "name");
  }

  /** A header spelled `iD` passes the sheet's id-column check, which ignores
      case, but no record id is read from it, so the sheet writes no file. */
  lemma MixedCaseIdHeaderWritesNothing(sheet: Sheet, env: Env, media: seq<Blob>, pos: nat)
    requires pos <= |media|
    requires |sheet.cells| > 0 && sheet.cells[0] == [Text("iD"), Text("name")]
    ensures FindLower(Headers(sheet.cells[0]), "id").Some?
    ensures SheetSpec(sheet, env, media, pos) == (SkippedNoRows, pos)
  {
    var hs := Headers(sheet.cells[0]);
    MixedCaseHeaders(sheet.cells[0]);
    assert Lower(hs[0]) == "id";
    var ctx := SheetCtxOf(sheet, env);
    assert ctx.headers == hs;
    assert KeptBases(ctx, sheet.cells[1..], 0) == [] by {
      NoExactIdHeaderKeepsNothing(ctx, sheet.cells[1..], 0);
    }
    var (o, p) := SheetSpec(sheet, env, media, pos);
    assert o == SkippedNoRows && p == pos by {
      SheetOutcomes(sheet, env, media, pos);
    }
  }

  /** A numeric id 0 under `id` is falsy, so with no `ID` or `Id` column the
      record is dropped. */
  lemma ZeroIdDropped(rec: Record)
    requires Lookup(rec, "id") == Int(0) && "ID" !in rec && "Id" !in rec
    ensures RecordId(rec) == ""
  {
  }

  /** Under `Id`, the last header tried, a 0 is kept as the id "0". */
  lemma ZeroUnderLastIdHeaderKept(rec: Record)
    requires "id" !in rec && "ID" !in rec && Lookup(rec, "Id") == Int(0)
    ensures RecordId(rec) == "0"
  {
    assert PyStr(Int(0)) == "0";
    assert PyStrip("0") == "0" by {
      assert LeadLen("0", IsPySpace) == 0;
      assert TrailLen("0", IsPySpace) == 0;
    }
  }

  // ---------------------------------------------------------------------------
  // The workbook
  // ---------------------------------------------------------------------------

  /** One sheet adds at most one file after those already written, and moves
      the media iterator forward only. */
  lemma SheetStepFacts(sheet: Sheet, env: Env, media: seq<Blob>, st: RunState)
    requires st.pos <= |media|
    ensures var next := SheetStep(sheet, env, media, st);
      && st.pos <= next.pos <= |media|
      && |st.written| <= |next.written| <= |st.written| + 1
      && next.written[..|st.written|] == st.written
  {
    SheetOutcomes(sheet, env, media, st.pos);
  }

  /** Sheets are processed in order: files already written stay, each sheet
      adds at most one, and the shared media iterator only moves forward. */
  lemma {:induction false} RunSheetsFacts(sheets: seq<Sheet>, env: Env, media: seq<Blob>, i: nat, st: RunState)
    requires i <= |sheets| && st.pos <= |media|
    decreases |sheets| - i
    ensures var st' := RunSheets(sheets, env, media, i, st);
      && st.pos <= st'.pos <= |media|
      && |st.written| <= |st'.written| <= |st.written| + (|sheets| - i)
      && st'.written[..|st.written|] == st.written
  {
    if i < |sheets| && !st.aborted {
      var next := SheetStep(sheets[i], env, media, st);
      SheetStepFacts(sheets[i], env, media, st);
      RunSheetsFacts(sheets, env, media, i + 1, next);
      var fin := RunSheets(sheets, env, media, i + 1, next);
      assert fin.written[..|st.written|] == fin.written[..|next.written|][..|st.written|];
    }
  }
}
