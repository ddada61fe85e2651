/** The workbook extractor (src/scripts/gen_contents_db.py): every worksheet
    of a workbook becomes a CSV file whose first row is the sheet's header row
    and whose records are the data rows with a non-blank id. When the sheet has
    a `thumbnail` column, each record's thumbnail is replaced by the name of an
    image file found through a fallback chain: a picture embedded at the
    record's thumbnail cell, then an image file named by the cell's text, then
    the next image of the workbook's media folder (one iterator shared by all
    sheets), then nothing.

    Libraries and the file system are inputs: a sheet's cell values and its
    embedded pictures (keyed by cell address, given as PNG bytes), the files
    that exist (resolved path to contents), the media images in archive order,
    whether an image library can open some bytes, and the MD5 hex digest. */
module WorkbookExtractor {
  import opened Text
  import opened Wrappers
  import opened Seqs

  type Bytes = seq<bv8>

  /** A worksheet cell value as the sheet reader yields it. */
  datatype Cell = Empty | Text(s: string) | Int(i: int) | Bool(b: bool)

  /** Contents of a file or media entry, and whether the image library can open it. */
  datatype Blob = Blob(bytes: Bytes, decodable: bool)

  datatype Sheet = Sheet(title: string, cells: seq<seq<Cell>>, pictures: Option<map<string, Bytes>>)

  datatype Workbook = Workbook(sheets: seq<Sheet>, media: seq<Blob>)

  /** The surroundings of a run: the workbook's folder, the files that exist
      (by resolved path) and the MD5 hex digest. */
  datatype Env = Env(excelDir: string, files: map<string, Blob>, md5: Bytes -> string)

  /** One record: the value under each header. */
  type Record = map<string, Cell>

  /** A CSV file as written: its folder (the sheet key), its header and its rows. */
  datatype CsvFile = CsvFile(key: string, header: seq<string>, rows: seq<seq<string>>)

  // ---------------------------------------------------------------------------
  // Cell values
  // ---------------------------------------------------------------------------

  /** `str(value)`. */
  function PyStr(c: Cell): string {
    match c
    case Empty => "None"
    case Text(s) => s
    case Int(i) => IntToString(i)
    case Bool(b) => if b then "True" else "False"
  }

  /** Python truthiness of a cell value. */
  predicate Truthy(c: Cell) {
    match c
    case Empty => false
    case Text(s) => s != ""
    case Int(i) => i != 0
    case Bool(b) => b
  }

  /** What the CSV writer puts in a field: nothing for `None`, `str` otherwise. */
  function CsvText(c: Cell): string {
    if c.Empty? then "" else PyStr(c)
  }

  /** A header cell: stringified and stripped, `None` becoming "". */
  function HeaderOf(c: Cell): string {
    if c.Empty? then "" else PyStrip(PyStr(c))
  }

  function Headers(first: seq<Cell>): (hs: seq<string>)
    ensures |hs| == |first|
    ensures forall j :: 0 <= j < |first| ==> hs[j] == HeaderOf(first[j])
  {
    seq(|first|, j requires 0 <= j < |first| => HeaderOf(first[j]))
  }

  /** The first header whose lower-case form is `name`. */
  function FindLower(headers: seq<string>, name: string): (r: Option<nat>)
    ensures r.Some? ==> r.value < |headers| && Lower(headers[r.value]) == name
    ensures r.Some? ==> forall j :: 0 <= j < r.value ==> Lower(headers[j]) != name
    ensures r.None? ==> forall j :: 0 <= j < |headers| ==> Lower(headers[j]) != name
  {
    if |headers| == 0 then None
    else if Lower(headers[0]) == name then Some(0)
    else match FindLower(headers[1..], name)
      case None => None
      case Some(k) => Some(k + 1)
  }

  /** The cell of a row under column `j`; rows shorter than the header read as `None`. */
  function CellAt(row: seq<Cell>, j: nat): Cell {
    if j < |row| then row[j] else Empty
  }

  /** `{h: row[h] for h in headers}` (a repeated header keeps its last column). */
  function RecordOf(headers: seq<string>, row: seq<Cell>): (rec: Record)
    ensures forall h :: h in rec <==> h in headers
  {
    if |headers| == 0 then map[]
    else
      var k := |headers| - 1;
      RecordOf(headers[..k], row)[headers[k] := CellAt(row, k)]
  }

  /** `rec.get(key)`. */
  function Lookup(rec: Record, key: string): Cell {
    if key in rec then rec[key] else Empty
  }

  /** `rec.get("id") or rec.get("ID") or rec.get("Id")`. */
  function RawId(rec: Record): Cell {
    if Truthy(Lookup(rec, "id")) then Lookup(rec, "id")
    else if Truthy(Lookup(rec, "ID")) then Lookup(rec, "ID")
    else Lookup(rec, "Id")
  }

  /** The record's id as the extractor reads it; a record with a blank id is dropped. */
  function RecordId(rec: Record): string {
    var raw := RawId(rec);
    if raw.Empty? then "" else PyStrip(PyStr(raw))
  }

  // ---------------------------------------------------------------------------
  // Column letters and cell addresses
  // ---------------------------------------------------------------------------

  predicate IsUpper(c: char) {
    'A' <= c <= 'Z'
  }

  /** `get_column_letter(n)`: 1 is A, 26 is Z, 27 is AA. */
  function ColumnLetter(n: nat): (s: string)
    requires n >= 1
    ensures |s| >= 1 && forall k :: 0 <= k < |s| ==> IsUpper(s[k])
  {
    var d := ((n - 1) % 26) as int;
    var last := ('A' as int + d) as char;
    if n <= 26 then [last] else ColumnLetter((n - 1) / 26) + [last]
  }

  /** `column_index_from_string(s)`, the inverse of `ColumnLetter`. */
  function ColumnIndex(s: string): int
    requires forall k :: 0 <= k < |s| ==> IsUpper(s[k])
  {
    if |s| == 0 then 0
    else 26 * ColumnIndex(s[..|s| - 1]) + (s[|s| - 1] as int - 'A' as int + 1)
  }

  /** Reading a column letter back gives the column number. */
  lemma {:induction false} ColumnLetterRoundTrip(n: nat)
    requires n >= 1
    ensures ColumnIndex(ColumnLetter(n)) == n
  {
    var s := ColumnLetter(n);
    if n > 26 {
      ColumnLetterRoundTrip((n - 1) / 26);
      assert s[..|s| - 1] == ColumnLetter((n - 1) / 26);
    }
  }

  /** The address of the thumbnail cell of data row `idx` (data start at row 2). */
  function CellAddress(col: nat, idx: nat): string {
    ColumnLetter(col + 1) + NatToString(idx + 2)
  }

  // ---------------------------------------------------------------------------
  // Thumbnail tiers
  // ---------------------------------------------------------------------------

  /** The file name a thumbnail made from `bytes` is stored under. */
  function ThumbName(md5: Bytes -> string, bytes: Bytes): string {
    md5(bytes) + ".jpg"
  }

  /** A cell path relative to the workbook's folder, unless it is absolute.
      (Normalisation of `..` and links is not modelled.) */
  function ResolvePath(dir: string, p: string): string {
    if |p| > 0 && p[0] == '/' then p else dir + "/" + p
  }

  /** What a sheet's rows are processed with. */
  datatype SheetCtx = SheetCtx(headers: seq<string>, thumb: Option<nat>, pictures: Option<map<string, Bytes>>, env: Env)

  predicate ValidCtx(ctx: SheetCtx) {
    ctx.thumb.Some? ==> ctx.thumb.value < |ctx.headers|
  }

  /** Tier 1: a picture embedded at the thumbnail cell of data row `idx`. */
  function EmbeddedThumb(ctx: SheetCtx, col: nat, idx: nat): Option<string> {
    match ctx.pictures
    case None => None
    case Some(pics) =>
      var addr := CellAddress(col, idx);
      if addr in pics then Some(ThumbName(ctx.env.md5, pics[addr])) else None
  }

  /** Tier 2: an existing image file named by the thumbnail cell's text. */
  function PathThumb(env: Env, cell: Cell): Option<string> {
    var pathValue := PyStrip(PyStr(cell));
    if pathValue == "" then None
    else
      var src := ResolvePath(env.excelDir, pathValue);
      if src in env.files && env.files[src].decodable then Some(ThumbName(env.md5, env.files[src].bytes))
      else None
  }

  /** Progress through a sheet's rows: the records kept so far, the media
      iterator's position, and whether a media image failed to open (which
      ends the run). */
  datatype RowState = RowState(records: seq<Record>, pos: nat, aborted: bool)

  /** The thumbnail chain for one kept record: the record with its thumbnail
      cell replaced, or `None` when the media image reached cannot be opened,
      and the media iterator's new position. */
  function ThumbStep(ctx: SheetCtx, media: seq<Blob>, pos: nat, t: nat, idx: nat, rec: Record): (Option<Record>, nat)
    requires t < |ctx.headers|
  {
    var th := ctx.headers[t];
    match EmbeddedThumb(ctx, t, idx)
    case Some(name) => (Some(rec[th := Text(name)]), pos)
    case None =>
      match PathThumb(ctx.env, Lookup(rec, th))
      case Some(name) => (Some(rec[th := Text(name)]), pos)
      case None =>
        if pos < |media| then
          if media[pos].decodable then (Some(rec[th := Text(ThumbName(ctx.env.md5, media[pos].bytes))]), pos + 1)
          else (None, pos + 1)
        else (Some(rec[th := Text("")]), pos)
  }

  /** One iteration of the row loop over data row `idx`. */
  function StepRow(ctx: SheetCtx, media: seq<Blob>, st: RowState, idx: nat, row: seq<Cell>): RowState
    requires ValidCtx(ctx)
  {
    var rec := RecordOf(ctx.headers, row);
    if RecordId(rec) == "" then st
    else match ctx.thumb
      case None => st.(records := st.records + [rec])
      case Some(t) =>
        var (r, p) := ThumbStep(ctx, media, st.pos, t, idx, rec);
        match r
        case None => st.(pos := p, aborted := true)
        case Some(out) => st.(records := st.records + [out], pos := p)
  }

  /** The row loop from data row `i` on; it stops at the first failure. */
  function RunRows(ctx: SheetCtx, media: seq<Blob>, rows: seq<seq<Cell>>, i: nat, st: RowState): RowState
    requires ValidCtx(ctx)
    decreases |rows| - i
  {
    if i >= |rows| || st.aborted then st
    else RunRows(ctx, media, rows, i + 1, StepRow(ctx, media, st, i, rows[i]))
  }

  // ---------------------------------------------------------------------------
  // One worksheet
  // ---------------------------------------------------------------------------

  datatype SheetOutcome = SkippedEmpty | SkippedNoId | SkippedNoRows | Written(csv: CsvFile) | Crashed

  /** The folder and file name a sheet is written under. */
  function SheetKey(title: string): string {
    Lower(PyStrip(title))
  }

  function CsvRow(headers: seq<string>, rec: Record): (r: seq<string>)
    ensures |r| == |headers|
    ensures forall j :: 0 <= j < |headers| ==> r[j] == CsvText(Lookup(rec, headers[j]))
  {
    seq(|headers|, j requires 0 <= j < |headers| => CsvText(Lookup(rec, headers[j])))
  }

  function CsvRows(headers: seq<string>, records: seq<Record>): (rows: seq<seq<string>>)
    ensures |rows| == |records|
    ensures forall k :: 0 <= k < |records| ==> rows[k] == CsvRow(headers, records[k])
  {
    seq(|records|, k requires 0 <= k < |records| => CsvRow(headers, records[k]))
  }

  function SheetCtxOf(sheet: Sheet, env: Env): (ctx: SheetCtx)
    requires |sheet.cells| > 0
    ensures ValidCtx(ctx)
  {
    var headers := Headers(sheet.cells[0]);
    SheetCtx(headers, FindLower(headers, "thumbnail"), sheet.pictures, env)
  }

  /** `process_sheet`: the sheet's outcome and the media iterator's new position. */
  function SheetSpec(sheet: Sheet, env: Env, media: seq<Blob>, pos: nat): (SheetOutcome, nat) {
    if |sheet.cells| == 0 || |sheet.cells[0]| == 0 then (SkippedEmpty, pos)
    else
      var ctx := SheetCtxOf(sheet, env);
      if FindLower(ctx.headers, "id").None? then (SkippedNoId, pos)
      else
        var st := RunRows(ctx, media, sheet.cells[1..], 0, RowState([], pos, false));
        if st.aborted then (Crashed, st.pos)
        else if |st.records| == 0 then (SkippedNoRows, st.pos)
        else (Written(CsvFile(SheetKey(sheet.title), ctx.headers, CsvRows(ctx.headers, st.records))), st.pos)
  }

  /** The workbook's media images, consumed one at a time across all sheets. */
  class MediaCursor {
    var blobs: seq<Blob>
    var pos: nat

    constructor(blobs: seq<Blob>)
      ensures this.blobs == blobs && pos == 0
    {
      this.blobs := blobs;
      pos := 0;
    }

    /** `next(iterator)`: the next image, or `None` once all are used. */
    method Next() returns (b: Option<Blob>)
      modifies this
      ensures blobs == old(blobs)
      ensures old(pos) < |blobs| ==> b == Some(blobs[old(pos)]) && pos == old(pos) + 1
      ensures old(pos) >= |blobs| ==> b.None? && pos == old(pos)
    {
      if pos < |blobs| {
        b := Some(blobs[pos]);
        pos := pos + 1;
      } else {
        b := None;
      }
    }
  }

  /** Tier 1 of the thumbnail chain: the sheet's pictures could be read and one
      is anchored at the record's thumbnail cell. */
  method PictureThumbnail(ctx: SheetCtx, col: nat, idx: nat) returns (name: Option<string>)
    ensures name == EmbeddedThumb(ctx, col, idx)
  {
    name := None;
    if ctx.pictures.Some? {
      var addr := CellAddress(col, idx);
      if addr in ctx.pictures.value {
        name := Some(ThumbName(ctx.env.md5, ctx.pictures.value[addr]));
      }
    }
  }

  /** Tier 2 of the thumbnail chain: the cell's text, stripped, names a file
      (relative to the workbook's folder unless absolute) that exists and opens
      as an image. */
  method FileThumbnail(env: Env, cell: Cell) returns (name: Option<string>)
    ensures name == PathThumb(env, cell)
  {
    name := None;
    var pathValue := PyStrip(PyStr(cell));
    if pathValue != "" {
      var src := ResolvePath(env.excelDir, pathValue);
      if src in env.files && env.files[src].decodable {
        name := Some(ThumbName(env.md5, env.files[src].bytes));
      }
    }
  }

  /** The thumbnail chain of one kept record, with a `saved` flag as the
      extractor keeps it. */
  method ResolveThumbnail(ctx: SheetCtx, t: nat, idx: nat, rec: Record, cursor: MediaCursor)
    returns (r: Option<Record>)
    requires t < |ctx.headers|
    modifies cursor
    ensures cursor.blobs == old(cursor.blobs)
    ensures (r, cursor.pos) == ThumbStep(ctx, cursor.blobs, old(cursor.pos), t, idx, rec)
  {
    var th := ctx.headers[t];
    var out := rec;
    var saved := false;
    // 1) a picture embedded at the cell
    var embedded := PictureThumbnail(ctx, t, idx);
    if embedded.Some? {
      out := out[th := Text(embedded.value)];
      saved := true;
    }
    assert !saved ==> out == rec;
    // 2) an image file named by the cell
    if !saved {
      var name := FileThumbnail(ctx.env, Lookup(out, th));
      if name.Some? {
        out := out[th := Text(name.value)];
        saved := true;
      }
    }
    if !saved {
      r := MediaThumbnail(ctx.env, th, out, cursor);
    } else {
      r := Some(out);
    }
  }

  /** Tiers 3 and 4 of the thumbnail chain: the cell is cleared, then filled
      from the next media image if one is left; an image that cannot be
      opened ends the run. */
  method MediaThumbnail(env: Env, th: string, rec: Record, cursor: MediaCursor) returns (r: Option<Record>)
    modifies cursor
    ensures cursor.blobs == old(cursor.blobs)
    ensures old(cursor.pos) < |cursor.blobs| ==>
      var b := cursor.blobs[old(cursor.pos)];
      && cursor.pos == old(cursor.pos) + 1
      && r == (if b.decodable then Some(rec[th := Text(ThumbName(env.md5, b.bytes))]) else None)
    ensures old(cursor.pos) >= |cursor.blobs| ==> cursor.pos == old(cursor.pos) && r == Some(rec[th := Text("")])
  {
    // 3) nothing extracted so far
    var out := rec[th := Text("")];
    // 4) the next media image
    var blob := cursor.Next();
    if blob.Some? {
      if !blob.value.decodable {
        return None;
      }
      UpdateTwice(rec, th, Text(""), Text(ThumbName(env.md5, blob.value.bytes)));
      out := out[th := Text(ThumbName(env.md5, blob.value.bytes))];
    }
    return Some(out);
  }

  /** One iteration of the row loop: a record with a blank id is dropped,
      any other is kept after its thumbnail is resolved. */
  method ProcessRow(ctx: SheetCtx, idx: nat, row: seq<Cell>, records: seq<Record>, cursor: MediaCursor)
    returns (records': seq<Record>, aborted: bool)
    requires ValidCtx(ctx)
    modifies cursor
    ensures cursor.blobs == old(cursor.blobs)
    ensures RowState(records', cursor.pos, aborted)
         == StepRow(ctx, cursor.blobs, RowState(records, old(cursor.pos), false), idx, row)
  {
    records', aborted := records, false;
    var rec := RecordOf(ctx.headers, row);
    if RecordId(rec) != "" {
      if ctx.thumb.Some? {
        var out := ResolveThumbnail(ctx, ctx.thumb.value, idx, rec, cursor);
        if out.None? {
          return records, true;
        }
        rec := out.value;
      }
      records' := records + [rec];
    }
  }

  lemma RunRowsUnfold(ctx: SheetCtx, media: seq<Blob>, rows: seq<seq<Cell>>, i: nat, st: RowState)
    requires ValidCtx(ctx) && i < |rows| && !st.aborted
    ensures RunRows(ctx, media, rows, i, st) == RunRows(ctx, media, rows, i + 1, StepRow(ctx, media, st, i, rows[i]))
  {
  }

  /** `process_sheet` over the rows: the records kept, in order, and whether a
      media image failed to open. */
  method ProcessRows(ctx: SheetCtx, rows: seq<seq<Cell>>, cursor: MediaCursor)
    returns (records: seq<Record>, aborted: bool)
    requires ValidCtx(ctx)
    modifies cursor
    ensures cursor.blobs == old(cursor.blobs)
    ensures RowState(records, cursor.pos, aborted)
         == RunRows(ctx, cursor.blobs, rows, 0, RowState([], old(cursor.pos), false))
  {
    records := [];
    aborted := false;
    ghost var media := cursor.blobs;
    ghost var goal := RunRows(ctx, media, rows, 0, RowState([], cursor.pos, false));
    var i := 0;
    while i < |rows|
      invariant 0 <= i <= |rows|
      invariant cursor.blobs == media
      invariant RunRows(ctx, media, rows, i, RowState(records, cursor.pos, false)) == goal
    {
      RunRowsUnfold(ctx, media, rows, i, RowState(records, cursor.pos, false));
      records, aborted := ProcessRow(ctx, i, rows[i], records, cursor);
      if aborted {
        return;
      }
      i := i + 1;
    }
  }

  /** `process_sheet`. */
  method ProcessSheet(sheet: Sheet, env: Env, cursor: MediaCursor) returns (out: SheetOutcome)
    modifies cursor
    ensures cursor.blobs == old(cursor.blobs)
    ensures (out, cursor.pos) == SheetSpec(sheet, env, cursor.blobs, old(cursor.pos))
  {
    if |sheet.cells| == 0 || |sheet.cells[0]| == 0 {
      return SkippedEmpty;
    }
    var ctx := SheetCtxOf(sheet, env);
    if FindLower(ctx.headers, "id").None? {
      return SkippedNoId;
    }
    var records, aborted := ProcessRows(ctx, sheet.cells[1..], cursor);
    if aborted {
      return Crashed;
    }
    if |records| == 0 {
      return SkippedNoRows;
    }
    out := Written(CsvFile(SheetKey(sheet.title), ctx.headers, CsvRows(ctx.headers, records)));
  }

  // ---------------------------------------------------------------------------
  // The whole workbook
  // ---------------------------------------------------------------------------

  /** Files written so far, in sheet order, and whether the run has stopped. */
  datatype RunState = RunState(written: seq<CsvFile>, pos: nat, aborted: bool)

  /** One sheet of the loop: its file is added when written, a crash ends
      the run, and the media iterator moves on in every case. */
  function SheetStep(sheet: Sheet, env: Env, media: seq<Blob>, st: RunState): RunState {
    var (outcome, p) := SheetSpec(sheet, env, media, st.pos);
    match outcome
    case Written(csv) => st.(written := st.written + [csv], pos := p)
    case Crashed => st.(pos := p, aborted := true)
    case _ => st.(pos := p)
  }

  /** The sheet loop from sheet `i` on, sharing one media iterator. */
  function RunSheets(sheets: seq<Sheet>, env: Env, media: seq<Blob>, i: nat, st: RunState): RunState
    decreases |sheets| - i
  {
    if i >= |sheets| || st.aborted then st
    else RunSheets(sheets, env, media, i + 1, SheetStep(sheets[i], env, media, st))
  }

  datatype RunResult = WorkbookMissing | Finished(written: seq<CsvFile>) | Stopped(written: seq<CsvFile>)

  /** `main`: no workbook stops before anything is written; otherwise the
      CSV files of the sheets processed, and whether a media image ended the run. */
  function RunSpec(wb: Option<Workbook>, env: Env): RunResult {
    match wb
    case None => WorkbookMissing
    case Some(w) =>
      var st := RunSheets(w.sheets, env, w.media, 0, RunState([], 0, false));
      if st.aborted then Stopped(st.written) else Finished(st.written)
  }

  /** `main`. */
  method ExtractWorkbook(wb: Option<Workbook>, env: Env) returns (r: RunResult)
    ensures r == RunSpec(wb, env)
  {
    if wb.None? {
      return WorkbookMissing;
    }
    var w := wb.value;
    var cursor := new MediaCursor(w.media);
    var written: seq<CsvFile> := [];
    var i := 0;
    while i < |w.sheets|
      invariant 0 <= i <= |w.sheets|
      invariant cursor.blobs == w.media
      invariant RunSheets(w.sheets, env, w.media, i, RunState(written, cursor.pos, false))
             == RunSheets(w.sheets, env, w.media, 0, RunState([], 0, false))
    {
      var outcome := ProcessSheet(w.sheets[i], env, cursor);
      if outcome.Crashed? {
        return Stopped(written);
      }
      if outcome.Written? {
        written := written + [outcome.csv];
      }
      i := i + 1;
    }
    return Finished(written);
  }
}
