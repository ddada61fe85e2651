/** The build-time data module of the site (src/app/data.tsx): a small
    regex-based CSV reader and the value coercions applied to its cells. The
    runtime (server or browser, and the browser's `__NEXT_DATA__`) and the
    `NEXT_PUBLIC_BASE_PREFIX` environment variable are parameters. */
module SiteData {
  import opened Wrappers
  import opened Text
  import opened JsValues
  import opened CsvLine
  import opened CsvRecord
  import opened DataLoader
  import opened Seqs

  // ---------------------------------------------------------------------------
  // simpleCsvParse
  // ---------------------------------------------------------------------------

  /** `line.split(/,(?=(?:[^"]*"[^"]*")*[^"]*$)/)`: a comma splits exactly when
      an even number of quote characters follows it up to the end of the line. */
  function QuoteSplit(s: string): (parts: seq<string>)
    ensures |parts| >= 1
    decreases |s|
  {
    if |s| == 0 then [""]
    else
      var rest := QuoteSplit(s[1..]);
      if s[0] == ',' && Count(s[1..], '"') % 2 == 0 then [""] + rest
      else [[s[0]] + rest[0]] + rest[1..]
  }

  /** `c.replace(/^"|"$/g, "")`: at most one quote goes from each end. */
  function StripQuotes(c: string): (r: string)
    ensures |c| - 2 <= |r| <= |c|
  {
    var a := if |c| > 0 && c[0] == '"' then c[1..] else c;
    if |a| > 0 && a[|a| - 1] == '"' then a[..|a| - 1] else a
  }

  /** The cleaned cells (or header names) of one line. */
  function Cells(line: string): (cells: seq<string>)
    ensures |cells| == |QuoteSplit(line)|
  {
    var parts := QuoteSplit(line);
    seq(|parts|, k requires 0 <= k < |parts| => JsTrim(StripQuotes(parts[k])))
  }

  /** The lines `simpleCsvParse` reads: `csv.trim().split(/\r?\n/)`. */
  function SimpleLines(csv: string): (lines: seq<string>)
    ensures |lines| >= 1
  {
    SplitLines(JsTrim(csv))
  }

  /** What `simpleCsvParse` returns for its lines. */
  function SimpleRowsOf(lines: seq<string>): (rows: seq<Row>)
    requires |lines| >= 1
    ensures |rows| == |lines| - 1
  {
    var headers := Cells(lines[0]);
    seq(|lines| - 1, k requires 0 <= k < |lines| - 1 => RowObject(headers, Cells(lines[k + 1])))
  }

  function SimpleRows(csv: string): seq<Row> {
    SimpleRowsOf(SimpleLines(csv))
  }

  /** `simpleCsvParse(csv)`. */
  method SimpleCsvParse(csv: string) returns (rows: seq<Row>)
    ensures rows == SimpleRows(csv)
  {
    var lines := SplitLines(JsTrim(csv));
    var headers := Cells(lines[0]);
    ghost var all := SimpleRowsOf(lines);
    rows := [];
    for k := 1 to |lines|
      invariant rows == all[..k - 1]
    {
      var obj := BuildRow(headers, Cells(lines[k]));
      SimpleRowIs(lines, k - 1);
      PrefixSnoc(all, k - 1);
      rows := rows + [obj];
    }
    PrefixWhole(all);
  }

  /** One row per line after the first; empty or header-only text gives none. */
  lemma SimpleRowCount(csv: string)
    ensures |SimpleRows(csv)| == |SimpleLines(csv)| - 1
    ensures |SimpleRows(csv)| == Count(JsTrim(csv), '\n')
    ensures '\n' !in JsTrim(csv) ==> SimpleRows(csv) == []
  {
    SplitJoin(JsTrim(csv), '\n');
  }

  lemma SimpleRowIs(lines: seq<string>, k: nat)
    requires |lines| >= 1 && k < |lines| - 1
    ensures SimpleRowsOf(lines)[k] == RowObject(Cells(lines[0]), Cells(lines[k + 1]))
  {
  }

  /** Every row is keyed by the header names, and a header of a single column
      holds the cell of that column, or "" when the line is shorter. */
  lemma SimpleRowShape(csv: string, k: nat, j: nat)
    requires k < |SimpleRows(csv)|
    requires j < |Cells(SimpleLines(csv)[0])|
    ensures var headers, row := Cells(SimpleLines(csv)[0]), SimpleRows(csv)[k];
      && row.Keys == set h | h in headers
      && headers[j] in row
      && (headers[j] !in headers[j + 1..] ==> row[headers[j]] == ValueAt(Cells(SimpleLines(csv)[k + 1]), j))
  {
    var lines := SimpleLines(csv);
    SimpleRowIs(lines, k);
    var headers := Cells(lines[0]);
    assert headers[j] in headers;
    if headers[j] !in headers[j + 1..] {
      RowObjectLookup(headers, Cells(lines[k + 1]), j);
    }
  }

  /** Without quotes a line splits at every comma. */
  lemma {:induction false} QuoteSplitUnquoted(s: string)
    requires '"' !in s
    ensures QuoteSplit(s) == Split(s, ',')
    decreases |s|
  {
    if |s| > 0 {
      assert s == [s[0]] + s[1..];
      QuoteSplitUnquoted(s[1..]);
      CountNone(s[1..]);
    }
  }

  lemma {:induction false} CountNone(s: string)
    requires '"' !in s
    ensures Count(s, '"') == 0
    decreases |s|
  {
    if |s| > 0 {
      assert s == [s[0]] + s[1..];
      CountNone(s[1..]);
    }
  }

  /** Commas of `a` that an odd number of quotes follows (within `a`, plus the
      `tail` quotes after it) do not split. */
  predicate Protected(a: string, tail: nat) {
    forall i :: 0 <= i < |a| && a[i] == ',' ==> (Count(a[i + 1..], '"') + tail) % 2 == 1
  }

  lemma QuoteSplitStep(s: string)
    requires |s| > 0
    ensures var rest := QuoteSplit(s[1..]);
      QuoteSplit(s) == if s[0] == ',' && Count(s[1..], '"') % 2 == 0 then [""] + rest
                       else [[s[0]] + rest[0]] + rest[1..]
  {
  }

  lemma ProtectedTail(a: string, tail: nat)
    requires |a| > 0 && Protected(a, tail)
    ensures Protected(a[1..], tail)
  {
    forall i | 0 <= i < |a[1..]| && a[1..][i] == ','
      ensures (Count(a[1..][i + 1..], '"') + tail) % 2 == 1
    {
      assert a[1..][i + 1..] == a[i + 2..];
      assert a[i + 1] == ',';
    }
  }

  lemma {:induction false} QuoteSplitProtected(a: string, b: string)
    requires Protected(a, Count(b, '"'))
    ensures var q := QuoteSplit(b);
      QuoteSplit(a + b) == [a + q[0]] + q[1..]
    decreases |a|
  {
    var q := QuoteSplit(b);
    if |a| == 0 {
      assert a + b == b;
      assert a + q[0] == q[0];
      assert [q[0]] + q[1..] == q;
    } else {
      var s := a + b;
      assert s[0] == a[0] && s[1..] == a[1..] + b;
      var rest := QuoteSplit(s[1..]);
      assert rest == [a[1..] + q[0]] + q[1..] by {
        ProtectedTail(a, Count(b, '"'));
        QuoteSplitProtected(a[1..], b);
      }
      assert !(s[0] == ',' && Count(s[1..], '"') % 2 == 0) by {
        if a[0] == ',' {
          assert (Count(a[1..], '"') + Count(b, '"')) % 2 == 1;
          CountAppend(a[1..], b, '"');
        }
      }
      QuoteSplitStep(s);
      assert [a[0]] + (a[1..] + q[0]) == a + q[0];
    }
  }

  /** A field written between quotes. */
  function Wrap(f: string): string {
    "\"" + f + "\""
  }

  function Wraps(fields: seq<string>): (r: seq<string>)
    ensures |r| == |fields|
  {
    seq(|fields|, k requires 0 <= k < |fields| => Wrap(fields[k]))
  }

  lemma WrapProtected(f: string, tail: nat)
    requires '"' !in f && tail % 2 == 0
    ensures Protected(Wrap(f), tail)
  {
    var w := Wrap(f);
    forall i | 0 <= i < |w| && w[i] == ',' ensures (Count(w[i + 1..], '"') + tail) % 2 == 1 {
      assert 1 <= i <= |f|;
      var after := f[i..];
      assert w[i + 1..] == after + "\"";
      assert '"' !in after by {
        forall m | 0 <= m < |after| ensures after[m] != '"' {
          assert after[m] == f[i + m];
        }
      }
      CountNone(after);
      CountAppend(after, "\"", '"');
    }
  }

  lemma {:induction false} WrapsQuoteCount(fields: seq<string>)
    requires |fields| >= 1
    requires forall k :: 0 <= k < |fields| ==> '"' !in fields[k]
    ensures Count(Join(Wraps(fields), ','), '"') == 2 * |fields|
    decreases |fields|
  {
    var w := Wrap(fields[0]);
    CountNone(fields[0]);
    CountAppend("\"" + fields[0], "\"", '"');
    CountAppend("\"", fields[0], '"');
    if |fields| > 1 {
      assert Wraps(fields)[1..] == Wraps(fields[1..]);
      WrapsQuoteCount(fields[1..]);
      var rest := Join(Wraps(fields[1..]), ',');
      assert Join(Wraps(fields), ',') == w + ([','] + rest);
      CountAppend(w, [','] + rest, '"');
    }
  }

  lemma StripWrap(f: string)
    ensures StripQuotes(Wrap(f)) == f
  {
    var w := Wrap(f);
    assert w[1..] == f + "\"";
    assert (f + "\"")[..|f|] == f;
  }

  /** Quoted fields without inner quotes are split back apart, even when they
      hold commas. */
  lemma {:induction false} QuoteSplitWraps(fields: seq<string>)
    requires |fields| >= 1
    requires forall k :: 0 <= k < |fields| ==> '"' !in fields[k]
    ensures QuoteSplit(Join(Wraps(fields), ',')) == Wraps(fields)
    decreases |fields|
  {
    var w := Wrap(fields[0]);
    if |fields| == 1 {
      WrapProtected(fields[0], 0);
      QuoteSplitProtected(w, "");
      assert w + "" == w;
      assert [w] == Wraps(fields);
    } else {
      var rest := Join(Wraps(fields[1..]), ',');
      assert Wraps(fields)[1..] == Wraps(fields[1..]);
      WrapsQuoteCount(fields[1..]);
      var b := [','] + rest;
      assert b[1..] == rest;
      assert Count(b, '"') == Count(rest, '"');
      WrapProtected(fields[0], Count(b, '"'));
      assert Join(Wraps(fields), ',') == w + b;
      QuoteSplitProtected(w, b);
      QuoteSplitWraps(fields[1..]);
      assert QuoteSplit(b) == [""] + Wraps(fields[1..]);
      assert w + "" == w;
      assert [w] + Wraps(fields[1..]) == Wraps(fields);
    }
  }

  /** Reading back quoted fields gives each field trimmed: the quotes are
      removed and commas inside them stay data. */
  lemma QuotedCellsRoundTrip(fields: seq<string>)
    requires |fields| >= 1
    requires forall k :: 0 <= k < |fields| ==> '"' !in fields[k]
    ensures Cells(Join(Wraps(fields), ',')) == TrimAll(fields)
  {
    QuoteSplitWraps(fields);
    var ws := Wraps(fields);
    var c := Cells(Join(ws, ','));
    forall k | 0 <= k < |fields| ensures c[k] == TrimAll(fields)[k] {
      assert c[k] == JsTrim(StripQuotes(ws[k]));
      StripWrap(fields[k]);
      TrimAllIndex(fields, k);
    }
  }

  /** A doubled quote is not read as one quote: both stay in the cell. */
  lemma DoubledQuoteKept()
    ensures StripQuotes("\"a\"\"b\"") == "a\"\"b"
  {
  }

  // ---------------------------------------------------------------------------
  // Value coercions
  // ---------------------------------------------------------------------------

  /** `toBool(v)`: `String(v).toLowerCase() === "true"`. Mapping only ASCII
      letters is exact here: no other character lower-cases to one of "true". */
  function ToBool(v: JsValue): bool {
    Lower(ToStr(v)) == "true"
  }

  lemma NumNotTrue(n: Num)
    ensures Lower(NumToString(n)) != "true"
  {
    var t := NumToString(n);
    assert t[0] == '-' || IsDigit(t[0]) || t[0] == 'I' || t[0] == 'N';
    assert Lower(t)[0] == LowerChar(t[0]);
  }

  lemma LowerWords()
    ensures Lower("true") == "true"
    ensures Lower("false") != "true" && Lower("null") != "true" && Lower("undefined") != "true"
  {
    assert Lower("true")[0] == 't' && Lower("true")[1] == 'r' && Lower("true")[2] == 'u' && Lower("true")[3] == 'e';
    assert |Lower("false")| == 5 && |Lower("undefined")| == 9;
    assert Lower("null")[0] == 'n';
  }

  /** Only `true` itself and strings spelling "true" in any case are true;
      surrounding white space makes a string false. */
  lemma ToBoolIff(v: JsValue)
    ensures ToBool(v) <==> v == Bool(true) || (v.Str? && Lower(v.s) == "true")
  {
    LowerWords();
    if v.Number? {
      NumNotTrue(v.n);
    }
  }

  /** The separators of `/[,\s]+/`. */
  predicate IsListSep(c: char) {
    c == ',' || IsJsSpace(c)
  }

  /** `String(...).split(/[,\s]+/)`: a run of separators is one split point,
      so only the first and the last piece can be empty. */
  function RunPieces(s: string): (r: seq<string>)
    ensures |r| >= 1
  {
    var p := Split(CommaFor(s, IsListSep), ',');
    if |p| == 1 then p else [p[0]] + NonEmpty(p[1..|p| - 1]) + [p[|p| - 1]]
  }

  /** `v ?? ""` followed by `String(...)`. */
  function ListText(v: JsValue): string {
    if v.Undefined? || v.Null? then "" else ToStr(v)
  }

  /** `parseNumList(v)`: empty pieces read as 0, NaN pieces are dropped. */
  function ParseNumList(v: JsValue): (r: seq<Num>)
    ensures forall k :: 0 <= k < |r| ==> r[k] != NaN
  {
    DropNaN(Numbers(RunPieces(ListText(v))))
  }

  /** An absent or empty cell gives `[0]`. */
  lemma NumListOfEmpty()
    ensures ParseNumList(Undefined) == [Finite(0)]
    ensures ParseNumList(Str("")) == [Finite(0)]
  {
    assert CommaFor("", IsListSep) == "";
    assert RunPieces("") == [""];
    assert StringToNumber("") == Finite(0);
  }

  /** A trailing comma adds a 0. */
  lemma NumListTrailingComma()
    ensures ParseNumList(Str("1,")) == [Finite(1), Finite(0)]
  {
    var n := CommaFor("1,", IsListSep);
    assert !IsListSep('1') && IsListSep(',');
    assert n[0] == '1' && n[1] == ',';
    assert n == "1,";
    assert "1" + [','] + "" == "1,";
    SplitAfterPiece("1", ',', "");
    assert Split("1,", ',') == ["1", ""];
    assert RunPieces("1,") == ["1", ""];
    assert IsSignedDecimal("1") && DigitsValue("1") == 1;
    TrimKeepsSolidEnds("1");
    assert StringToNumber("") == Finite(0);
    assert Numbers(["1", ""]) == [Finite(1), Finite(0)];
    assert ListText(Str("1,")) == "1,";
    assert DropNaN([Finite(1), Finite(0)]) == [Finite(1), Finite(0)];
  }

  /** A cell of one space gives two zeros. */
  lemma NumListOfSpace()
    ensures ParseNumList(Str(" ")) == [Finite(0), Finite(0)]
  {
    var n := CommaFor(" ", IsListSep);
    assert IsListSep(' ');
    assert n[0] == ',';
    assert n == ",";
    assert ","[1..] == "";
    assert Split(",", ',') == ["", ""];
    assert RunPieces(" ") == ["", ""];
    assert StringToNumber("") == Finite(0);
    assert Numbers(["", ""]) == [Finite(0), Finite(0)];
  }

  /** Digit strings joined by commas hold no other separator. */
  lemma DigitsJoinKept(parts: seq<string>)
    requires forall k :: 0 <= k < |parts| ==> AllDigits(parts[k])
    ensures CommaFor(Join(parts, ','), IsListSep) == Join(parts, ',')
  {
    forall k, i | 0 <= k < |parts| && 0 <= i < |parts[k]| ensures !IsListSep(parts[k][i]) {
      assert IsDigit(parts[k][i]);
    }
    CommaForJoin(parts, IsListSep);
  }

  /** Text whose only separators are single commas between non-empty pieces
      falls into exactly those pieces. */
  lemma RunPiecesSolid(s: string, parts: seq<string>)
    requires CommaFor(s, IsListSep) == s && Split(s, ',') == parts
    requires forall k :: 0 <= k < |parts| ==> parts[k] != ""
    ensures RunPieces(s) == parts
  {
    if |parts| > 1 {
      var mid := parts[1..|parts| - 1];
      NonEmptyAll(mid);
      assert [parts[0]] + mid + [parts[|parts| - 1]] == parts;
    }
  }

  lemma RunPiecesOfJoin(parts: seq<string>)
    requires |parts| > 0
    requires forall k :: 0 <= k < |parts| ==> AllDigits(parts[k]) && parts[k] != ""
    ensures RunPieces(Join(parts, ',')) == parts
  {
    forall k | 0 <= k < |parts| ensures ',' !in parts[k] {
      assert AllDigits(parts[k]);
    }
    DigitsJoinKept(parts);
    SplitOfJoin(parts, ',');
    RunPiecesSolid(Join(parts, ','), parts);
  }

  /** Natural numbers written comma-separated are read back. */
  lemma NumListRoundTrip(ns: seq<nat>)
    requires |ns| > 0
    ensures ParseNumList(Str(Join(NatStrings(ns), ','))) == Finites(ns)
  {
    var parts := NatStrings(ns);
    forall k | 0 <= k < |parts| ensures AllDigits(parts[k]) && parts[k] != "" {
      assert parts[k] == NatToString(ns[k]);
    }
    RunPiecesOfJoin(parts);
    var nums := Numbers(parts);
    forall k | 0 <= k < |ns| ensures nums[k] == Finite(ns[k]) {
      NumberOfIntToString(ns[k]);
    }
    assert nums == Finites(ns);
    DropNaNNone(nums);
  }

  // ---------------------------------------------------------------------------
  // imgPath and the news date
  // ---------------------------------------------------------------------------

  /** `__NEXT_DATA__`'s `assetPrefix` and `basePath`. */
  datatype NextData = NextData(assetPrefix: Option<string>, basePath: Option<string>)

  /** Where the code runs: on the server, or in a browser that may expose
      `__NEXT_DATA__`. */
  datatype Runtime = Server | Browser(nextData: Option<NextData>)

  /** `.replace(/\/$/, "")`: one trailing slash goes. */
  function DropTrailingSlash(s: string): (r: string)
    ensures r == s || s == r + "/"
  {
    if |s| > 0 && s[|s| - 1] == '/' then s[..|s| - 1] else s
  }

  /** The base `imgPath` puts in front: the configured prefix on the server;
      in the browser `assetPrefix ?? basePath ?? BASE_PREFIX` without its
      trailing slash. */
  function ImageBase(rt: Runtime, basePrefix: Option<string>): string {
    var configured := basePrefix.GetOr("");
    match rt
    case Server => configured
    case Browser(nd) =>
      var data := nd.GetOr(NextData(None, None));
      var candidate :=
        if data.assetPrefix.Some? then data.assetPrefix.value
        else if data.basePath.Some? then data.basePath.value
        else configured;
      DropTrailingSlash(candidate)
  }

  /** `imgPath(folder, filename)`. */
  function ImgPath(folder: string, filename: Option<string>, rt: Runtime, basePrefix: Option<string>): (r: string)
    ensures filename.None? || filename.value == "" ==> r == ""
    ensures filename.Some? && filename.value != "" ==>
      r == ImageBase(rt, basePrefix) + "/generated_contents/" + folder + "/" + filename.value
  {
    if filename.None? || filename.value == "" then ""
    else ImageBase(rt, basePrefix) + "/generated_contents/" + folder + "/" + filename.value
  }

  /** An image path names the file under its folder; in the browser the base
      loses at most one slash, so a base `/x/` gives `/x/generated_contents/...`. */
  lemma ImgPathShape(folder: string, filename: string, rt: Runtime, basePrefix: Option<string>)
    requires filename != ""
    ensures var r := ImgPath(folder, Some(filename), rt, basePrefix);
      var tail := "/generated_contents/" + folder + "/" + filename;
      |tail| <= |r| && r[|r| - |tail|..] == tail
    ensures ImgPath(folder, Some(filename), Browser(Some(NextData(Some("/x//"), None))), basePrefix)
         == "/x/" + "/generated_contents/" + folder + "/" + filename
  {
    var r := ImgPath(folder, Some(filename), rt, basePrefix);
    var tail := "/generated_contents/" + folder + "/" + filename;
    assert r == ImageBase(rt, basePrefix) + tail;
    assert DropTrailingSlash("/x//") == "/x/";
  }

  /** `r.date.split(" ")[0] ?? r.date`. */
  function NewsDate(date: string): string {
    Split(date, ' ')[0]
  }

  /** The news date is the text before the first space: a space-free prefix of
      the date, followed by a space unless it is the whole date. */
  lemma NewsDateIsPrefix(date: string)
    ensures StartsWith(date, NewsDate(date))
    ensures ' ' !in NewsDate(date)
    ensures |NewsDate(date)| < |date| ==> date[|NewsDate(date)|] == ' '
  {
    var parts := Split(date, ' ');
    SplitJoin(date, ' ');
    JoinStartsWith(parts, ' ');
    if |parts| > 1 {
      assert Join(parts, ' ') == parts[0] + [' '] + Join(parts[1..], ' ');
      assert date[|parts[0]|] == (parts[0] + [' '] + Join(parts[1..], ' '))[|parts[0]|];
    }
  }
}
