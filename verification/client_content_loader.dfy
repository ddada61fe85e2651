/** The client-side content loader of the site (morinolab_hp/lib/client-content-loader.ts):
    the base path the site is served under, static paths below it, and the CSV
    reader that turns a fetched file into one object per data line. The browser
    location and the `BASEPATH_ENABLED` environment variable are parameters. */
module ClientContentLoader {
  import opened Wrappers
  import opened Text
  import opened CsvLine
  import opened CsvRecord
  import opened Seqs

  const SiteBase: string := "/morinolab_hp"

  /** What the loader reads from `window.location`: the path name and the value
      of the `basepath` query parameter (None when it is absent). */
  datatype Location = Location(pathname: string, basepathParam: Option<string>)

  /** `getBasePath()`: in a browser, a page under the site prefix or one opened
      with `?basepath=true` is served under the prefix; otherwise the environment
      decides. `window` is None on the server. */
  function GetBasePath(window: Option<Location>, basepathEnabled: Option<string>): (r: string)
    ensures r == SiteBase || r == ""
  {
    if window.Some? && (StartsWith(window.value.pathname, SiteBase + "/") || window.value.pathname == SiteBase) then SiteBase
    else if window.Some? && window.value.basepathParam == Some("true") then SiteBase
    else if basepathEnabled == Some("true") then SiteBase
    else ""
  }

  /** A page under the prefix is served under it whatever the environment says. */
  lemma BrowserUnderPrefix(loc: Location, basepathEnabled: Option<string>)
    requires StartsWith(loc.pathname, SiteBase)
    requires |loc.pathname| == |SiteBase| || loc.pathname[|SiteBase|] == '/'
    ensures GetBasePath(Some(loc), basepathEnabled) == SiteBase
  {
    if |loc.pathname| > |SiteBase| {
      assert loc.pathname[..|SiteBase| + 1] == loc.pathname[..|SiteBase|] + [loc.pathname[|SiteBase|]];
    } else {
      assert loc.pathname == loc.pathname[..|SiteBase|];
    }
  }

  /** On the server only `BASEPATH_ENABLED === 'true'` selects the prefix. */
  lemma ServerUsesEnvironment(basepathEnabled: Option<string>)
    ensures GetBasePath(None, basepathEnabled) == SiteBase <==> basepathEnabled == Some("true")
  {
  }

  /** `getStaticPath(path)` with the base path already computed: a path that
      already starts with a non-empty base is kept, any other gets the base in front. */
  function StaticPath(base: string, path: string): (r: string)
    ensures StartsWith(r, base)
    ensures |path| <= |r| && r[|r| - |path|..] == path
    ensures base != "" && StartsWith(path, base) ==> r == path
    ensures !StartsWith(path, base) ==> r == base + path
  {
    if base != "" && StartsWith(path, base) then path
    else
      assert (base + path)[..|base|] == base;
      base + path
  }

  function GetStaticPath(window: Option<Location>, basepathEnabled: Option<string>, path: string): (r: string)
    ensures StartsWith(r, GetBasePath(window, basepathEnabled))
  {
    StaticPath(GetBasePath(window, basepathEnabled), path)
  }

  /** Applying `getStaticPath` twice gives the same path as applying it once. */
  lemma StaticPathIdempotent(window: Option<Location>, basepathEnabled: Option<string>, path: string)
    ensures GetStaticPath(window, basepathEnabled, GetStaticPath(window, basepathEnabled, path))
         == GetStaticPath(window, basepathEnabled, path)
  {
    var base := GetBasePath(window, basepathEnabled);
    var once := StaticPath(base, path);
    if base == "" {
      assert base + once == once;
    }
  }

  // ---------------------------------------------------------------------------
  // parseCSVLine
  // ---------------------------------------------------------------------------

  /** `parseCSVLine(line)`: the quote-aware scan with every field trimmed as it
      is pushed. */
  method ParseCsvLine(line: string) returns (result: seq<string>)
    ensures result == TrimAll(ParseFields(line))
    ensures |result| == CommasOutside(line, false) + 1
    ensures AllTrimmed(result)
  {
    result := [];
    var current := "";
    var inQuotes := false;
    var i := 0;
    ghost var raw: seq<string> := [];
    while i < |line|
      invariant 0 <= i <= |line|
      invariant result == TrimAll(raw)
      invariant Scan(line[i..], ScanState(raw, current, inQuotes)) == ParseFields(line)
      decreases |line| - i
    {
      var c := line[i];
      ghost var rest := line[i..];
      if c == '"' {
        if inQuotes && i + 1 < |line| && line[i + 1] == '"' {
          ScanPair(rest, ScanState(raw, current, inQuotes));
          assert rest[2..] == line[i + 2..];
          current := current + "\"";
          i := i + 2;
        } else {
          ScanToggle(rest, ScanState(raw, current, inQuotes));
          assert rest[1..] == line[i + 1..];
          inQuotes := !inQuotes;
          i := i + 1;
        }
      } else if c == ',' && !inQuotes {
        ScanComma(rest, ScanState(raw, current, inQuotes));
        assert rest[1..] == line[i + 1..];
        TrimAllSnoc(raw, current);
        result := result + [JsTrim(current)];
        raw := raw + [current];
        current := "";
        i := i + 1;
      } else {
        ScanData(rest, ScanState(raw, current, inQuotes));
        assert rest[1..] == line[i + 1..];
        current := current + [c];
        i := i + 1;
      }
    }
    TrimAllSnoc(raw, current);
    result := result + [JsTrim(current)];
    FieldCount(line);
    TrimAllTrimmed(ParseFields(line));
  }

  // ---------------------------------------------------------------------------
  // parseCSVContent
  // ---------------------------------------------------------------------------

  /** `content.trim().split('\n')`. */
  function Lines(content: string): (lines: seq<string>)
    ensures |lines| >= 1
  {
    Split(JsTrim(content), '\n')
  }

  /** What `parseCSVContent` returns. */
  function ParseContent(content: string): seq<Row> {
    var lines := Lines(content);
    if |lines| < 2 then []
    else
      var headers := TrimAll(ParseFields(lines[0]));
      seq(|lines| - 1, k requires 0 <= k < |lines| - 1 => RowObject(headers, TrimAll(ParseFields(lines[k + 1]))))
  }

  /** `parseCSVContent(content)`. */
  method ParseCsvContent(content: string) returns (result: seq<Row>)
    ensures result == ParseContent(content)
  {
    var lines := Split(JsTrim(content), '\n');
    if |lines| < 2 {
      return [];
    }
    var headers := ParseCsvLine(lines[0]);
    result := ContentRows(content, headers, lines[1..]);
  }

  /** The row loop of `parseCSVContent`: one object per line after the header. */
  method ContentRows(content: string, headers: seq<string>, rows: seq<string>) returns (result: seq<Row>)
    requires |Lines(content)| >= 2 && rows == Lines(content)[1..]
    requires headers == TrimAll(ParseFields(Lines(content)[0]))
    ensures result == ParseContent(content)
  {
    ghost var all := ParseContent(content);
    result := [];
    for k := 0 to |rows|
      invariant result == all[..k]
    {
      var values := ParseCsvLine(rows[k]);
      var obj := BuildRow(headers, values);
      ContentRowIs(content, k);
      PrefixSnoc(all, k);
      result := result + [obj];
    }
    PrefixWhole(all);
  }

  /** There are as many rows as line breaks inside the trimmed text: fewer than
      two lines give no row, and otherwise every line after the header is one row. */
  lemma ContentRowCount(content: string)
    ensures |ParseContent(content)| == Count(JsTrim(content), '\n')
    ensures |Lines(content)| < 2 ==> ParseContent(content) == []
    ensures |Lines(content)| >= 2 ==> |ParseContent(content)| == |Lines(content)| - 1
  {
    SplitJoin(JsTrim(content), '\n');
  }

  /** The row of data line `k`. */
  lemma ContentRowIs(content: string, k: nat)
    requires k < |ParseContent(content)|
    ensures |Lines(content)| >= 2
    ensures ParseContent(content)[k] == RowObject(TrimAll(ParseFields(Lines(content)[0])), TrimAll(ParseFields(Lines(content)[k + 1])))
  {
  }

  /** Every row has exactly the header names as keys, and every value is
      trimmed text. */
  lemma ContentRowShape(content: string, k: nat)
    requires k < |ParseContent(content)|
    ensures ParseContent(content)[k].Keys == set h | h in TrimAll(ParseFields(Lines(content)[0]))
    ensures forall h :: h in ParseContent(content)[k] ==> JsTrim(ParseContent(content)[k][h]) == ParseContent(content)[k][h]
  {
    ContentRowIs(content, k);
    TrimAllTrimmed(ParseFields(Lines(content)[k + 1]));
    RowObjectTrimmed(TrimAll(ParseFields(Lines(content)[0])), TrimAll(ParseFields(Lines(content)[k + 1])));
  }
}
