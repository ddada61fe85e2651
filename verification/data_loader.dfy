/** The CSV reader and value helpers of the site's data loader
    (src/app/dataLoader.tsx). `parseLine` and `parseCSV` appear character for
    character again in morinolab_hp/src/app/dataLoader.tsx, and so does
    `parseIdList`; that copy's own helpers are in module SiteDataLoader. */
module DataLoader {
  import opened Wrappers
  import opened Text
  import opened JsValues
  import opened CsvLine
  import opened CsvRecord
  import opened Seqs

  // ---------------------------------------------------------------------------
  // parseLine
  // ---------------------------------------------------------------------------

  /** `parseLine(line)`: the quote-aware scan, fields pushed untrimmed. */
  method ParseLine(line: string) returns (result: seq<string>)
    ensures result == ParseFields(line)
    ensures |result| == CommasOutside(line, false) + 1
  {
    result := [];
    var current := "";
    var inQuotes := false;
    var i := 0;
    while i < |line|
      invariant 0 <= i <= |line|
      invariant Scan(line[i..], ScanState(result, current, inQuotes)) == ParseFields(line)
      decreases |line| - i
    {
      var c := line[i];
      ghost var rest := line[i..];
      if c == '"' {
        if inQuotes && i + 1 < |line| && line[i + 1] == '"' {
          ScanPair(rest, ScanState(result, current, inQuotes));
          assert rest[2..] == line[i + 2..];
          current := current + "\"";
          i := i + 1;
        } else {
          ScanToggle(rest, ScanState(result, current, inQuotes));
          assert rest[1..] == line[i + 1..];
          inQuotes := !inQuotes;
        }
      } else if c == ',' && !inQuotes {
        ScanComma(rest, ScanState(result, current, inQuotes));
        assert rest[1..] == line[i + 1..];
        result := result + [current];
        current := "";
      } else {
        ScanData(rest, ScanState(result, current, inQuotes));
        assert rest[1..] == line[i + 1..];
        current := current + [c];
      }
      i := i + 1;
    }
    result := result + [current];
    FieldCount(line);
  }

  /** The untrimmed reader keeps the spaces around a comma. */
  lemma ParseLineKeepsSpaces(s: string)
    requires '"' !in s && ',' !in s
    ensures ParseFields(s) == [s]
  {
    UnquotedLineIsSplit(s);
    SplitFirst(s, ',');
  }

  // ---------------------------------------------------------------------------
  // parseCSV
  // ---------------------------------------------------------------------------

  /** A line piece before a `\r\n` loses its `\r`. */
  function DropCr(p: string): (r: string)
    ensures r == p || (p == r + "\r")
  {
    if |p| > 0 && p[|p| - 1] == '\r' then p[..|p| - 1] else p
  }

  /** `content.split(/\r?\n/)`: a line break is `\n` or `\r\n`. */
  function SplitLines(s: string): (lines: seq<string>)
    ensures |lines| == Count(s, '\n') + 1
  {
    SplitJoin(s, '\n');
    var ps := Split(s, '\n');
    seq(|ps|, k requires 0 <= k < |ps| => if k < |ps| - 1 then DropCr(ps[k]) else ps[k])
  }

  /** With no carriage return the lines are the pieces between `\n`s. */
  lemma SplitLinesWithoutCr(s: string)
    requires '\r' !in s
    ensures SplitLines(s) == Split(s, '\n')
  {
    var ps := Split(s, '\n');
    SplitJoin(s, '\n');
    forall k | 0 <= k < |ps| - 1 ensures DropCr(ps[k]) == ps[k] {
      if |ps[k]| > 0 && ps[k][|ps[k]| - 1] == '\r' {
        CharOfSplitPiece(s, '\n', k, |ps[k]| - 1);
      }
    }
  }

  /** A `\r\n` ends a line just as `\n` does, and the `\r` is not kept. */
  lemma CrLfEndsLine(a: string, b: string)
    requires '\n' !in a
    ensures SplitLines(a + "\r\n" + b) == [a] + SplitLines(b)
  {
    var s := a + "\r\n" + b;
    var a' := a + "\r";
    assert s == a' + ['\n'] + b by {
      AppendAssoc(a, "\r", "\n");
      AppendAssoc(a, "\r\n", b);
      AppendAssoc(a', "\n", b);
    }
    assert '\n' !in a';
    SplitAfterPiece(a', '\n', b);
    var ps := Split(s, '\n');
    var qs := Split(b, '\n');
    assert ps == [a'] + qs;
    assert a'[..|a'| - 1] == a;
    var l := SplitLines(s);
    var m := SplitLines(b);
    assert l[0] == a;
    assert |l| == |ps| && |m| == |qs|;
    forall k | 0 <= k < |m| ensures l[k + 1] == m[k] {
      assert ps[k + 1] == qs[k];
      assert k < |qs| - 1 ==> l[k + 1] == DropCr(ps[k + 1]) && m[k] == DropCr(qs[k]);
      assert k == |qs| - 1 ==> l[k + 1] == ps[k + 1] && m[k] == qs[k];
    }
    ConsOf(l, a, m);
  }

  /** Every character of a split piece is a character of the input. */
  lemma {:induction false} CharOfSplitPiece(s: string, sep: char, k: nat, j: nat)
    requires k < |Split(s, sep)| && j < |Split(s, sep)[k]|
    ensures Split(s, sep)[k][j] in s
    decreases |s|
  {
    if |s| > 0 {
      var rest := Split(s[1..], sep);
      if s[0] == sep {
        CharOfSplitPiece(s[1..], sep, k - 1, j);
      } else if k == 0 && j == 0 {
      } else if k == 0 {
        CharOfSplitPiece(s[1..], sep, 0, j - 1);
      } else {
        CharOfSplitPiece(s[1..], sep, k, j);
      }
    }
  }

  predicate Blank(l: string) {
    JsTrim(l) == ""
  }

  /** `.filter((l) => l.trim() !== "")`: the non-blank lines, in order. */
  function NonBlank(lines: seq<string>): (r: seq<string>)
    ensures |r| <= |lines|
  {
    if |lines| == 0 then []
    else
      var rest := NonBlank(lines[1..]);
      if Blank(lines[0]) then rest else [lines[0]] + rest
  }

  /** The kept lines are exactly the non-blank ones. */
  lemma {:induction false} NonBlankKeeps(lines: seq<string>)
    ensures forall k :: 0 <= k < |NonBlank(lines)| ==> !Blank(NonBlank(lines)[k])
    ensures forall l :: l in NonBlank(lines) <==> l in lines && !Blank(l)
  {
    if |lines| > 0 {
      NonBlankKeeps(lines[1..]);
      assert forall l :: l in lines <==> l == lines[0] || l in lines[1..];
    }
  }

  /** The lines `parseCSV` reads. */
  function DataLines(content: string): (lines: seq<string>)
    ensures |lines| <= Count(content, '\n') + 1
  {
    NonBlank(SplitLines(content))
  }

  /** What `parseCSV` makes of its non-blank lines: the first gives the
      trimmed header names and every later one a row. */
  function RowsOf(lines: seq<string>): (rows: seq<Row>)
    ensures |lines| <= 1 ==> rows == []
    ensures |lines| >= 1 ==> |rows| == |lines| - 1
  {
    if |lines| == 0 then []
    else
      var headers := TrimAll(ParseFields(lines[0]));
      seq(|lines| - 1, k requires 0 <= k < |lines| - 1 => RowObject(headers, ParseFields(lines[k + 1])))
  }

  function CsvRows(content: string): seq<Row> {
    RowsOf(DataLines(content))
  }

  /** `.map((h) => h.trim())`. */
  method TrimFields(fields: seq<string>) returns (headers: seq<string>)
    ensures headers == TrimAll(fields)
  {
    headers := [];
    for j := 0 to |fields|
      invariant headers == TrimAll(fields[..j])
    {
      assert fields[..j + 1] == fields[..j] + [fields[j]];
      TrimAllSnoc(fields[..j], fields[j]);
      headers := headers + [JsTrim(fields[j])];
    }
    assert fields[..|fields|] == fields;
  }

  /** One turn of the row loop: the line's fields under the header names. */
  method ParseRow(headers: seq<string>, line: string) returns (obj: Row)
    ensures obj == RowObject(headers, ParseFields(line))
  {
    var values := ParseLine(line);
    obj := BuildRow(headers, values);
  }

  /** `parseCSV(content)`. */
  method ParseCsv(content: string) returns (rows: seq<Row>)
    ensures rows == CsvRows(content)
  {
    var lines := NonBlank(SplitLines(content));
    if |lines| == 0 {
      return [];
    }
    var fields := ParseLine(lines[0]);
    var headers := TrimFields(fields);
    rows := ParseRows(headers, lines);
  }

  /** The row loop of `parseCSV`: every line after the header, in order. */
  method ParseRows(headers: seq<string>, lines: seq<string>) returns (rows: seq<Row>)
    requires |lines| >= 1 && headers == TrimAll(ParseFields(lines[0]))
    ensures rows == RowsOf(lines)
  {
    ghost var all := RowsOf(lines);
    rows := [];
    var i := 1;
    while i < |lines|
      invariant 1 <= i <= |lines|
      invariant rows == all[..i - 1]
    {
      var obj := ParseRow(headers, lines[i]);
      RowsOfIs(lines, i - 1);
      PrefixSnoc(all, i - 1);
      rows := rows + [obj];
      i := i + 1;
    }
    PrefixWhole(all);
  }

  /** Input with no non-blank line, or with only a header line, gives no rows;
      otherwise there is one row per non-blank line after the header. */
  lemma CsvRowCount(content: string)
    ensures |DataLines(content)| <= 1 ==> CsvRows(content) == []
    ensures |DataLines(content)| >= 1 ==> |CsvRows(content)| == |DataLines(content)| - 1
    ensures |CsvRows(content)| <= Count(content, '\n')
  {
  }

  /** Blank or white-space-only text has no rows. */
  lemma BlankContentHasNoRows(content: string)
    requires AllJsSpace(content)
    ensures CsvRows(content) == []
  {
    var ls := SplitLines(content);
    SplitJoin(content, '\n');
    forall l | l in ls ensures Blank(l) {
      var k :| 0 <= k < |ls| && ls[k] == l;
      var p := Split(content, '\n')[k];
      forall j | 0 <= j < |p| ensures IsJsSpace(p[j]) {
        CharOfSplitPiece(content, '\n', k, j);
      }
      assert AllJsSpace(l) by {
        forall j | 0 <= j < |l| ensures IsJsSpace(l[j]) {
          assert l[j] == p[j];
        }
      }
      JsTrimEmptyIff(l);
    }
    NonBlankKeeps(ls);
    assert NonBlank(ls) == [] by {
      if NonBlank(ls) != [] {
        assert NonBlank(ls)[0] in NonBlank(ls);
      }
    }
  }

  /** The header names: the first non-blank line's fields, trimmed. */
  function Headers(content: string): seq<string> {
    var lines := DataLines(content);
    if |lines| == 0 then [] else TrimAll(ParseFields(lines[0]))
  }

  lemma RowsOfIs(lines: seq<string>, k: nat)
    requires k < |RowsOf(lines)|
    ensures RowsOf(lines)[k] == RowObject(TrimAll(ParseFields(lines[0])), ParseFields(lines[k + 1]))
  {
    assert |lines| > 1;
  }

  /** The row of non-blank line `k + 1`. */
  lemma CsvRowIs(content: string, k: nat)
    requires k < |CsvRows(content)|
    ensures k + 1 < |DataLines(content)|
    ensures CsvRows(content)[k] == RowObject(Headers(content), ParseFields(DataLines(content)[k + 1]))
  {
    RowsOfIs(DataLines(content), k);
  }

  /** Every row has each trimmed header name as a key. */
  lemma CsvRowKeys(content: string, k: nat)
    requires k < |CsvRows(content)|
    ensures CsvRows(content)[k].Keys == set h | h in Headers(content)
  {
    CsvRowIs(content, k);
  }

  /** The value under a header is that of its last column: the line's cell,
      or "" when the line is shorter. */
  lemma CsvRowValue(content: string, k: nat, j: nat)
    requires k < |CsvRows(content)|
    requires j < |Headers(content)| && Headers(content)[j] !in Headers(content)[j + 1..]
    ensures Headers(content)[j] in CsvRows(content)[k]
    ensures CsvRows(content)[k][Headers(content)[j]] == ValueAt(ParseFields(DataLines(content)[k + 1]), j)
  {
    CsvRowIs(content, k);
    RowObjectLookup(Headers(content), ParseFields(DataLines(content)[k + 1]), j);
  }

  // ---------------------------------------------------------------------------
  // parseBool
  // ---------------------------------------------------------------------------

  const TrueWords: seq<string> := ["true", "1", "yes", "y", "True", "TRUE"]

  /** `parseBool(v)`. */
  function ParseBool(v: Option<string>): (r: bool)
    ensures r <==> v.Some? && JsTrim(v.value) in TrueWords
  {
    JsTrim(v.GetOr("")) in TrueWords
  }

  /** Surrounding white space never changes the answer. */
  lemma ParseBoolIgnoresSpace(s: string)
    ensures ParseBool(Some(s)) == ParseBool(Some(JsTrim(s)))
  {
    JsTrimIdempotent(s);
  }

  /** An absent value and the capitalised "Yes" are false. */
  lemma ParseBoolRejects()
    ensures !ParseBool(None)
    ensures !ParseBool(Some("Yes"))
  {
    JsTrimEmptyIff("");
    TrimKeepsSolidEnds("Yes");
    assert "Yes" != "yes" && "Yes" != "y";
  }

  // ---------------------------------------------------------------------------
  // parseIdList
  // ---------------------------------------------------------------------------

  /** The characters the split pattern `/\s*\|\s*|,|;|\s+/` consumes. Every
      match of the pattern is a run of them and every one of them is in a
      match, so after the empty pieces are dropped the pieces are the maximal
      runs of other characters. */
  predicate IsIdSep(c: char) {
    IsJsSpace(c) || c == '|' || c == ',' || c == ';'
  }

  function Tokens(s: string): seq<string> {
    NonEmpty(Split(CommaFor(s, IsIdSep), ','))
  }

  /** `.map((s) => Number(s))`. */
  function Numbers(tokens: seq<string>): (r: seq<Num>)
    ensures |r| == |tokens|
  {
    seq(|tokens|, k requires 0 <= k < |tokens| => StringToNumber(tokens[k]))
  }

  /** `.filter((n) => !Number.isNaN(n))`. */
  function DropNaN(ns: seq<Num>): (r: seq<Num>)
    ensures |r| <= |ns|
    ensures forall k :: 0 <= k < |r| ==> r[k] != NaN
    ensures forall n :: n in r <==> n in ns && n != NaN
  {
    if |ns| == 0 then []
    else
      var rest := DropNaN(ns[1..]);
      assert forall n :: n in ns <==> n == ns[0] || n in ns[1..];
      if ns[0] == NaN then rest else [ns[0]] + rest
  }

  /** `parseIdList(v)`: never NaN. */
  function ParseIdList(v: Option<string>): (r: seq<Num>)
    ensures forall k :: 0 <= k < |r| ==> r[k] != NaN
  {
    DropNaN(Numbers(Tokens(v.GetOr(""))))
  }

  function NatStrings(ns: seq<nat>): (r: seq<string>)
    ensures |r| == |ns|
  {
    seq(|ns|, k requires 0 <= k < |ns| => NatToString(ns[k]))
  }

  function Finites(ns: seq<nat>): (r: seq<Num>)
    ensures |r| == |ns|
  {
    seq(|ns|, k requires 0 <= k < |ns| => Finite(ns[k]))
  }

  lemma {:induction false} DropNaNNone(ns: seq<Num>)
    requires forall k :: 0 <= k < |ns| ==> ns[k] != NaN
    ensures DropNaN(ns) == ns
  {
    if |ns| > 0 {
      DropNaNNone(ns[1..]);
    }
  }

  /** Writing natural ids comma-separated and parsing the list gives them back. */
  lemma IdListRoundTrip(ns: seq<nat>)
    requires |ns| > 0
    ensures ParseIdList(Some(Join(NatStrings(ns), ','))) == Finites(ns)
  {
    var parts := NatStrings(ns);
    var s := Join(parts, ',');
    forall k | 0 <= k < |parts| ensures AllDigits(parts[k]) && ',' !in parts[k] {
      assert parts[k] == NatToString(ns[k]);
    }
    CommaForJoin(parts, IsIdSep);
    SplitOfJoin(parts, ',');
    NonEmptyAll(parts);
    assert Tokens(s) == parts;
    var nums := Numbers(parts);
    forall k | 0 <= k < |ns| ensures nums[k] == Finite(ns[k]) {
      NumberOfIntToString(ns[k]);
    }
    assert nums == Finites(ns);
    DropNaNNone(nums);
  }

  /** Absent or blank input gives the empty list. */
  lemma BlankIdList(s: string)
    requires AllJsSpace(s)
    ensures ParseIdList(None) == []
    ensures ParseIdList(Some(s)) == []
  {
    assert CommaFor("", IsIdSep) == "";
    AllCommas(CommaFor(s, IsIdSep));
  }
}
