/** The quote-aware scanner shared by the sites' CSV line readers
    (`parseCSVLine` in morinolab_hp/lib/client-content-loader.ts and the two
    `parseLine` copies in the dataLoader files). Reading left to right, a `"`
    inside quotes followed by another `"` adds one literal quote (section 2,
    rule 7 of RFC 4180); any other `"` toggles the in-quotes state and is
    dropped; a comma outside quotes ends a field; every other character is
    data. The client reader trims each field as it ends it, which gives the
    same fields as trimming the untrimmed ones afterwards (`TrimAll`); the
    dataLoader readers do not trim. */
module CsvLine {
  import opened Text
  import opened Seqs

  datatype ScanState = ScanState(fields: seq<string>, current: string, inQuotes: bool)

  /** The client reader's fields: each one trimmed. */
  function TrimAll(fields: seq<string>): (r: seq<string>)
    ensures |r| == |fields|
  {
    if |fields| == 0 then [] else TrimAll(fields[..|fields| - 1]) + [JsTrim(fields[|fields| - 1])]
  }

  /** The scanner, on the unread rest of the line. */
  function Scan(rest: string, st: ScanState): seq<string>
    decreases |rest|
  {
    if |rest| == 0 then st.fields + [st.current]
    else if rest[0] == '"' then
      if st.inQuotes && |rest| > 1 && rest[1] == '"' then
        Scan(rest[2..], st.(current := st.current + "\""))
      else Scan(rest[1..], st.(inQuotes := !st.inQuotes))
    else if rest[0] == ',' && !st.inQuotes then
      Scan(rest[1..], ScanState(st.fields + [st.current], "", false))
    else Scan(rest[1..], st.(current := st.current + [rest[0]]))
  }

  /** The fields of one line, untrimmed. */
  function ParseFields(line: string): seq<string> {
    Scan(line, ScanState([], "", false))
  }

  // ---------------------------------------------------------------------------
  // Reference definitions
  // ---------------------------------------------------------------------------

  /** The number of commas that are outside quotes, with quote pairs read as
      the scanner reads them. */
  function CommasOutside(rest: string, inQuotes: bool): nat
    decreases |rest|
  {
    if |rest| == 0 then 0
    else if rest[0] == '"' then
      if inQuotes && |rest| > 1 && rest[1] == '"' then CommasOutside(rest[2..], inQuotes)
      else CommasOutside(rest[1..], !inQuotes)
    else if rest[0] == ',' && !inQuotes then 1 + CommasOutside(rest[1..], inQuotes)
    else CommasOutside(rest[1..], inQuotes)
  }

  /** A field written with RFC 4180 quoting: wrapped in quotes, inner quotes doubled. */
  function Escape(f: string): string {
    if |f| == 0 then ""
    else (if f[0] == '"' then "\"\"" else [f[0]]) + Escape(f[1..])
  }

  function Quote(f: string): string {
    "\"" + Escape(f) + "\""
  }

  function Quotes(fields: seq<string>): (r: seq<string>)
    ensures |r| == |fields|
  {
    seq(|fields|, k requires 0 <= k < |fields| => Quote(fields[k]))
  }

  function QuoteTotal(fields: seq<string>): nat {
    if |fields| == 0 then 0 else QuoteTotal(fields[..|fields| - 1]) + Count(fields[|fields| - 1], '"')
  }

  // ---------------------------------------------------------------------------
  // Field count
  // ---------------------------------------------------------------------------

  lemma {:induction false} ScanCount(rest: string, st: ScanState)
    ensures |Scan(rest, st)| == |st.fields| + 1 + CommasOutside(rest, st.inQuotes)
    decreases |rest|
  {
    if |rest| > 0 {
      if rest[0] == '"' {
        if st.inQuotes && |rest| > 1 && rest[1] == '"' {
          ScanCount(rest[2..], st.(current := st.current + "\""));
        } else {
          ScanCount(rest[1..], st.(inQuotes := !st.inQuotes));
        }
      } else if rest[0] == ',' && !st.inQuotes {
        ScanCount(rest[1..], ScanState(st.fields + [st.current], "", false));
      } else {
        ScanCount(rest[1..], st.(current := st.current + [rest[0]]));
      }
    }
  }

  /** A line has one more field than it has commas outside quotes. */
  lemma FieldCount(line: string)
    ensures |ParseFields(line)| == CommasOutside(line, false) + 1
  {
    ScanCount(line, ScanState([], "", false));
  }

  // ---------------------------------------------------------------------------
  // One step of the scanner
  // ---------------------------------------------------------------------------

  lemma ScanComma(rest: string, st: ScanState)
    requires |rest| > 0 && rest[0] == ',' && !st.inQuotes
    ensures Scan(rest, st) == Scan(rest[1..], ScanState(st.fields + [st.current], "", false))
  {
  }

  lemma ScanData(rest: string, st: ScanState)
    requires |rest| > 0 && rest[0] != '"' && (rest[0] != ',' || st.inQuotes)
    ensures Scan(rest, st) == Scan(rest[1..], st.(current := st.current + [rest[0]]))
  {
  }

  lemma ScanPair(rest: string, st: ScanState)
    requires |rest| > 1 && rest[0] == '"' && rest[1] == '"' && st.inQuotes
    ensures Scan(rest, st) == Scan(rest[2..], st.(current := st.current + "\""))
  {
  }

  lemma ScanToggle(rest: string, st: ScanState)
    requires |rest| > 0 && rest[0] == '"' && !(st.inQuotes && |rest| > 1 && rest[1] == '"')
    ensures Scan(rest, st) == Scan(rest[1..], st.(inQuotes := !st.inQuotes))
  {
  }

  // ---------------------------------------------------------------------------
  // Lines without quotes
  // ---------------------------------------------------------------------------

  /** Splitting after a prefix `cur` already read: the first piece carries it. */
  function SplitFrom(cur: string, rest: string): (r: seq<string>)
    ensures |r| >= 1
  {
    var p := Split(rest, ',');
    [cur + p[0]] + p[1..]
  }

  lemma SplitFromEmpty(rest: string)
    ensures SplitFrom("", rest) == Split(rest, ',')
  {
    var p := Split(rest, ',');
    assert SplitFrom("", rest) == ["" + p[0]] + p[1..];
    assert "" + p[0] == p[0];
    assert [p[0]] + p[1..] == p;
  }

  lemma SplitFromNil(cur: string, rest: string)
    requires |rest| == 0
    ensures SplitFrom(cur, rest) == [cur]
  {
    assert Split(rest, ',') == [""];
    assert cur + "" == cur;
  }

  lemma SplitFromComma(cur: string, rest: string)
    requires |rest| > 0 && rest[0] == ','
    ensures SplitFrom(cur, rest) == [cur] + Split(rest[1..], ',')
  {
    var p' := Split(rest[1..], ',');
    assert Split(rest, ',') == [""] + p';
    assert ([""] + p')[0] == "" && ([""] + p')[1..] == p';
    assert cur + "" == cur;
  }

  lemma SplitFromChar(cur: string, rest: string)
    requires |rest| > 0 && rest[0] != ','
    ensures SplitFrom(cur, rest) == SplitFrom(cur + [rest[0]], rest[1..])
  {
    var p' := Split(rest[1..], ',');
    var q := [[rest[0]] + p'[0]] + p'[1..];
    assert Split(rest, ',') == q;
    assert q[0] == [rest[0]] + p'[0] && q[1..] == p'[1..];
    assert cur + ([rest[0]] + p'[0]) == cur + [rest[0]] + p'[0];
  }

  lemma NoQuoteTail(rest: string)
    requires |rest| > 0 && '"' !in rest
    ensures '"' !in rest[1..]
  {
    forall k | 0 <= k < |rest| - 1 ensures rest[1..][k] != '"' {
      assert rest[1..][k] == rest[k + 1];
    }
  }

  lemma UnquotedCommaStep(rest: string, fs: seq<string>, cur: string)
    requires |rest| > 0 && rest[0] == ','
    requires Scan(rest[1..], ScanState(fs + [cur], "", false)) == fs + [cur] + SplitFrom("", rest[1..])
    ensures Scan(rest, ScanState(fs, cur, false)) == fs + SplitFrom(cur, rest)
  {
    var st := ScanState(fs, cur, false);
    var tail := rest[1..];
    calc {
      Scan(rest, st);
      == { ScanComma(rest, st); }
      Scan(tail, ScanState(fs + [cur], "", false));
      == fs + [cur] + SplitFrom("", tail);
      == { SplitFromEmpty(tail); }
      fs + [cur] + Split(tail, ',');
      == { AppendAssoc(fs, [cur], Split(tail, ',')); }
      fs + ([cur] + Split(tail, ','));
      == { SplitFromComma(cur, rest); }
      fs + SplitFrom(cur, rest);
    }
  }

  lemma UnquotedDataStep(rest: string, fs: seq<string>, cur: string)
    requires |rest| > 0 && rest[0] != ',' && rest[0] != '"'
    requires Scan(rest[1..], ScanState(fs, cur + [rest[0]], false)) == fs + SplitFrom(cur + [rest[0]], rest[1..])
    ensures Scan(rest, ScanState(fs, cur, false)) == fs + SplitFrom(cur, rest)
  {
    ScanData(rest, ScanState(fs, cur, false));
    SplitFromChar(cur, rest);
  }

  lemma {:induction false} ScanUnquoted(rest: string, fs: seq<string>, cur: string)
    requires '"' !in rest
    ensures Scan(rest, ScanState(fs, cur, false)) == fs + SplitFrom(cur, rest)
    decreases |rest|
  {
    if |rest| == 0 {
      SplitFromNil(cur, rest);
    } else {
      NoQuoteTail(rest);
      if rest[0] == ',' {
        ScanUnquoted(rest[1..], fs + [cur], "");
        UnquotedCommaStep(rest, fs, cur);
      } else {
        ScanUnquoted(rest[1..], fs, cur + [rest[0]]);
        UnquotedDataStep(rest, fs, cur);
      }
    }
  }

  /** Without quotes a line is split at every comma. */
  lemma UnquotedLineIsSplit(line: string)
    requires '"' !in line
    ensures ParseFields(line) == Split(line, ',')
  {
    ScanUnquoted(line, [], "");
    SplitFromEmpty(line);
    assert [] + Split(line, ',') == Split(line, ',');
  }

  // ---------------------------------------------------------------------------
  // RFC 4180 quoting
  // ---------------------------------------------------------------------------

  lemma {:induction false} ScanEscaped(f: string, rest: string, fs: seq<string>, cur: string)
    ensures Scan(Escape(f) + rest, ScanState(fs, cur, true)) == Scan(rest, ScanState(fs, cur + f, true))
    decreases |f|
  {
    if |f| == 0 {
      assert Escape(f) + rest == rest;
      assert cur + f == cur;
    } else {
      var s := Escape(f) + rest;
      var tail := Escape(f[1..]) + rest;
      if f[0] == '"' {
        assert s == "\"\"" + tail by {
          assert Escape(f) == "\"\"" + Escape(f[1..]);
          AppendAssoc("\"\"", Escape(f[1..]), rest);
        }
        assert s[0] == '"' && s[1] == '"' && s[2..] == tail;
        ScanPair(s, ScanState(fs, cur, true));
        ScanEscaped(f[1..], rest, fs, cur + "\"");
        assert cur + "\"" + f[1..] == cur + f by {
          HeadTail(f);
          AppendAssoc(cur, [f[0]], f[1..]);
        }
      } else {
        assert s == [f[0]] + tail by {
          assert Escape(f) == [f[0]] + Escape(f[1..]);
          AppendAssoc([f[0]], Escape(f[1..]), rest);
        }
        assert s[0] == f[0] && s[1..] == tail;
        ScanData(s, ScanState(fs, cur, true));
        ScanEscaped(f[1..], rest, fs, cur + [f[0]]);
        assert cur + [f[0]] + f[1..] == cur + f by {
          HeadTail(f);
          AppendAssoc(cur, [f[0]], f[1..]);
        }
      }
    }
  }

  lemma ScanQuoted(f: string, rest: string, fs: seq<string>, cur: string)
    requires |rest| == 0 || rest[0] == ','
    ensures Scan(Quote(f) + rest, ScanState(fs, cur, false)) == Scan(rest, ScanState(fs, cur + f, false))
  {
    var s := Quote(f) + rest;
    var t := "\"" + rest;
    assert s == "\"" + (Escape(f) + t);
    assert s[0] == '"' && s[1..] == Escape(f) + t;
    assert Scan(s, ScanState(fs, cur, false)) == Scan(Escape(f) + t, ScanState(fs, cur, true));
    ScanEscaped(f, t, fs, cur);
    assert t[0] == '"' && t[1..] == rest;
    assert Scan(t, ScanState(fs, cur + f, true)) == Scan(rest, ScanState(fs, cur + f, false));
  }

  lemma {:induction false} ScanJoinedQuotes(fields: seq<string>, fs: seq<string>)
    requires |fields| >= 1
    ensures Scan(Join(Quotes(fields), ','), ScanState(fs, "", false)) == fs + fields
    decreases |fields|
  {
    var qs := Quotes(fields);
    if |fields| == 1 {
      ScanQuoted(fields[0], "", fs, "");
      assert Join(qs, ',') == Quote(fields[0]) + "";
      assert "" + fields[0] == fields[0];
      assert [fields[0]] == fields;
    } else {
      var tail := Join(Quotes(fields[1..]), ',');
      assert Quotes(fields)[1..] == Quotes(fields[1..]);
      assert Join(qs, ',') == Quote(fields[0]) + ([','] + tail);
      ScanQuoted(fields[0], [','] + tail, fs, "");
      var t := [','] + tail;
      assert t[0] == ',' && t[1..] == tail;
      assert "" + fields[0] == fields[0];
      assert Scan(t, ScanState(fs, fields[0], false)) == Scan(tail, ScanState(fs + [fields[0]], "", false));
      ScanJoinedQuotes(fields[1..], fs + [fields[0]]);
      assert fs + [fields[0]] + fields[1..] == fs + fields;
    }
  }

  /** Writing any fields with RFC 4180 quoting and reading the line back gives
      the fields again: commas and doubled quotes inside quotes are data. */
  lemma QuotedRoundTrip(fields: seq<string>)
    requires |fields| >= 1
    ensures ParseFields(Join(Quotes(fields), ',')) == fields
  {
    ScanJoinedQuotes(fields, []);
    assert [] + fields == fields;
  }

  // ---------------------------------------------------------------------------
  // Quote characters in the output
  // ---------------------------------------------------------------------------

  lemma {:induction false} CountAppend(a: string, b: string, c: char)
    ensures Count(a + b, c) == Count(a, c) + Count(b, c)
    decreases |a|
  {
    if |a| == 0 {
      assert a + b == b;
    } else {
      CountAppend(a[1..], b, c);
      assert (a + b)[1..] == a[1..] + b;
    }
  }

  lemma {:induction false} ScanQuoteCount(rest: string, st: ScanState)
    ensures 2 * QuoteTotal(Scan(rest, st)) <= 2 * (QuoteTotal(st.fields) + Count(st.current, '"')) + Count(rest, '"')
    decreases |rest|
  {
    if |rest| == 0 {
      assert (st.fields + [st.current])[..|st.fields|] == st.fields;
    } else if rest[0] == '"' {
      if st.inQuotes && |rest| > 1 && rest[1] == '"' {
        ScanQuoteCount(rest[2..], st.(current := st.current + "\""));
        CountAppend(st.current, "\"", '"');
        assert Count(rest, '"') == 2 + Count(rest[2..], '"') by {
          assert rest[1..][1..] == rest[2..];
        }
      } else {
        ScanQuoteCount(rest[1..], st.(inQuotes := !st.inQuotes));
      }
    } else if rest[0] == ',' && !st.inQuotes {
      var fs := st.fields + [st.current];
      ScanQuoteCount(rest[1..], ScanState(fs, "", false));
      assert fs[..|st.fields|] == st.fields;
    } else {
      ScanQuoteCount(rest[1..], st.(current := st.current + [rest[0]]));
      CountAppend(st.current, [rest[0]], '"');
    }
  }

  /** Every quote in the output stands for two quotes of the line, so an
      unpaired quote never reaches a field. */
  lemma QuotesInOutput(line: string)
    ensures 2 * QuoteTotal(ParseFields(line)) <= Count(line, '"')
  {
    ScanQuoteCount(line, ScanState([], "", false));
  }

  // ---------------------------------------------------------------------------
  // Trimming
  // ---------------------------------------------------------------------------

  predicate AllTrimmed(fields: seq<string>) {
    forall k :: 0 <= k < |fields| ==> JsTrim(fields[k]) == fields[k]
  }

  lemma {:induction false} TrimAllTrimmed(fields: seq<string>)
    ensures AllTrimmed(TrimAll(fields))
  {
    if |fields| > 0 {
      var k := |fields| - 1;
      TrimAllTrimmed(fields[..k]);
      JsTrimIdempotent(fields[k]);
      var r := TrimAll(fields);
      assert r[..k] == TrimAll(fields[..k]);
      assert forall j :: 0 <= j < k ==> r[j] == r[..k][j];
    }
  }

  lemma {:induction false} TrimAllIndex(fields: seq<string>, j: nat)
    requires j < |fields|
    ensures TrimAll(fields)[j] == JsTrim(fields[j])
  {
    var k := |fields| - 1;
    if j < k {
      TrimAllIndex(fields[..k], j);
    }
  }

  lemma TrimAllSnoc(fields: seq<string>, f: string)
    ensures TrimAll(fields + [f]) == TrimAll(fields) + [JsTrim(f)]
  {
    assert (fields + [f])[..|fields|] == fields;
  }

  /** Fields that are already trimmed come back unchanged. */
  lemma {:induction false} TrimAllOfTrimmed(fields: seq<string>)
    requires AllTrimmed(fields)
    ensures TrimAll(fields) == fields
  {
    if |fields| > 0 {
      var k := |fields| - 1;
      assert AllTrimmed(fields[..k]) by {
        forall j | 0 <= j < k ensures JsTrim(fields[..k][j]) == fields[..k][j] {
          assert fields[..k][j] == fields[j];
        }
      }
      TrimAllOfTrimmed(fields[..k]);
      assert fields[..k] + [fields[k]] == fields;
    }
  }

  lemma {:induction false} CountSlice(s: string, a: nat, b: nat, c: char)
    requires a <= b <= |s|
    ensures Count(s[a..b], c) <= Count(s, c)
  {
    CountAppend(s[..a], s[a..], c);
    CountAppend(s[a..b], s[b..], c);
    assert s[..a] + s[a..] == s;
    assert s[a..][..b - a] + s[a..][b - a..] == s[a..];
    assert s[a..][..b - a] == s[a..b] && s[a..][b - a..] == s[b..];
  }

  /** Trimming never adds a quote. */
  lemma {:induction false} TrimAllQuotes(fields: seq<string>)
    ensures QuoteTotal(TrimAll(fields)) <= QuoteTotal(fields)
  {
    if |fields| > 0 {
      var k := |fields| - 1;
      TrimAllQuotes(fields[..k]);
      var a, b := JsTrimIsSlice(fields[k]);
      CountSlice(fields[k], a, b, '"');
      var r := TrimAll(fields);
      assert r[..k] == TrimAll(fields[..k]);
    }
  }

  /** The client reader: every field is trimmed, and with RFC 4180 quoting any
      trimmed fields survive writing and reading back. */
  lemma TrimmedQuotedRoundTrip(fields: seq<string>)
    requires |fields| >= 1 && AllTrimmed(fields)
    ensures TrimAll(ParseFields(Join(Quotes(fields), ','))) == fields
  {
    QuotedRoundTrip(fields);
    TrimAllOfTrimmed(fields);
  }

  /** The client reader keeps no more quotes than half the quotes of the line. */
  lemma TrimmedQuotesInOutput(line: string)
    ensures 2 * QuoteTotal(TrimAll(ParseFields(line))) <= Count(line, '"')
  {
    QuotesInOutput(line);
    TrimAllQuotes(ParseFields(line));
  }
}
