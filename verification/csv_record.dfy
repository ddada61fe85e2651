/** The object a site CSV reader builds for one data line: the `forEach` over
    the header names that sets `obj[header]` to the cell in the same column, or
    to the empty string when the line is shorter than the header. Shared by
    `parseCSVContent` in morinolab_hp/lib/client-content-loader.ts and the two
    dataLoader `parseCSV` copies (`values[i] || ''` and `values[idx] ?? ""`
    agree on strings). */
module CsvRecord {
  import opened Text
  import opened CsvLine

  /** A parsed row: header name to cell text. */
  type Row = map<string, string>

  /** `values[i] || ''`: the i-th value, or '' past the end of the line. */
  function ValueAt(values: seq<string>, i: nat): string {
    if i < |values| then values[i] else ""
  }

  /** The object the `headers.forEach` fills: header i is set to value i, and a
      later header of the same name overwrites an earlier one. */
  function RowObject(headers: seq<string>, values: seq<string>): (obj: Row)
    ensures obj.Keys == set h | h in headers
    decreases |headers|
  {
    if |headers| == 0 then map[]
    else
      var k := |headers| - 1;
      var before := RowObject(headers[..k], values);
      assert forall h :: h in headers <==> h in headers[..k] || h == headers[k];
      before[headers[k] := ValueAt(values, k)]
  }

  /** The value under a header is that of its last column: the cell of the
      line when the line reaches it, and '' otherwise. */
  lemma {:induction false} RowObjectLookup(headers: seq<string>, values: seq<string>, j: nat)
    requires j < |headers| && headers[j] !in headers[j + 1..]
    ensures RowObject(headers, values)[headers[j]] == ValueAt(values, j)
    decreases |headers|
  {
    var k := |headers| - 1;
    var init := headers[..k];
    var before := RowObject(init, values);
    assert RowObject(headers, values) == before[headers[k] := ValueAt(values, k)];
    if j < k {
      var after := headers[j + 1..];
      assert headers[k] != headers[j] by {
        assert headers[k] == after[k - j - 1];
      }
      assert headers[j] !in init[j + 1..] by {
        var mid := init[j + 1..];
        forall m | 0 <= m < |mid| ensures mid[m] != headers[j] {
          assert mid[m] == after[m];
        }
      }
      assert init[j] == headers[j];
      RowObjectLookup(init, values, j);
    }
  }

  /** Every value of a row is one of the line's values or ''. */
  lemma {:induction false} RowObjectValues(headers: seq<string>, values: seq<string>)
    ensures forall h :: h in RowObject(headers, values) ==> RowObject(headers, values)[h] == "" || RowObject(headers, values)[h] in values
    decreases |headers|
  {
    if |headers| > 0 {
      RowObjectValues(headers[..|headers| - 1], values);
    }
  }

  /** The `forEach` over the headers. */
  method BuildRow(headers: seq<string>, values: seq<string>) returns (obj: Row)
    ensures obj == RowObject(headers, values)
  {
    obj := map[];
    for i := 0 to |headers|
      invariant obj == RowObject(headers[..i], values)
    {
      assert headers[..i + 1][..i] == headers[..i];
      obj := obj[headers[i] := if i < |values| then values[i] else ""];
    }
    assert headers[..|headers|] == headers;
  }

  /** A row built from trimmed values holds only trimmed text. */
  lemma {:induction false} RowObjectTrimmed(headers: seq<string>, values: seq<string>)
    requires AllTrimmed(values)
    ensures forall h :: h in RowObject(headers, values) ==> JsTrim(RowObject(headers, values)[h]) == RowObject(headers, values)[h]
    decreases |headers|
  {
    if |headers| > 0 {
      var k := |headers| - 1;
      RowObjectTrimmed(headers[..k], values);
      assert JsTrim("") == "";
      assert JsTrim(ValueAt(values, k)) == ValueAt(values, k);
    }
  }
}
