/** The id scraper and the route list of
    morinolab_hp/scripts/generate-static-pages.js: `readCSVIds` takes the
    first comma-separated column of every data line of a CSV file, and
    `generateStaticPages` prefixes the ids of the four content files with
    their routes. Reading a file is a parameter: its text, or None where
    `readFileSync` throws. */
module StaticPages {
  import opened Wrappers
  import opened Text
  import opened Seqs

  /** The first piece of a split is a prefix of the text, ended by the
      separator unless it is all of the text. */
  lemma FirstPiece(t: string, sep: char)
    ensures sep !in Split(t, sep)[0]
    ensures StartsWith(t, Split(t, sep)[0])
    ensures |Split(t, sep)[0]| < |t| ==> t[|Split(t, sep)[0]|] == sep
  {
    var parts := Split(t, sep);
    SplitJoin(t, sep);
    JoinStartsWith(parts, sep);
    if |parts| > 1 {
      assert Join(parts, sep) == parts[0] + [sep] + Join(parts[1..], sep);
    }
  }

  /** `line.trim().split(',')[0]`: the trimmed line up to its first comma. */
  function FirstColumn(line: string): (id: string)
    ensures ',' !in id
    ensures StartsWith(JsTrim(line), id)
    ensures |id| < |JsTrim(line)| ==> JsTrim(line)[|id|] == ','
  {
    FirstPiece(JsTrim(line), ',');
    Split(JsTrim(line), ',')[0]
  }

  /** The id a data line contributes: none for a blank line, an empty first
      column or the literal "id". */
  function LineId(line: string): (r: Option<string>)
    ensures r.Some? ==> r.value == FirstColumn(line) && r.value != "" && r.value != "id"
    ensures r.None? <==> FirstColumn(line) == "" || FirstColumn(line) == "id"
  {
    if JsTrim(line) == "" then None
    else
      var id := FirstColumn(line);
      if id != "" && id != "id" then Some(id) else None
  }

  /** The ids of the data lines, in file order. */
  function LineIds(lines: seq<string>): (ids: seq<string>)
    ensures |ids| <= |lines|
    decreases |lines|
  {
    if |lines| == 0 then []
    else
      var init := lines[..|lines| - 1];
      var r := LineId(lines[|lines| - 1]);
      LineIds(init) + if r.Some? then [r.value] else []
  }

  /** No listed id is empty, the literal "id", or holds a comma. */
  lemma {:induction false} LineIdsWellFormed(lines: seq<string>)
    ensures forall x :: x in LineIds(lines) ==> x != "" && x != "id" && ',' !in x
    decreases |lines|
  {
    if |lines| > 0 {
      LineIdsWellFormed(lines[..|lines| - 1]);
    }
  }

  /** The ids of joined line lists are joined in order. */
  lemma {:induction false} LineIdsAppend(a: seq<string>, b: seq<string>)
    ensures LineIds(a + b) == LineIds(a) + LineIds(b)
    decreases |b|
  {
    if |b| == 0 {
      assert a + b == a;
    } else {
      var init := b[..|b| - 1];
      assert (a + b)[..|a + b| - 1] == a + init;
      assert (a + b)[|a + b| - 1] == b[|b| - 1];
      LineIdsAppend(a, init);
    }
  }

  /** Every listed id comes from a line. */
  lemma {:induction false} LineIdSource(lines: seq<string>, x: string) returns (k: nat)
    requires x in LineIds(lines)
    ensures k < |lines| && LineId(lines[k]) == Some(x)
    decreases |lines|
  {
    var init := lines[..|lines| - 1];
    var last := lines[|lines| - 1];
    if x in LineIds(init) {
      k := LineIdSource(init, x);
      assert lines[k] == init[k];
    } else {
      k := |lines| - 1;
    }
  }

  /** Every line's id is listed. */
  lemma LineIdListed(lines: seq<string>, k: nat)
    requires k < |lines| && LineId(lines[k]).Some?
    ensures LineId(lines[k]).value in LineIds(lines)
  {
    var before, after := lines[..k], lines[k + 1..];
    Around(lines, k);
    LineIdsAppend(before + [lines[k]], after);
    LineIdsAppend(before, [lines[k]]);
    assert LineIds([lines[k]]) == [LineId(lines[k]).value] by {
      assert [lines[k]][..0] == [];
    }
  }

  /** One more data line adds its own id, if any, at the end. */
  lemma LineIdsStep(lines: seq<string>, i: nat)
    requires 1 <= i < |lines|
    ensures LineIds(lines[1..i + 1]) ==
      LineIds(lines[1..i]) + if LineId(lines[i]).Some? then [LineId(lines[i]).value] else []
  {
    assert lines[1..i + 1][..i - 1] == lines[1..i];
  }

  /** The ids of a CSV text: the lines after the first, split at '\n'. */
  function CsvIds(content: string): seq<string> {
    LineIds(Split(content, '\n')[1..])
  }

  /** The header line never contributes an id, whatever it holds: the ids
      depend only on the text after the first line break. */
  lemma HeaderNeverCounts(header: string, body: string)
    requires '\n' !in header
    ensures CsvIds(header + "\n" + body) == LineIds(Split(body, '\n'))
  {
    SplitAfterPiece(header, '\n', body);
    assert header + "\n" + body == header + ['\n'] + body;
  }

  /** `readCSVIds(csvPath)`, with the loop from the second line on. */
  method ReadCsvIds(content: Option<string>) returns (ids: seq<string>)
    ensures content.None? ==> ids == []
    ensures content.Some? ==> ids == CsvIds(content.value)
  {
    if content.None? {
      return [];
    }
    var lines := Split(content.value, '\n');
    ids := [];
    var i := 1;
    while i < |lines|
      invariant 1 <= i <= |lines|
      invariant ids == LineIds(lines[1..i])
    {
      var line := JsTrim(lines[i]);
      LineIdsStep(lines, i);
      if line != "" {
        var id := FirstColumn(lines[i]);
        if id != "" && id != "id" {
          ids := ids + [id];
        }
      }
      i := i + 1;
    }
    assert lines[1..i] == lines[1..];
  }

  /** The ids of one content file, prefixed with its route. */
  function Routed(route: string, ids: seq<string>): (pages: seq<string>)
    ensures |pages| == |ids|
    ensures forall k :: 0 <= k < |ids| ==> pages[k] == route + ids[k]
  {
    seq(|ids|, k requires 0 <= k < |ids| => route + ids[k])
  }

  /** The `staticPages` list: news, lectures, publications and team, in that order. */
  function PageList(newsIds: seq<string>, lectureIds: seq<string>, publicationIds: seq<string>,
                    memberIds: seq<string>): (pages: seq<string>)
    ensures |pages| == |newsIds| + |lectureIds| + |publicationIds| + |memberIds|
  {
    Routed("/news/", newsIds) + Routed("/lectures/", lectureIds)
      + Routed("/publications/", publicationIds) + Routed("/team/", memberIds)
  }

  /** `generateStaticPages()` over the texts of news.csv, lecture.csv,
      publication.csv and member.csv. */
  method GenerateStaticPages(newsCsv: Option<string>, lectureCsv: Option<string>, publicationCsv: Option<string>,
                             memberCsv: Option<string>) returns (pages: seq<string>)
    ensures pages == PageList(if newsCsv.Some? then CsvIds(newsCsv.value) else [],
                              if lectureCsv.Some? then CsvIds(lectureCsv.value) else [],
                              if publicationCsv.Some? then CsvIds(publicationCsv.value) else [],
                              if memberCsv.Some? then CsvIds(memberCsv.value) else [])
  {
    var newsIds := ReadCsvIds(newsCsv);
    var lectureIds := ReadCsvIds(lectureCsv);
    var publicationIds := ReadCsvIds(publicationCsv);
    var memberIds := ReadCsvIds(memberCsv);
    pages := PageList(newsIds, lectureIds, publicationIds, memberIds);
  }

  predicate NoDuplicates(s: seq<string>) {
    forall i, j :: 0 <= i < j < |s| ==> s[i] != s[j]
  }

  /** Prefixing keeps distinct ids distinct. */
  lemma RoutedNoDuplicates(route: string, ids: seq<string>)
    requires NoDuplicates(ids)
    ensures NoDuplicates(Routed(route, ids))
  {
    var pages := Routed(route, ids);
    forall i, j | 0 <= i < j < |pages| ensures pages[i] != pages[j] {
      assert pages[i][|route|..] == ids[i] && pages[j][|route|..] == ids[j];
    }
  }

  /** Lists whose pages differ at the same position join without duplicates. */
  lemma JoinNoDuplicates(a: seq<string>, b: seq<string>, ca: char, cb: char)
    requires NoDuplicates(a) && NoDuplicates(b) && ca != cb
    requires forall k :: 0 <= k < |a| ==> |a[k]| > 1 && a[k][1] != cb
    requires forall k :: 0 <= k < |b| ==> |b[k]| > 1 && b[k][1] == cb
    ensures NoDuplicates(a + b)
  {
    var s := a + b;
    forall i, j | 0 <= i < j < |s| ensures s[i] != s[j] {
      if i < |a| && j >= |a| {
        assert s[j] == b[j - |a|];
      } else if i >= |a| {
        assert s[i] == b[i - |a|] && s[j] == b[j - |a|];
      }
    }
  }

  /** No page is listed twice while no file lists an id twice: the four
      routes start differently. */
  lemma PageListNoDuplicates(newsIds: seq<string>, lectureIds: seq<string>, publicationIds: seq<string>,
                             memberIds: seq<string>)
    requires NoDuplicates(newsIds) && NoDuplicates(lectureIds) && NoDuplicates(publicationIds) && NoDuplicates(memberIds)
    ensures NoDuplicates(PageList(newsIds, lectureIds, publicationIds, memberIds))
  {
    var n := Routed("/news/", newsIds);
    var l := Routed("/lectures/", lectureIds);
    var p := Routed("/publications/", publicationIds);
    var t := Routed("/team/", memberIds);
    RoutedNoDuplicates("/news/", newsIds);
    RoutedNoDuplicates("/lectures/", lectureIds);
    RoutedNoDuplicates("/publications/", publicationIds);
    RoutedNoDuplicates("/team/", memberIds);
    assert forall k :: 0 <= k < |n| ==> n[k][1] == 'n';
    assert forall k :: 0 <= k < |l| ==> l[k][1] == 'l';
    assert forall k :: 0 <= k < |p| ==> p[k][1] == 'p';
    assert forall k :: 0 <= k < |t| ==> t[k][1] == 't';
    JoinNoDuplicates(n, l, 'n', 'l');
    var nl := n + l;
    assert forall k :: 0 <= k < |nl| ==> |nl[k]| > 1 && nl[k][1] != 'p' by {
      forall k | 0 <= k < |nl| ensures |nl[k]| > 1 && nl[k][1] != 'p' {
        if k >= |n| {
          assert nl[k] == l[k - |n|];
        }
      }
    }
    JoinNoDuplicates(nl, p, 'l', 'p');
    var nlp := nl + p;
    assert forall k :: 0 <= k < |nlp| ==> |nlp[k]| > 1 && nlp[k][1] != 't' by {
      forall k | 0 <= k < |nlp| ensures |nlp[k]| > 1 && nlp[k][1] != 't' {
        if k >= |nl| {
          assert nlp[k] == p[k - |nl|];
        }
      }
    }
    JoinNoDuplicates(nlp, t, 'p', 't');
  }
}
