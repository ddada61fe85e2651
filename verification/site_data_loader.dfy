/** The helpers that morinolab_hp/src/app/dataLoader.tsx adds to the shared
    reader (its `parseLine`, `parseCSV` and `parseIdList` are those of module
    DataLoader): thumbnail path resolution and the lecture type default. The
    `NEXT_PUBLIC_BASE_PREFIX` environment variable is a parameter. */
module SiteDataLoader {
  import opened Wrappers
  import opened Text
  import opened JsValues

  /** `${process.env.NEXT_PUBLIC_BASE_PREFIX}`: an unset variable renders as "undefined". */
  function PrefixText(basePrefix: Option<string>): string {
    match basePrefix
    case None => "undefined"
    case Some(p) => p
  }

  /** `/^(https?:)?\//.test(t) || t.startsWith("./")`: an absolute path, an
      `http:`/`https:` URL, or a path relative to the page. */
  predicate KeptAsIs(t: string) {
    StartsWith(t, "/") || StartsWith(t, "http:/") || StartsWith(t, "https:/") || StartsWith(t, "./")
  }

  /** `resolveThumbnail(filename, subDir)`. */
  function ResolveThumbnail(filename: Option<string>, subDir: string, basePrefix: Option<string>): (r: Option<string>)
    ensures r.None? <==> filename.None? || AllJsSpace(filename.value)
    ensures r.Some? && KeptAsIs(JsTrim(filename.value)) ==> r.value == JsTrim(filename.value)
    ensures r.Some? && !KeptAsIs(JsTrim(filename.value)) ==>
      r.value == PrefixText(basePrefix) + "/generated_contents/" + subDir + "/" + JsTrim(filename.value)
  {
    if filename.None? || filename.value == "" then
      None
    else
      var trimmed := JsTrim(filename.value);
      JsTrimEmptyIff(filename.value);
      if trimmed == "" then None
      else if KeptAsIs(trimmed) then Some(trimmed)
      else Some(PrefixText(basePrefix) + "/generated_contents/" + subDir + "/" + trimmed)
  }

  /** A resolved path is never blank and never has surrounding white space. */
  lemma ResolvedIsTrimmed(filename: Option<string>, subDir: string, basePrefix: Option<string>)
    requires basePrefix.Some? && (basePrefix.value == "" || StartsWith(basePrefix.value, "/"))
    requires ResolveThumbnail(filename, subDir, basePrefix).Some?
    ensures var r := ResolveThumbnail(filename, subDir, basePrefix).value;
      r != "" && JsTrim(r) == r && KeptAsIs(r)
  {
    var t := JsTrim(filename.value);
    JsTrimIdempotent(filename.value);
    JsTrimEmptyIff(filename.value);
    var r := ResolveThumbnail(filename, subDir, basePrefix).value;
    if !KeptAsIs(t) {
      var p := basePrefix.value;
      assert t != "";
      JsTrimSolidEnds(filename.value);
      assert r[|r| - 1] == t[|t| - 1];
      if p == "" {
        assert r == "/generated_contents/" + subDir + "/" + t;
      }
      assert r[0] == '/';
      assert r[..1] == "/";
      TrimKeepsSolidEnds(r);
    }
  }

  /** Resolving an already resolved path changes nothing. */
  lemma ResolveIdempotent(filename: Option<string>, subDir: string, basePrefix: Option<string>)
    requires basePrefix.Some? && (basePrefix.value == "" || StartsWith(basePrefix.value, "/"))
    requires ResolveThumbnail(filename, subDir, basePrefix).Some?
    ensures var r := ResolveThumbnail(filename, subDir, basePrefix);
      ResolveThumbnail(r, subDir, basePrefix) == r
  {
    ResolvedIsTrimmed(filename, subDir, basePrefix);
    var r := ResolveThumbnail(filename, subDir, basePrefix).value;
    JsTrimEmptyIff(r);
  }

  const DefaultLectureType: string := "専門講義"

  /** `r.type || "専門講義"` in `loadLectures`. */
  function LectureType(cell: Option<string>): (t: string)
    ensures t != ""
    ensures cell.Some? && cell.value != "" ==> t == cell.value
    ensures cell.None? || cell.value == "" ==> t == DefaultLectureType
  {
    if Truthy(OptStr(cell)) then cell.value else DefaultLectureType
  }
}
