# morinolab_hp content pipeline, modelled in Dafny

This project models the content pipeline of the Morino Lab web site and its desktop CMS, and proves properties of that model:

- **Workbook extractor** (`src/scripts/gen_contents_db.py`). Every worksheet of the content workbook becomes a CSV file. A row is kept when its id is not blank. A thumbnail is found through a fallback chain: an embedded picture, then an image file named in the cell, then the next image of the workbook's media folder, then nothing. The media cursor is shared by all sheets (`WorkbookExtractor`, `WorkbookExtractorProps`).
- **Content validator** (`scripts/validate_contents_db.py`). It checks the generated CSV files against a fixed schema table in two passes. The first pass collects the ids of every dataset. The second pass checks each row for blank or duplicate ids, blank required fields, missing article files and foreign keys that do not resolve. The exit status is 1 exactly when there is a finding (`ContentValidator`, `ContentValidatorProps`).
- **CSV readers of the sites**:
  - the quote-aware line scanner shared by `parseCSVLine` and both `parseLine` copies (`CsvLine`);
  - the row objects built from a header (`CsvRecord`);
  - `parseCSVContent` and the base-path helpers (`ClientContentLoader`);
  - both `dataLoader.tsx` files (`DataLoader`, `SiteDataLoader`);
  - the regex-based `simpleCsvParse` of `src/app/data.tsx` (`SiteData`);
  - the id scraper of `generate-static-pages.js` (`StaticPages`).
- **Value coercions**: `toBool`, `parseNumList`, `imgPath` (`SiteData`); `src/lib/safeParse.ts` (`SafeParse`); `getLocalized` (`Localize`); JavaScript `Number`, `String` and `parseInt` (`JsValues`).
- **CMS**. The listings, item creation and deletion, and table edits of the local `ContentRepository` (`Repository`) and of the `ContentService` (`Service`). The IPC handlers of the Electron main process (`CmsMain`). The shared id arithmetic (`ItemIds`). All of them work in place on a file system object (`CmsDisk.Disk`). The OAuth settings check is in `GitHubConfig`.
- **Members page**: grade labels, the alumni/current split and the grouping by grade (`Members`).

The model stands in for the outside world with parameters:

- The file system of the CMS is a `Disk` class whose methods change its fields.
- Papa Parse is a `CsvCodec` pair of functions, and gray-matter is a function giving an article's title or nothing.
- For the Python scripts, the files, the embedded pictures, the media images and the MD5 digest are inputs. Whether an image opens is a flag on its bytes.
- The browser location, environment variables and the current year are parameters.
- A Python or JavaScript exception is an `Option`/`Result` failure.

Where the two disagree, the model follows the code:

- A read failure does not stop the validator. But a row whose id or required field is missing, because the row is shorter than the header, makes `validate_dataset` raise. That dataset then contributes one exception finding instead of its own findings.
- In the extractor, an unopenable media image is not caught, so it stops the whole run after the files already written.

## Model

| member | source | states |
|---|---|---|
| ClientContentLoader.GetBasePath | morinolab_hp/lib/client-content-loader.ts:2-19 | the base path is only ever "/morinolab_hp" or "" |
| ClientContentLoader.BrowserUnderPrefix | morinolab_hp/lib/client-content-loader.ts:4-9 | in a browser whose pathname is "/morinolab_hp" or lies below "/morinolab_hp/", the base is "/morinolab_hp" whatever the query string and the environment say |
| ClientContentLoader.ServerUsesEnvironment | morinolab_hp/lib/client-content-loader.ts:17-18 | with no window, the base is "/morinolab_hp" exactly when `BASEPATH_ENABLED` is the string "true" |
| ClientContentLoader.StaticPath | morinolab_hp/lib/client-content-loader.ts:22-29 | the result starts with the base and ends with the path; it is the path itself when the base is non-empty and already heads it, and base + path when it does not head it |
| ClientContentLoader.GetStaticPath | morinolab_hp/lib/client-content-loader.ts:22-29 | every static path starts with the base path of the same environment |
| ClientContentLoader.StaticPathIdempotent | morinolab_hp/lib/client-content-loader.ts:24-28 | prefixing an already prefixed path changes nothing: applying `getStaticPath` twice equals applying it once |
| ClientContentLoader.ParseCsvLine | morinolab_hp/lib/client-content-loader.ts:184-218 | the while loop returns the quote-aware fields of the line, each trimmed; there are (commas outside quotes) + 1 of them |
| ClientContentLoader.ParseCsvContent | morinolab_hp/lib/client-content-loader.ts:157-181 | the result is one object per line after the first of the trimmed text, each mapping the trimmed header fields to that line's trimmed fields |
| ClientContentLoader.ContentRows | morinolab_hp/lib/client-content-loader.ts:169-177 | the `rows.map` over the lines after the header builds exactly the rows of the whole-content definition, in line order |
| ClientContentLoader.ContentRowCount | morinolab_hp/lib/client-content-loader.ts:160-170 | there are as many rows as line breaks in the trimmed text; fewer than two lines give [], otherwise lines − 1 rows |
| ClientContentLoader.ContentRowIs | morinolab_hp/lib/client-content-loader.ts:170-176 | row k is the header-to-value object of line k + 1 |
| ClientContentLoader.ContentRowShape | morinolab_hp/lib/client-content-loader.ts:172-175 | every row has exactly the header names as keys, and every value is trimmed |
| CsvLine.TrimAll | morinolab_hp/lib/client-content-loader.ts:205 | trimming every field keeps the number of fields |
| CsvLine.ScanCount | morinolab_hp/lib/client-content-loader.ts:190-215 | from any scanner state, the fields produced are the ones already pushed, plus one per comma outside quotes in the rest, plus the final one |
| CsvLine.FieldCount | src/app/dataLoader.tsx:17-41 | a line yields (commas outside quotes) + 1 fields |
| CsvLine.ScanComma | src/app/dataLoader.tsx:31-35 | a comma outside quotes pushes the current field and starts an empty one |
| CsvLine.ScanData | src/app/dataLoader.tsx:37 | any other character, and a comma inside quotes, is appended to the current field |
| CsvLine.ScanPair | src/app/dataLoader.tsx:20-24 | inside quotes, a doubled quote appends one quote and skips both characters |
| CsvLine.ScanToggle | src/app/dataLoader.tsx:25-27 | any other quote only flips the in-quotes state and is not emitted |
| CsvLine.SplitFrom | src/app/dataLoader.tsx:12-42 | the unquoted split of the rest of a line, continuing a current field, has at least one piece |
| CsvLine.SplitFromEmpty | src/app/dataLoader.tsx:12-42 | continuing an empty field is a plain split at commas |
| CsvLine.SplitFromNil | src/app/dataLoader.tsx:40 | at the end of the line the current field is the last field |
| CsvLine.SplitFromComma | src/app/dataLoader.tsx:31-35 | a comma ends the current field and the rest splits on its own |
| CsvLine.SplitFromChar | src/app/dataLoader.tsx:37 | a non-comma character joins the current field |
| CsvLine.UnquotedCommaStep | src/app/dataLoader.tsx:31-35 | the comma step of the scanner agrees with the comma step of the plain split |
| CsvLine.UnquotedDataStep | src/app/dataLoader.tsx:37 | the data step of the scanner agrees with the data step of the plain split |
| CsvLine.ScanUnquoted | src/app/dataLoader.tsx:17-41 | on text without quotes the scanner is the plain split at commas, continued from its state |
| CsvLine.UnquotedLineIsSplit | src/app/dataLoader.tsx:12-42 | a line without quotes parses to exactly its comma-separated pieces |
| CsvLine.ScanEscaped | src/app/dataLoader.tsx:20-24 | inside quotes, the escaped form of a field (every quote doubled) is read back as the field itself |
| CsvLine.ScanQuoted | src/app/dataLoader.tsx:17-38 | a field written in RFC 4180 quotes, followed by a comma or the end, is read back as the field |
| CsvLine.ScanJoinedQuotes | src/app/dataLoader.tsx:17-41 | a comma-joined list of quoted fields is read back, field by field, after the fields already pushed |
| CsvLine.QuotedRoundTrip | src/app/dataLoader.tsx:12-42 | parsing the RFC 4180 quoted and comma-joined form of any non-empty field list gives back that list: commas and quotes inside quotes are kept as data |
| CsvLine.CountAppend | src/app/dataLoader.tsx:20-29 | quote counts add up over a concatenation |
| CsvLine.ScanQuoteCount | src/app/dataLoader.tsx:20-29 | each quote in the output is paid for by two quotes of the input |
| CsvLine.QuotesInOutput | src/app/dataLoader.tsx:20-29 | the fields of a line hold at most half as many quotes as the line: an unpaired quote never reaches the output |
| CsvLine.TrimAllTrimmed | morinolab_hp/lib/client-content-loader.ts:205 | every trimmed field is trimmed |
| CsvLine.TrimAllIndex | morinolab_hp/lib/client-content-loader.ts:205 | the k-th trimmed field is the trim of the k-th field |
| CsvLine.TrimAllSnoc | morinolab_hp/lib/client-content-loader.ts:215 | trimming a list with one more field trims that field at the end |
| CsvLine.TrimAllOfTrimmed | morinolab_hp/lib/client-content-loader.ts:205 | trimming already trimmed fields changes nothing |
| CsvLine.CountSlice | morinolab_hp/lib/client-content-loader.ts:205 | a slice holds no more quotes than the text it is cut from |
| CsvLine.TrimAllQuotes | morinolab_hp/lib/client-content-loader.ts:205 | trimming never adds quotes |
| CsvLine.TrimmedQuotedRoundTrip | morinolab_hp/lib/client-content-loader.ts:184-218 | the client's trimming parser gives back any non-empty list of already trimmed fields from its quoted, comma-joined form |
| CsvLine.TrimmedQuotesInOutput | morinolab_hp/lib/client-content-loader.ts:193-202 | the client's fields hold at most half as many quotes as the line |
| CsvRecord.RowObject | src/app/dataLoader.tsx:56-59 | the object built from the headers has exactly the header names as keys |
| CsvRecord.RowObjectLookup | src/app/dataLoader.tsx:57-59 | a header maps to the cell at its last position, or "" when the line is shorter: a later duplicate header overwrites an earlier one |
| CsvRecord.RowObjectValues | morinolab_hp/lib/client-content-loader.ts:173-175 | every value of the object is "" or one of the line's cells |
| CsvRecord.BuildRow | morinolab_hp/lib/client-content-loader.ts:172-176 | the `headers.forEach` loop builds exactly the header-to-cell object |
| CsvRecord.RowObjectTrimmed | morinolab_hp/lib/client-content-loader.ts:171-175 | when every cell is trimmed, every value of the object is trimmed |
| DataLoader.ParseLine | src/app/dataLoader.tsx:12-42 | the for loop returns the quote-aware fields of the line, untrimmed; there are (commas outside quotes) + 1 of them |
| DataLoader.ParseLineKeepsSpaces | src/app/dataLoader.tsx:12-42 | a cell without quotes or commas comes back whole, surrounding spaces included |
| DataLoader.DropCr | src/app/dataLoader.tsx:48 | a piece loses at most one trailing carriage return |
| DataLoader.SplitLines | src/app/dataLoader.tsx:48 | splitting at `/\r?\n/` gives one more piece than the text has line feeds |
| DataLoader.SplitLinesWithoutCr | src/app/dataLoader.tsx:48 | without carriage returns the split is the split at '\n' |
| DataLoader.CrLfEndsLine | src/app/dataLoader.tsx:48 | "\r\n" ends a line just as "\n" does: the carriage return is not part of the line |
| DataLoader.CharOfSplitPiece | src/app/dataLoader.tsx:48 | every character of a split piece is a character of the text |
| DataLoader.NonBlank | src/app/dataLoader.tsx:48 | dropping the blank lines never adds lines |
| DataLoader.NonBlankKeeps | src/app/dataLoader.tsx:48 | the kept lines are exactly the lines that are not empty after trimming, and none of them is blank |
| DataLoader.DataLines | src/app/dataLoader.tsx:48 | there are at most (line feeds + 1) non-blank lines |
| DataLoader.RowsOf | src/app/dataLoader.tsx:49-63 | no lines or a header line alone give []; otherwise there is one row per line after the header |
| DataLoader.TrimFields | src/app/dataLoader.tsx:51 | the header names are the header line's fields, each trimmed |
| DataLoader.ParseRow | src/app/dataLoader.tsx:55-60 | one data line becomes the object of the header names to its untrimmed cells |
| DataLoader.ParseCsv | src/app/dataLoader.tsx:47-64 | `parseCSV` returns exactly the rows of the non-blank lines of the text after its header line |
| DataLoader.ParseRows | src/app/dataLoader.tsx:54-62 | the for loop from line 1 pushes exactly the rows of the definition, in line order |
| DataLoader.CsvRowCount | src/app/dataLoader.tsx:48-63 | text with no non-blank line, or only a header line, gives []; otherwise there is one row per remaining non-blank line, never more than the text's line feeds |
| DataLoader.BlankContentHasNoRows | src/app/dataLoader.tsx:48-49 | text made only of whitespace parses to [] |
| DataLoader.RowsOfIs | src/app/dataLoader.tsx:55-60 | row k is the object of the trimmed headers to the cells of line k + 1 |
| DataLoader.CsvRowIs | src/app/dataLoader.tsx:54-61 | row k of the text comes from its (k + 1)-th non-blank line |
| DataLoader.CsvRowKeys | src/app/dataLoader.tsx:57-59 | every row has every header name as a key, and no other key |
| DataLoader.CsvRowValue | src/app/dataLoader.tsx:58 | the last column named h holds the cell at its position, or "" when the line has fewer cells |
| DataLoader.ParseBool | src/app/dataLoader.tsx:107-110 | true exactly when a value is given and it trims to "true", "1", "yes", "y", "True" or "TRUE"; `undefined` is never true |
| DataLoader.ParseBoolIgnoresSpace | src/app/dataLoader.tsx:109 | surrounding whitespace does not change the answer |
| DataLoader.ParseBoolRejects | src/app/dataLoader.tsx:107-110 | `undefined` and "Yes" are false, while "true", "1", "yes", "y", "True" and "TRUE" are true |
| DataLoader.Numbers | src/app/dataLoader.tsx:116 | `Number` is applied to every token |
| DataLoader.DropNaN | src/app/dataLoader.tsx:117 | the filter keeps exactly the numbers that are not NaN, never more of them |
| DataLoader.ParseIdList | src/app/dataLoader.tsx:112-117 | `parseIdList` never returns NaN |
| DataLoader.NatStrings | src/app/dataLoader.tsx:112-117 | one decimal text per id |
| DataLoader.Finites | src/app/dataLoader.tsx:116 | one finite number per id |
| DataLoader.DropNaNNone | src/app/dataLoader.tsx:117 | a list without NaN passes the filter unchanged |
| DataLoader.IdListRoundTrip | src/app/dataLoader.tsx:112-117 | a comma-joined list of decimal ids parses back to those ids in order |
| DataLoader.BlankIdList | src/app/dataLoader.tsx:112-117 | `undefined` and whitespace-only text give []: empty tokens are skipped |
| SiteDataLoader.ResolveThumbnail | morinolab_hp/src/app/dataLoader.tsx:127-138 | undefined, empty and whitespace-only input give undefined; a trimmed value starting with "/", "http:/", "https:/" or "./" is returned as it is; any other trimmed value becomes `<prefix>/generated_contents/<subDir>/<value>` |
| SiteDataLoader.ResolvedIsTrimmed | morinolab_hp/src/app/dataLoader.tsx:127-138 | when the prefix is "" or an absolute path, a resolved thumbnail is non-empty, trimmed and of the kept-as-is kind |
| SiteDataLoader.ResolveIdempotent | morinolab_hp/src/app/dataLoader.tsx:134-137 | under such a prefix, resolving a resolved thumbnail again changes nothing |
| SiteDataLoader.LectureType | morinolab_hp/src/app/dataLoader.tsx:217 | the lecture type is the cell when it is non-empty and "専門講義" when it is missing or empty; it is never empty |
| SiteData.QuoteSplit | src/app/data.tsx:8 | the lookahead split yields at least one piece |
| SiteData.StripQuotes | src/app/data.tsx:9 | the quote-stripping `replace` removes at most one character from each end |
| SiteData.Cells | src/app/data.tsx:11-13 | one cleaned cell per piece of the split |
| SiteData.SimpleLines | src/app/data.tsx:5 | the trimmed text always has at least one line |
| SiteData.SimpleRowsOf | src/app/data.tsx:10-19 | one object per line after the first |
| SiteData.SimpleCsvParse | src/app/data.tsx:4-20 | `simpleCsvParse` returns exactly the rows of the definition: per line after the first, the object of the cleaned header names to the cleaned cells |
| SiteData.SimpleRowCount | src/app/data.tsx:5-10 | there are as many rows as line feeds in the trimmed text, so empty or header-only input gives [] |
| SiteData.SimpleRowIs | src/app/data.tsx:10-18 | row k is the object of the header cells to the cells of line k + 1 |
| SiteData.SimpleRowShape | src/app/data.tsx:15-17 | every row has exactly the header names as keys; the last column named h holds the cell at its position, or "" when the line is shorter |
| SiteData.QuoteSplitUnquoted | src/app/data.tsx:8 | without quotes the lookahead split is the plain split at commas |
| SiteData.CountNone | src/app/data.tsx:8 | text without quotes counts no quotes |
| SiteData.QuoteSplitStep | src/app/data.tsx:8 | a comma splits exactly when an even number of quotes follows it up to the end of the line; any other character joins the first piece |
| SiteData.ProtectedTail | src/app/data.tsx:8 | a protected prefix stays protected without its first character |
| SiteData.QuoteSplitProtected | src/app/data.tsx:8 | text whose every comma is followed by an odd number of quotes up to the end joins the first piece of what follows: its commas do not split |
| SiteData.Wraps | src/app/data.tsx:8-9 | wrapping keeps the number of cells |
| SiteData.WrapProtected | src/app/data.tsx:8 | the commas inside a quoted cell do not split when an even number of quotes follows the cell |
| SiteData.WrapsQuoteCount | src/app/data.tsx:8 | a line of quoted, quote-free cells holds two quotes per cell |
| SiteData.StripWrap | src/app/data.tsx:9 | cleaning a quoted cell gives back the cell |
| SiteData.QuoteSplitWraps | src/app/data.tsx:8 | a line of quoted, quote-free cells splits into exactly those quoted cells: commas inside balanced quotes are kept |
| SiteData.QuotedCellsRoundTrip | src/app/data.tsx:11-13 | the cleaned cells of such a line are the original cells, trimmed |
| SiteData.DoubledQuoteKept | src/app/data.tsx:9 | a doubled quote is not unescaped: `"a""b"` cleans to `a""b` |
| SiteData.NumNotTrue | src/app/data.tsx:94 | no number prints as "true" |
| SiteData.LowerWords | src/app/data.tsx:94 | "true" lowercases to itself; "false", "null" and "undefined" do not become "true" |
| SiteData.ToBoolIff | src/app/data.tsx:94 | `toBool` is true exactly for the boolean true and for strings that lowercase to "true" |
| SiteData.RunPieces | src/app/data.tsx:98 | the split at `/[,\s]+/` yields at least one piece |
| SiteData.ParseNumList | src/app/data.tsx:96-100 | `parseNumList` never returns NaN |
| SiteData.NumListOfEmpty | src/app/data.tsx:96-100 | an absent or empty cell yields [0], since `Number("")` is 0 |
| SiteData.NumListTrailingComma | src/app/data.tsx:96-100 | "1," yields [1, 0] |
| SiteData.NumListOfSpace | src/app/data.tsx:96-100 | a single space yields [0, 0] |
| SiteData.DigitsJoinKept | src/app/data.tsx:98 | a comma-joined list of digit strings has no other separators |
| SiteData.RunPiecesSolid | src/app/data.tsx:98 | text whose only separators are single commas between non-empty pieces splits into those pieces |
| SiteData.RunPiecesOfJoin | src/app/data.tsx:98 | a comma-joined list of non-empty digit strings splits back into them |
| SiteData.NumListRoundTrip | src/app/data.tsx:96-100 | a comma-joined list of decimal numbers parses back to those numbers in order |
| SiteData.DropTrailingSlash | src/app/data.tsx:112 | `replace(/\/$/, "")` removes at most one trailing slash |
| SiteData.ImgPath | src/app/data.tsx:102-114 | an absent or empty filename gives ""; otherwise the path is the base, then `/generated_contents/<folder>/<filename>`, with the base taken from `assetPrefix`, `basePath` or the configured prefix in the browser |
| SiteData.ImgPathShape | src/app/data.tsx:102-114 | every image path ends with `/generated_contents/<folder>/<filename>`, and a browser base "/x//" loses exactly one slash |
| SiteData.NewsDateIsPrefix | src/app/data.tsx:259 | a news date is the part of the date before its first space |
| SafeParse.ToStrOr | src/lib/safeParse.ts:2-5 | null and undefined give the fallback; anything else gives a trimmed string, empty exactly when `String(val)` is all whitespace |
| SafeParse.ToStrIsInnerPiece | src/lib/safeParse.ts:4 | the result is `String(val)` less a whitespace prefix and a whitespace suffix |
| SafeParse.ToStrOfNumber | src/lib/safeParse.ts:2-11 | an integer prints as its decimal text, and `toNum` reads that text back to the integer |
| SafeParse.ToNumOr | src/lib/safeParse.ts:8-11 | the result is `Number(val)` when that is finite and the fallback exactly when it is not |
| SafeParse.ToNumOpt | src/lib/safeParse.ts:37-40 | the result is undefined exactly when `Number(val)` is not finite, and that number otherwise |
| SafeParse.ToNumAgreesWithOpt | src/lib/safeParse.ts:8-11 | `toNum` with a fallback is `toNumOpt` with undefined replaced by the fallback |
| SafeParse.ToNumEdges | src/lib/safeParse.ts:8-11 | null, false, blank text give 0 and true gives 1; undefined, NaN, ±Infinity and "Infinity" give the fallback |
| SafeParse.ToBoolOr | src/lib/safeParse.ts:14-20 | null or undefined give the fallback, a boolean itself, a number whether it differs from 0; a string is true exactly when it lowercases and trims to "true", "1", "yes" or "y" |
| SafeParse.ToBoolIgnoresCase | src/lib/safeParse.ts:18 | lowercasing a string first does not change the answer |
| SafeParse.ToBoolOfBooleanText | src/lib/safeParse.ts:18-19 | the strings "true" and "false" read back as their booleans |
| SafeParse.ToBoolOfNaN | src/lib/safeParse.ts:17 | NaN counts as true, because `NaN !== 0` |
| SafeParse.NumTokens | src/lib/safeParse.ts:29-31 | `filter(Boolean)` leaves no empty token |
| SafeParse.KeepFinite | src/lib/safeParse.ts:33 | exactly the finite numbers are kept |
| SafeParse.KeepFiniteAll | src/lib/safeParse.ts:33 | a list of finite numbers is kept whole |
| SafeParse.ToNums | src/lib/safeParse.ts:32 | each token goes through `toNum` with the NaN fallback |
| SafeParse.SplitNumList | src/lib/safeParse.ts:26-34 | null and undefined give []; otherwise at most one finite number per non-empty token |
| SafeParse.SplitNumListFromTokens | src/lib/safeParse.ts:29-33 | every number returned is the value of some token |
| SafeParse.SplitNumListBlank | src/lib/safeParse.ts:26-34 | whitespace-only text gives [] |
| SafeParse.SplitNumListRoundTrip | src/lib/safeParse.ts:26-34 | a comma-joined list of decimal numbers parses back to those numbers in order |
| JsValues.StringToNumber | src/app/data.tsx:99 | `Number` of a whitespace-only string is 0, and a non-blank string gives a finite number only when its trimmed text is a signed decimal integer |
| JsValues.DigitPrefixLength | morinolab_cms/src/services/content-service.ts:65 | the digit prefix `parseInt` reads is all digits and stops at the first non-digit |
| JsValues.ParseInt10 | morinolab_cms/src/services/content-service.ts:77 | `parseInt(s, 10)` is NaN or a finite integer, never an infinity |
| JsValues.TrimKeepsSolidEnds | src/lib/safeParse.ts:4 | a string with non-space ends trims to itself |
| JsValues.NumberOfIntToString | src/lib/safeParse.ts:9 | `Number` reads the decimal text of any integer back to that integer |
| JsValues.ParseIntOfIntToString | morinolab_cms/src/services/content-service.ts:77-78 | `parseInt` reads the decimal text of any integer back to that integer |
| JsValues.DigitPrefixAll | morinolab_cms/src/services/content-service.ts:77 | `parseInt` reads the whole of an all-digit string |
| Text.LeadLen | src/lib/safeParse.ts:4 | the leading run of spaces is maximal |
| Text.TrailLen | src/lib/safeParse.ts:4 | the trailing run of spaces is maximal |
| Text.JsTrimIsSlice | src/lib/safeParse.ts:4 | `trim()` cuts a slice whose dropped ends are all whitespace and whose own ends are not |
| Text.JsTrimEmptyIff | src/app/dataLoader.tsx:48 | a line trims to "" exactly when it is all whitespace |
| Text.PyStripEmptyIff | scripts/validate_contents_db.py:96 | `str.strip()` gives "" exactly when the text is all Python whitespace |
| Text.JsTrimIdempotent | morinolab_hp/lib/client-content-loader.ts:205 | trimming twice is trimming once |
| Text.PyStripIdempotent | scripts/validate_contents_db.py:98 | stripping twice is stripping once |
| Text.PyStripSolid | src/scripts/gen_contents_db.py:90 | a string with non-space ends strips to itself |
| Text.JsTrimSolidEnds | morinolab_hp/src/app/dataLoader.tsx:132 | a non-empty trimmed string neither starts nor ends with whitespace |
| Text.LowerChar | src/app/data.tsx:94 | `toLowerCase` maps capitals to small letters and leaves other characters alone |
| Text.Lower | src/app/data.tsx:94 | lowercasing works character by character and keeps the length |
| Text.Split | morinolab_hp/scripts/generate-static-pages.js:15 | a split always has at least one piece |
| Text.SplitJoin | morinolab_hp/scripts/generate-static-pages.js:15-16 | a split has one more piece than separators, no piece holds the separator, and joining the pieces gives back the text |
| Text.SplitOfJoin | scripts/validate_contents_db.py:98 | splitting a join of separator-free pieces gives back the pieces |
| Text.SplitAfterPiece | morinolab_hp/scripts/generate-static-pages.js:8-12 | a separator-free first piece is split off whole |
| Text.NonEmpty | src/lib/safeParse.ts:31 | dropping empty pieces leaves only non-empty ones |
| Text.NonEmptyAll | src/lib/safeParse.ts:31 | a list without empty pieces is kept whole |
| Text.AllCommas | src/lib/safeParse.ts:30-31 | text made only of separators leaves no piece |
| Text.NatToString | morinolab_cms/src/services/content-service.ts:78 | a natural prints as digits with no leading zero |
| Text.IntToString | morinolab_cms/src/services/content-service.ts:78 | an integer prints as digits, with a minus sign when negative |
| Text.NatToStringRoundTrip | morinolab_cms/src/services/content-service.ts:78 | the printed digits denote the number |
| Text.NatToStringInjective | morinolab_cms/src/main.ts:103 | distinct naturals print differently |
| Localize.Other | morinolab_hp/lib/utils.ts:22 | the fallback language differs from the requested one |
| Localize.LocalKey | morinolab_hp/lib/utils.ts:21 | the key is the base key followed by a two-letter language suffix |
| Localize.LocalKeysDiffer | morinolab_hp/lib/utils.ts:21-22 | the requested key and the fallback key differ |
| Localize.GetLocalized | morinolab_hp/lib/utils.ts:16-33 | the requested language's field when it is a non-empty string, else the other language's when that is one; "" exactly when neither is |
| Localize.OneLanguageShownToAll | morinolab_hp/lib/utils.ts:21-29 | when at most one language is filled, both locales show the same text; when they differ, each shows its own field |
| Localize.LocalizedFromItem | morinolab_hp/lib/utils.ts:24-29 | a non-empty result is the value of one of the two fields |
| GitHubConfig.GetOAuthConfig | morinolab_cms/src/github-config.ts:10-34 | both environment values set gives exactly those values; otherwise the built-in pair; neither field is ever empty |
| GitHubConfig.ValidateConfig | morinolab_cms/src/github-config.ts:37-46 | a valid pair has both values longer than ten characters and neither is its placeholder |
| GitHubConfig.ValidationIsLengthAndPlaceholders | morinolab_cms/src/github-config.ts:39-44 | validity is exactly: both longer than ten characters and neither the placeholder; the placeholders pass the length test, so only their own comparisons reject them |
| GitHubConfig.FallbackNeverValidates | morinolab_cms/src/github-config.ts:15-33 | the built-in pair never validates, so a valid configuration always comes from the environment and is its two values |
| Members.GradesDistinct | src/app/members/page.tsx:20-21 | the nine grade labels differ from each other and from "Alumni" and "Unknown" |
| Members.GradeLabel | src/app/members/page.tsx:14-23 | "Alumni" exactly for graduated members; otherwise grade number (current year − admission year + repeats) in 0..8 picks B1 … D3 and anything else gives "Unknown" |
| Members.RepeatMovesOneGrade | src/app/members/page.tsx:20-22 | each repeated year moves a current member one grade later |
| Members.Filter | src/app/members/page.tsx:50-52 | the filter keeps exactly the members meeting the test |
| Members.AlumniAndCurrentPartition | src/app/members/page.tsx:50-52 | alumni and current members together hold every member as often as it occurs, and no member is in both |
| Members.Bucket | src/app/members/page.tsx:65-73 | a bucket never holds more members than the list |
| Members.BucketSnoc | src/app/members/page.tsx:67-71 | one more member goes at the end of its own grade's bucket and no other |
| Members.BucketNonEmpty | src/app/members/page.tsx:65-73 | a grade has a non-empty bucket exactly when some member carries it |
| Members.BucketOfAppend | src/app/members/page.tsx:65-73 | the bucket of a joined list is the first part's bucket followed by the second's: input order is kept within a bucket |
| Members.BucketsExactlyOnce | src/app/members/page.tsx:65-73 | a member lies in the bucket of its own grade, as often as it occurs in the list, and in no other |
| Members.GroupedStep | src/app/members/page.tsx:67-71 | one turn of the `forEach` keeps the grouping invariant |
| Members.Categorize | src/app/members/page.tsx:65-73 | `categorize` has a key for exactly the grades that occur, and each key holds exactly that grade's members in list order |
| StaticPages.FirstPiece | morinolab_hp/scripts/generate-static-pages.js:15-16 | the first piece of a split is a prefix of the text without the separator, ended by the separator unless it is the whole text |
| StaticPages.FirstColumn | morinolab_hp/scripts/generate-static-pages.js:13-16 | the id column is the trimmed line up to its first comma, holding no comma: quoted fields are not honoured |
| StaticPages.LineId | morinolab_hp/scripts/generate-static-pages.js:13-19 | a line contributes its first column exactly when that column is neither empty nor the literal "id" |
| StaticPages.LineIds | morinolab_hp/scripts/generate-static-pages.js:12-21 | a line contributes at most one id |
| StaticPages.LineIdsWellFormed | morinolab_hp/scripts/generate-static-pages.js:15-18 | no listed id is empty, the literal "id", or holds a comma |
| StaticPages.LineIdsAppend | morinolab_hp/scripts/generate-static-pages.js:12-21 | the ids of joined line lists are the ids of the parts, in file order |
| StaticPages.LineIdSource | morinolab_hp/scripts/generate-static-pages.js:17-18 | every listed id is the id of some line |
| StaticPages.LineIdListed | morinolab_hp/scripts/generate-static-pages.js:17-18 | every line's id is listed |
| StaticPages.LineIdsStep | morinolab_hp/scripts/generate-static-pages.js:13-20 | one more data line appends its own id, if it has one |
| StaticPages.HeaderNeverCounts | morinolab_hp/scripts/generate-static-pages.js:11-12 | the header line never contributes an id: the ids depend only on the text after the first line break |
| StaticPages.ReadCsvIds | morinolab_hp/scripts/generate-static-pages.js:5-28 | an unreadable file gives []; otherwise the for loop from line 1 collects exactly the ids of the data lines, in file order |
| StaticPages.Routed | morinolab_hp/scripts/generate-static-pages.js:49-52 | each id is prefixed with its route, in order |
| StaticPages.PageList | morinolab_hp/scripts/generate-static-pages.js:48-53 | one page per id of the four files |
| StaticPages.GenerateStaticPages | morinolab_hp/scripts/generate-static-pages.js:30-53 | the pages are the news, lecture, publication and team ids, in that order, each with its route |
| StaticPages.RoutedNoDuplicates | morinolab_hp/scripts/generate-static-pages.js:49-52 | prefixing keeps distinct ids distinct |
| StaticPages.JoinNoDuplicates | morinolab_hp/scripts/generate-static-pages.js:48-53 | two duplicate-free page lists that differ at their second character join without duplicates |
| StaticPages.PageListNoDuplicates | morinolab_hp/scripts/generate-static-pages.js:48-53 | no page is listed twice while no file lists an id twice: the four routes start differently |
| CmsDisk.ChildDirsOf | morinolab_cms/src/main.ts:98-100 | `readdirSync(…).filter(isDirectory)` lists at most one name per directory |
| CmsDisk.ChildDirsMember | morinolab_cms/src/main.ts:98-100 | a name is listed exactly when the directory holds a subdirectory of that name |
| CmsDisk.ChildDirsAppendShallow | morinolab_cms/src/main.ts:95-100 | creating directories no deeper than the listed one does not change its listing |
| CmsDisk.NoChildrenOfMissing | morinolab_cms/src/main.ts:95-100 | a directory that does not exist has no subdirectories |
| CmsDisk.NewPrefixes | morinolab_cms/src/main.ts:157 | `mkdirSync(p, { recursive: true })` creates exactly the missing ancestors of p and p itself |
| CmsDisk.Outside | morinolab_cms/src/main.ts:116 | after `rmSync(p, { recursive: true })` exactly the directories not under p remain |
| CmsDisk.Pruned | morinolab_cms/src/main.ts:116 | after `rmSync(p, { recursive: true })` exactly the files not under p remain, with their contents |
| CmsDisk.OutsideParent | morinolab_cms/src/main.ts:116 | the parent of a path outside p is outside p |
| CmsDisk.NoDirBelowMissing | morinolab_cms/src/main.ts:115-116 | no directory lies below a path that does not exist |
| CmsDisk.NoFileBelowMissing | morinolab_cms/src/main.ts:115-116 | no file lies below a path that does not exist |
| CmsDisk.OutsideNothing | morinolab_cms/src/main.ts:115-116 | removing a tree that holds no directory changes no directory |
| CmsDisk.MissingTreeUnchanged | morinolab_cms/src/main.ts:115-116 | removing a path that does not exist changes nothing, which is why `deleteItem` may skip the call |
| CmsDisk.Disk.constructor | morinolab_cms/src/main.ts:3 | a disk holds the given directories and files |
| CmsDisk.Disk.MkdirAll | morinolab_cms/src/main.ts:157 | `mkdirSync(p, { recursive: true })` succeeds exactly when no file lies on the way to p; it then adds the missing prefixes of p and leaves the files alone; on failure nothing changes |
| CmsDisk.Disk.EnsureDir | morinolab_cms/src/main.ts:95 | `if (!existsSync(p)) mkdirSync(p, { recursive: true })` adds only prefixes of p, never touches files, and does nothing when p exists |
| CmsDisk.Disk.EnsureNested | morinolab_cms/src/main.ts:94-95 | creating the content root and then the type directory keeps every directory and file and adds only directories on the way to the type directory; it succeeds exactly when the type directory then exists, with the listing of its subdirectories unchanged |
| CmsDisk.Disk.Mkdir | morinolab_cms/src/main.ts:105 | plain `mkdirSync` succeeds exactly when nothing of that name exists and the parent is a directory; it then adds just that directory |
| CmsDisk.Disk.WriteFile | morinolab_cms/src/main.ts:108 | `writeFileSync` succeeds exactly when the parent is a directory and the path is not one; it then sets just that file's text |
| CmsDisk.Disk.CopyFile | morinolab_cms/src/main.ts:170 | `copyFileSync` succeeds exactly when the source is a file and the destination can be written; it then gives the destination the source's text |
| CmsDisk.Disk.RemoveTree | morinolab_cms/src/main.ts:116 | `rmSync(p, { recursive: true, force: true })` leaves exactly the directories and files not under p |
| CmsDisk.Disk.RemoveTreeIfExists | morinolab_cms/src/main.ts:115-116 | removing a tree only when it exists has the same effect as removing it outright |
| CmsDisk.Disk.RemoveFile | morinolab_cms/src/infrastructure/local/ContentRepository.ts:123 | `rmSync(f, { force: true })` removes that file, if any, and nothing else; on a directory it fails and changes nothing |
| CmsMain.LastDot | morinolab_cms/src/main.ts:161 | the position of the last dot of the name, or none when it has no dot |
| CmsMain.Extname | morinolab_cms/src/main.ts:161 | `path.extname` is the name's tail from its last dot, "" when that dot is the first character, when there is none, or for ".." |
| CmsMain.Stem | morinolab_cms/src/main.ts:162 | `path.basename(name, ext)` followed by the extension gives back the name |
| CmsMain.CandidatesDistinct | morinolab_cms/src/main.ts:165 | every numbered name differs from the requested name, and different counters give different names |
| CmsMain.EntriesIn | morinolab_cms/src/main.ts:164 | a name exists in the media folder exactly when a directory or a file of that name is there |
| CmsMain.FreeNameUnique | morinolab_cms/src/main.ts:159-167 | at most one name meets the rule: the requested name when free, else the numbered name with the smallest free counter from 1 |
| CmsMain.Tried | morinolab_cms/src/main.ts:163-166 | before the counter-th test the loop has tried the requested name and all smaller counters |
| CmsMain.TriedGrows | morinolab_cms/src/main.ts:164-166 | each turn of the loop tries a name it has not tried before |
| CmsMain.TriedStep | morinolab_cms/src/main.ts:164-166 | a taken name keeps the loop going, and the untried taken names shrink, so the loop ends |
| CmsMain.FreeNameAtEnd | morinolab_cms/src/main.ts:164-167 | when the loop stops, its name is the free name of the rule |
| CmsMain.CmsMain.constructor | morinolab_cms/src/main.ts:8 | the content root is `<cwd>/contents` |
| CmsMain.CmsMain.ListItems | morinolab_cms/src/main.ts:69-90 | a missing type directory gives []; reading a type path that is a file fails; each entry is its own directory's `ListedItem`: the front-matter title of that directory's `article.md` when it is truthy, else "", as `data.title` or '' |
| CmsMain.CmsMain.ListItemsAreTheDirs | morinolab_cms/src/main.ts:72-88 | the listed ids are exactly the subdirectories of the type directory, each once |
| CmsMain.CmsMain.ListItemsSorted | morinolab_cms/src/main.ts:89 | when no directory name reads as NaN, the items are sorted ascending by `Number(id)` |
| CmsMain.CmsMain.CreateItem | morinolab_cms/src/main.ts:92-111 | the new item's id is 1 + the largest numeric directory name, or 1, and named "新規記事"; its directory did not exist before and does now; the only directories added lie on the way to the type directory or are the item's own; the only file written is its article template, and on failure no file changes |
| CmsMain.CmsMain.MakeItemDir | morinolab_cms/src/main.ts:104-108 | `mkdirSync(itemDir)` succeeds exactly when the entry is absent and its parent is a directory, and then adds just that directory and the article template; otherwise nothing changes |
| CmsMain.CmsMain.DeleteItem | morinolab_cms/src/main.ts:113-118 | exactly the item's directory tree is removed |
| CmsMain.CmsMain.FreeName | morinolab_cms/src/main.ts:159-167 | the while loop ends with the free name of the rule: the requested name when free, else `<base>_<k><ext>` with the smallest free k ≥ 1 |
| CmsMain.CmsMain.MakeMediaDir | morinolab_cms/src/main.ts:156-157 | the media folder is created unless a file blocks the way; only directories on the way to it are added, and the names inside it are unchanged |
| CmsMain.CmsMain.SaveImage | morinolab_cms/src/main.ts:152-178 | `save-image` succeeds exactly when the source file exists and the media folder can be made; the result is `./media/<name>` with the free name of the rule, and the only file change is the copy; the only directories added lie on the way to the media folder; on any error it is null and no file changes |
| Repository.HeaderOnlyText | morinolab_cms/src/infrastructure/local/ContentRepository.ts:82-83 | saving zero rows writes the header joined by commas and a newline, which splits back to the header |
| Repository.WithIdColumn | morinolab_cms/src/infrastructure/local/ContentRepository.ts:105 | the header holds "id", added at the front only when it is absent |
| Repository.BlankRow | morinolab_cms/src/infrastructure/local/ContentRepository.ts:106-108 | the new row has every header and "id", "" everywhere except the id |
| Repository.WithoutId | morinolab_cms/src/infrastructure/local/ContentRepository.ts:126 | the filter keeps exactly the rows whose id differs, and none with that id |
| Repository.WithoutIdAppend | morinolab_cms/src/infrastructure/local/ContentRepository.ts:126 | filtering keeps the original order of the rows |
| Repository.WithoutIdKeepsOthers | morinolab_cms/src/infrastructure/local/ContentRepository.ts:126 | rows without that id pass unchanged |
| Repository.FindId | morinolab_cms/src/infrastructure/local/ContentRepository.ts:136 | `rows.find` gives the first row with that id, or none when no row has it |
| Repository.UpdateRows | morinolab_cms/src/infrastructure/local/ContentRepository.ts:134-141 | when a row matches, only the named cell of the first matching row changes and every other row and cell is kept; when none matches there is no new table |
| Repository.UpdateRowsKeepsFinding | morinolab_cms/src/infrastructure/local/ContentRepository.ts:136-138 | editing a column other than id leaves the same row first with that id |
| Repository.Thumbnails | morinolab_cms/src/infrastructure/local/ContentRepository.ts:120-122 | the files selected for cleanup are exactly the type folder's files named `<id>` plus a png, jpg, jpeg, gif or webp extension, the id read as literal text and compared, with the extension, case-insensitively |
| Repository.TableNotThumbnail | morinolab_cms/src/infrastructure/local/ContentRepository.ts:120 | the type's CSV file is never taken for a thumbnail |
| Repository.RemoveOneMore | morinolab_cms/src/infrastructure/local/ContentRepository.ts:123 | removing one more selected file keeps the `forEach` invariant |
| Repository.ThumbnailNames | morinolab_cms/src/infrastructure/local/ContentRepository.ts:120 | "12.PNG" and "12.jpeg" are thumbnails of 12; "12.csv", "123.png" and "12.png.bak" are not |
| Repository.ThumbnailDirs | morinolab_cms/src/infrastructure/local/ContentRepository.ts:121-123 | the entries that make the cleanup throw are exactly the directories of the type folder named like a thumbnail of the id |
| Repository.ThumbnailDirsOutsideItem | morinolab_cms/src/infrastructure/local/ContentRepository.ts:116-121 | removing the item's tree keeps every directory named like a thumbnail of its id |
| Repository.RepositoryItem | morinolab_cms/src/infrastructure/local/ContentRepository.ts:32-45 | a listed entry keeps its directory name as id; its title is never `undefined` or `null`, and any title other than '' is the front-matter title of its article |
| Repository.ListingsAgreeButFalsy | morinolab_cms/src/infrastructure/local/ContentRepository.ts:40 | an entry of this listing and of the `main.ts` one differ exactly when the front-matter title is falsy but not nullish, which this one keeps and `main.ts` blanks |
| Repository.RepositoryItems | morinolab_cms/src/infrastructure/local/ContentRepository.ts:29-46 | the entries are those of the directory names, in the order given |
| Repository.ContentRepository.constructor | morinolab_cms/src/infrastructure/local/ContentRepository.ts:8 | the repository keeps the given root |
| Repository.ContentRepository.SetRoot | morinolab_cms/src/infrastructure/local/ContentRepository.ts:10-12 | the root becomes the given one |
| Repository.ContentRepository.ListItems | morinolab_cms/src/infrastructure/local/ContentRepository.ts:26-48 | a missing type directory gives []; reading a type path that is a file fails; no title is `undefined` or `null`; each entry is its own directory's `RepositoryItem`, titled by that directory's `article.md` (`data.title ?? ''`) |
| Repository.ContentRepository.ListItemsAreTheDirs | morinolab_cms/src/infrastructure/local/ContentRepository.ts:29-46 | the listed ids are exactly the subdirectories of the type directory, each once |
| Repository.ContentRepository.ListItemsSorted | morinolab_cms/src/infrastructure/local/ContentRepository.ts:47 | when no directory name reads as NaN, the items are sorted ascending by `Number(id)` |
| Repository.ContentRepository.LoadCsvTable | morinolab_cms/src/infrastructure/local/ContentRepository.ts:67-78 | a missing CSV loads as header ["id"] with no rows; otherwise the parse of the trimmed text |
| Repository.ContentRepository.TableIn | morinolab_cms/src/infrastructure/local/ContentRepository.ts:67-78 | over given files: a missing CSV loads as header ["id"] with no rows; otherwise the parse of the trimmed text |
| Repository.ContentRepository.TableAfterItemRemoval | morinolab_cms/src/infrastructure/local/ContentRepository.ts:116-125 | removing an item's tree leaves the table as it was, except for the id `<type>.csv`, whose tree is the table, which then loads as header ["id"] with no rows |
| Repository.ContentRepository.SaveCsvTable | morinolab_cms/src/infrastructure/local/ContentRepository.ts:80-85 | the CSV file gets the header-only text for zero rows and the library's text otherwise; nothing else changes |
| Repository.ContentRepository.AppendBlankRow | morinolab_cms/src/infrastructure/local/ContentRepository.ts:104-110 | the table is saved with "id" in the header and exactly one blank row for the new id added at the end |
| Repository.ContentRepository.AddItemDir | morinolab_cms/src/infrastructure/local/ContentRepository.ts:98-102 | the new item directory is made and gets just the article template |
| Repository.ContentRepository.RemoveThumbnails | morinolab_cms/src/infrastructure/local/ContentRepository.ts:119-123 | the cleanup fails exactly when a directory is named like a thumbnail of the id; otherwise exactly the thumbnail files are removed, and when it fails some of them are, and nothing else |
| Repository.ContentRepository.ClearThumbnailsAndRecords | morinolab_cms/src/infrastructure/local/ContentRepository.ts:119-127 | after the item is gone: it fails exactly when a directory is named like a thumbnail or the table path is a directory; on success the thumbnails are gone and the table holds the rows of other ids |
| Repository.ContentRepository.DeleteItem | morinolab_cms/src/infrastructure/local/ContentRepository.ts:115-128 | the item's tree is gone; it fails exactly when the type folder is missing, a directory is named like a thumbnail or the table path is a directory, and the files left are given for each case; on success the thumbnails are gone and the table is saved with exactly the rows of other ids, in order, under the header as loaded after the removal, which for the id `<type>.csv` is `id` alone |
| Repository.ContentRepository.DeletedLeavesNothing | morinolab_cms/src/infrastructure/local/ContentRepository.ts:115-128 | after a successful delete no thumbnail of the id is left, and no file below the item path unless that path is the table |
| Repository.ContentRepository.UpdateCell | morinolab_cms/src/infrastructure/local/ContentRepository.ts:134-141 | fails with no change exactly when the table path is a directory, where `readFileSync` throws; otherwise the table is saved with the first matching row's cell changed, and nothing is written when no row matches |
| Repository.ContentRepository.CreateItem | morinolab_cms/src/infrastructure/local/ContentRepository.ts:87-113 | the id is 1 + the largest numeric directory name, or 1; the new directory did not exist; the article template and the table with one blank row for the id are written; the only directories added lie on the way to the type folder or are the item's; on failure either no file changed or the article was written and the table path is a directory |
| Repository.ContentRepository.AddItemWithRow | morinolab_cms/src/infrastructure/local/ContentRepository.ts:98-110 | the item directory, the article and the blank row are written exactly when the entry is absent, the table path is not a directory and the id is not `<type>.csv`; when the table write fails the directory and the article stay |
| Service.ParseInts | morinolab_cms/src/services/content-service.ts:77 | `parseInt(id, 10)` is applied to every listed id |
| Service.NextIdAsWritten | morinolab_cms/src/services/content-service.ts:76-78 | with no items the new id is 1 (the rest is `Math.max` over every parsed id, NaN included) |
| Service.NaNIdReused | morinolab_cms/src/services/content-service.ts:76-81 | one non-numeric directory name makes the new id "NaN", and once "NaN" exists it is chosen again |
| Service.AsWrittenAgreesExactlyWhenAllParse | morinolab_cms/src/services/content-service.ts:77 | the id as written equals the corrected id exactly when every directory name parses |
| Service.ServiceNextIdFinite | morinolab_cms/src/services/content-service.ts:77-78 | the corrected id is always a finite integer |
| Service.ServiceNextIdFresh | morinolab_cms/src/services/content-service.ts:77-78 | the corrected id is above every parsed name and its text is not among the names |
| Service.ParsedMember | morinolab_cms/src/services/content-service.ts:77 | the parsed ids are exactly the values of the names that parse |
| Service.ServiceNextIdByNames | morinolab_cms/src/services/content-service.ts:76-78 | the new id depends only on which names are present, not on their order or repeats |
| Service.MaxBySet | morinolab_cms/src/services/content-service.ts:77 | `Math.max` over NaN-free lists with the same members is the same |
| Service.FindExact | morinolab_cms/src/services/content-service.ts:148 | `rows.find((r) => r.id === id)` gives the first row whose id cell equals the id, or none |
| Service.Upsert | morinolab_cms/src/services/content-service.ts:146-157 | for a found id only the named column of the first matching row changes and every other row is kept; for an absent id exactly one row `{id, [column]: value}` is appended |
| Service.UpsertFinds | morinolab_cms/src/services/content-service.ts:148-155 | after the edit, the id is found at the same row, or at the appended one, with the value in the column |
| Service.UpsertIdempotent | morinolab_cms/src/services/content-service.ts:146-157 | repeating the same edit changes nothing more |
| Service.ContentService.constructor | morinolab_cms/src/services/content-service.ts:10-12 | the service keeps the given root |
| Service.ContentService.SetContentRoot | morinolab_cms/src/services/content-service.ts:14-16 | the root becomes the given one |
| Service.ContentService.GetContentRoot | morinolab_cms/src/services/content-service.ts:18-20 | the current root is returned, so after `setContentRoot` it is the new root |
| Service.ContentService.ListItems | morinolab_cms/src/services/content-service.ts:40-66 | a missing type directory gives []; reading a type path that is a file fails; each entry is its own directory's `ListedItem`: the front-matter title of that directory's `article.md` when it is truthy, else the directory name, as `data.title` or `dir.name` |
| Service.ContentService.LoadCsvTable | morinolab_cms/src/services/content-service.ts:121-134 | a missing CSV loads as an empty header with no rows; otherwise the parse of the text |
| Service.ContentService.SaveCsvTable | morinolab_cms/src/services/content-service.ts:136-140 | the CSV file gets the library's text of the header and rows; nothing else changes |
| Service.ContentService.UpdateCell | morinolab_cms/src/services/content-service.ts:146-159 | the table is always saved, with the header as loaded and the rows after the upsert |
| Service.ContentService.DeleteItem | morinolab_cms/src/services/content-service.ts:100-105 | exactly the item's directory tree is removed |
| Service.ContentService.ListedNextIdFresh | morinolab_cms/src/services/content-service.ts:76-79 | the id taken from the listing is the corrected id of the subdirectories, and no directory of that name exists |
| Service.ContentService.MakeItemDirs | morinolab_cms/src/services/content-service.ts:81-84 | the two recursive `mkdirSync` calls fail exactly when a file blocks the way to the media directory, add only directories on that way, and change no file |
| Service.ContentService.AddItemDir | morinolab_cms/src/services/content-service.ts:81-95 | the new item gets its directory, its media directory and just the article file; it fails exactly when a file blocks the way to the media directory or the article path is a directory, and then no file changes; only directories on the way to the media directory are added |
| Service.ContentService.CreateItem | morinolab_cms/src/services/content-service.ts:68-98 | the new item has the corrected id and the title `新しい<type> <id>`; its directory did not exist and now holds a media directory; the only file written is its article; the only directories added lie on the way to its media directory; on failure no file changes |
| Service.ContentService.ListItemsAreTheDirs | morinolab_cms/src/services/content-service.ts:46-64 | the listed ids are exactly the subdirectories of the type directory, each once |
| Service.ContentService.ListItemsSorted | morinolab_cms/src/services/content-service.ts:65 | when every directory name parses, the items are sorted ascending by `parseInt(id, 10)` |
| ItemIds.NumLtTotal | morinolab_cms/src/main.ts:89 | numbers other than NaN are totally ordered |
| ItemIds.NumLeTrans | morinolab_cms/src/main.ts:89 | that order is transitive |
| ItemIds.Max2 | morinolab_cms/src/main.ts:103 | `Math.max` of two numbers is NaN when either is, and otherwise the larger |
| ItemIds.MathMax | morinolab_cms/src/main.ts:103 | `Math.max(...ids)` is NaN when some id is, and otherwise an element no element exceeds |
| ItemIds.MaxSnoc | morinolab_cms/src/main.ts:103 | the running maximum stays an upper bound when one more number is seen |
| ItemIds.AddOne | morinolab_cms/src/main.ts:103 | adding 1 to an integer gives the next integer and leaves infinities and NaN as they are |
| ItemIds.NextId | morinolab_cms/src/main.ts:98-103 | the new id is never NaN, since NaN names are filtered out |
| ItemIds.NumericNameCounted | morinolab_cms/src/main.ts:101-102 | every name that reads as a number takes part in the maximum |
| ItemIds.NextIdFresh | morinolab_cms/src/main.ts:98-104 | while no name reads as an infinity, the new id is an integer above every numeric name and its text names no existing directory |
| ItemIds.InfinityNamePinsNextId | morinolab_cms/src/main.ts:98-104 | a directory named "Infinity" makes the new id Infinity, whose directory already exists |
| ItemIds.Insert | morinolab_cms/src/main.ts:89 | inserting adds exactly that item |
| ItemIds.SortById | morinolab_cms/src/main.ts:89 | sorting is a permutation of the items |
| ItemIds.InsertSorted | morinolab_cms/src/main.ts:89 | inserting into a sorted listing keeps it sorted |
| ItemIds.SortByIdSorted | morinolab_cms/src/main.ts:89 | when no key is NaN, the sorted listing is ascending by key |
| ItemIds.Ids | morinolab_cms/src/main.ts:87 | the ids of the items, in order |
| ItemIds.ListedItem | morinolab_cms/src/main.ts:75-88 | an item is named by its directory, and its title is a truthy front-matter title or the fallback |
| ItemIds.ListedItems | morinolab_cms/src/main.ts:72-88 | one item per directory, in listing order |
| ItemIds.IdsAppend | morinolab_cms/src/main.ts:87 | the ids of joined listings are joined |
| ItemIds.IdsSnoc | morinolab_cms/src/main.ts:87 | one more item adds its id at the end |
| ItemIds.IdsOfInsert | morinolab_cms/src/main.ts:89 | inserting adds exactly the item's id |
| ItemIds.IdsOfSort | morinolab_cms/src/main.ts:89 | sorting keeps the multiset of ids |
| ContentValidator.AnyIdNoneIff | scripts/validate_contents_db.py:124 | the id loop raises on some row exactly when some row's `id` cell is a missing value (`None` from a short row) |
| ContentValidator.AnyRequiredNoneIff | scripts/validate_contents_db.py:137-138 | the required-field loop raises exactly when some row has a missing value in some required field |
| ContentValidator.ParseIdList | scripts/validate_contents_db.py:95-98 | `parse_id_list`: a missing or blank value gives no ids, and no listed id is empty |
| ContentValidator.ParseIdListElements | scripts/validate_contents_db.py:98 | every listed id is non-empty, holds no comma and is already stripped |
| ContentValidator.ParseIdListJoin | scripts/validate_contents_db.py:95-98 | round trip: a non-empty list of stripped, comma-free, non-empty ids joined with commas parses back to the same list |
| ContentValidator.JoinNonBlank | scripts/validate_contents_db.py:96 | such a joined list is never blank, so it is never skipped as an empty cell |
| ContentValidator.IdsOfIsNonBlankIds | scripts/validate_contents_db.py:122-130 | the ids a dataset collects are exactly the non-blank stripped ids of its rows |
| ContentValidator.Pass1IdsAgree | scripts/validate_contents_db.py:213 | the first pass's id set, less the empty string, equals the id set `validate_dataset` collects |
| ContentValidator.RequiredForRow | scripts/validate_contents_db.py:137-142 | one row's required-field scan: raises exactly when a field is missing, else reports each blank required field in field order |
| ContentValidator.CheckFkCell | scripts/validate_contents_db.py:168-172 | one foreign-key cell: a finding for each listed id the referenced dataset lacks, in list order |
| ContentValidator.CheckFkRow | scripts/validate_contents_db.py:164-172 | one row: the findings of each declared foreign-key column in declaration order |
| ContentValidator.CheckIds | scripts/validate_contents_db.py:122-130 | the uniqueness loop: raises exactly when some id is missing, otherwise returns the blank-id and duplicate-id findings by row and the collected ids |
| ContentValidator.CheckRequired | scripts/validate_contents_db.py:135-142 | the required-field loop: raises exactly when some required value is missing, otherwise one finding per blank required field per row |
| ContentValidator.CheckArticles | scripts/validate_contents_db.py:147-156 | the article loop: for a dataset with articles, one finding per non-blank id whose article path is absent |
| ContentValidator.CheckForeignKeys | scripts/validate_contents_db.py:161-172 | the foreign-key loop: the dangling-reference findings of every row in row order |
| ContentValidator.ValidateDataset | scripts/validate_contents_db.py:109-174 | `validate_dataset`: a missing CSV fails with the read error, a missing id or required value aborts, otherwise the ids and the findings of the four checks in order |
| ContentValidator.CollectIds | scripts/validate_contents_db.py:206-213 | first pass: a read-failure finding per missing CSV and each dataset's id set, empty for a missing CSV |
| ContentValidator.ValidateEach | scripts/validate_contents_db.py:215-221 | second pass: each dataset's findings, or its single exception finding, in schema order |
| ContentValidator.ValidateAll | scripts/validate_contents_db.py:203-231 | `main`: the first pass's findings then the second's, and exit status 1 exactly when there is at least one finding |
| ContentValidatorProps.PerRowMember | scripts/validate_contents_db.py:123 | a per-row check reports a finding exactly when some row, numbered from 2, produces it |
| ContentValidatorProps.RowFindingsAt | scripts/validate_contents_db.py:123 | every finding of a row carries that row's number and the dataset's name |
| ContentValidatorProps.CheckFindingsRows | scripts/validate_contents_db.py:123 | every reported row number lies between 2 and the row count plus 1, the header being row 1 |
| ContentValidatorProps.ReportedAtRow | scripts/validate_contents_db.py:123 | a finding is reported exactly when the row its number names produces it |
| ContentValidatorProps.CrashesIff | scripts/validate_contents_db.py:124 | `validate_dataset` raises exactly when some row has a missing id or a missing required value |
| ContentValidatorProps.BlankIdReported | scripts/validate_contents_db.py:124-127 | the blank-id finding for row n is reported exactly when row n exists and its stripped id is empty |
| ContentValidatorProps.DuplicateIdReported | scripts/validate_contents_db.py:128-130 | a duplicate of v is reported at row n exactly when row n's id is the non-blank v and an earlier row already had it, so a first occurrence is never reported |
| ContentValidatorProps.IdsBefore | scripts/validate_contents_db.py:122-130 | the ids seen before row m are the non-blank stripped ids of the earlier rows |
| ContentValidatorProps.CheckFindingsNoDuplicates | scripts/validate_contents_db.py:122-156 | the uniqueness, required-field and article checks never report the same finding twice when the required fields are distinct |
| ContentValidatorProps.RequiredRowMember | scripts/validate_contents_db.py:137-141 | a row's blank-field finding for f is present exactly when f is required and blank in that row |
| ContentValidatorProps.RequiredBlankReported | scripts/validate_contents_db.py:135-142 | a blank required field f is reported at row n exactly when row n exists, f is required and blank there |
| ContentValidatorProps.ArticleMissingReported | scripts/validate_contents_db.py:147-156 | a missing article is reported exactly for a row with a non-blank id in a dataset with articles whose article path is absent |
| ContentValidatorProps.BlankIdRowFindings | scripts/validate_contents_db.py:124-127 | a row with a blank id gets the blank-id finding and the blank required `id` finding, and no article finding |
| ContentValidatorProps.FkCellCount | scripts/validate_contents_db.py:168-172 | a listed value is reported as often as it is listed when the referenced dataset lacks it, and never otherwise |
| ContentValidatorProps.FkRowMember | scripts/validate_contents_db.py:164-172 | a row reports value v of column col exactly when (col, ref) is declared, the cell is not blank, v is listed in it and ref lacks v |
| ContentValidatorProps.DanglingReferenceReported | scripts/validate_contents_db.py:161-172 | a dangling reference is reported at row n exactly when row n exists, its declared cell is non-blank and lists v, and the referenced dataset lacks v |
| ContentValidatorProps.DatasetsDistinct | scripts/validate_contents_db.py:33-89 | the schema table names each dataset once, and every dataset requires `id` with no field listed twice |
| ContentValidatorProps.Pass1ReadFailures | scripts/validate_contents_db.py:206-212 | the first pass reports a missing CSV once per schema entry with that name, and reports nothing else |
| ContentValidatorProps.Pass2ReadFailures | scripts/validate_contents_db.py:215-221 | the second pass reports a missing CSV once per schema entry with that name |
| ContentValidatorProps.MissingCsvReportedTwice | scripts/validate_contents_db.py:206-221 | a missing CSV of the real schema appears exactly twice in the report, once from each pass |
| ContentValidatorProps.Pass1MapLookup | scripts/validate_contents_db.py:207-213 | with distinct names, the first pass records each dataset's id set under its own name |
| ContentValidatorProps.ForeignKeysSeeAllIds | scripts/validate_contents_db.py:207-213 | a non-blank value counts as a known id of a dataset exactly when that dataset's CSV was read and some row has it as stripped id |
| WorkbookExtractor.Headers | src/scripts/gen_contents_db.py:89 | one header per first-row cell: the stripped text of the cell, or empty for an empty cell |
| WorkbookExtractor.FindLower | src/scripts/gen_contents_db.py:106 | the first header whose lower-case form is the name, or none when no header matches |
| WorkbookExtractor.RecordOf | src/scripts/gen_contents_db.py:110 | a data row's record has exactly the sheet's headers as keys |
| WorkbookExtractor.ColumnLetter | src/scripts/gen_contents_db.py:126 | `get_column_letter`: a non-empty string of capital letters |
| WorkbookExtractor.ColumnLetterRoundTrip | src/scripts/gen_contents_db.py:126-127 | round trip: reading the column letters back as a bijective base-26 number gives the column number |
| WorkbookExtractor.CsvRow | src/scripts/gen_contents_db.py:192-194 | one CSV row: a field per header, in header order, holding the record's value under it, an empty cell written as empty text |
| WorkbookExtractor.CsvRows | src/scripts/gen_contents_db.py:194 | one CSV row per kept record, in record order |
| WorkbookExtractor.SheetCtxOf | src/scripts/gen_contents_db.py:89-106 | the thumbnail column found among the headers, if any, is one of the headers |
| WorkbookExtractor.MediaCursor.constructor | src/scripts/gen_contents_db.py:219 | `iter(media_bytes_list)`: the media images in archive order, none taken yet |
| WorkbookExtractor.MediaCursor.Next | src/scripts/gen_contents_db.py:169-180 | `next(img_iter)`: the next image and one step forward, or nothing and no move once the images are used up |
| WorkbookExtractor.PictureThumbnail | src/scripts/gen_contents_db.py:125-140 | tier 1: when the sheet's pictures are readable and one sits at the record's thumbnail cell, the MD5 of its PNG bytes plus `.jpg` |
| WorkbookExtractor.FileThumbnail | src/scripts/gen_contents_db.py:143-162 | tier 2: a non-blank cell text naming, relative to the workbook's folder unless absolute, an existing file that opens as an image gives the MD5 of the file bytes plus `.jpg` |
| WorkbookExtractor.ResolveThumbnail | src/scripts/gen_contents_db.py:118-180 | the fallback chain of one kept record, as the reference step: picture, then file, then next media image, then empty; fails when the media image does not open |
| WorkbookExtractor.MediaThumbnail | src/scripts/gen_contents_db.py:165-180 | tiers 3 and 4: with an image left, it is taken and named by its MD5, failing when it does not open; with none left the cell is empty and the cursor stays |
| WorkbookExtractor.ProcessRow | src/scripts/gen_contents_db.py:109-182 | one data row: skipped when its id is blank, otherwise appended after the thumbnail chain, or the run stops |
| WorkbookExtractor.ProcessRows | src/scripts/gen_contents_db.py:108-182 | the row loop agrees with the reference row fold, records and media position both |
| WorkbookExtractor.ProcessSheet | src/scripts/gen_contents_db.py:76-195 | `process_sheet` agrees with the reference sheet outcome: skipped empty, skipped without an id column, skipped without rows, written, or crashed |
| WorkbookExtractor.ExtractWorkbook | src/scripts/gen_contents_db.py:202-222 | `main`: a missing workbook stops at once, otherwise the sheets in order share one media iterator and a crash stops the run after the files already written |
| WorkbookExtractorProps.ThumbStepFacts | src/scripts/gen_contents_db.py:118-180 | the chain takes a media image exactly when the picture and file tiers miss and one is left, fails exactly when that image does not open, and otherwise changes only the thumbnail cell, to empty or a name derived from a source image |
| WorkbookExtractorProps.ThumbHeaderIsNotId | src/scripts/gen_contents_db.py:106-112 | the thumbnail column is never one of the three id columns, so writing it cannot change the record's id |
| WorkbookExtractorProps.ReplaceThumbKeepsBase | src/scripts/gen_contents_db.py:139-177 | writing the thumbnail cell leaves every other cell of the record as it was |
| WorkbookExtractorProps.ReplaceThumbKeepsShape | src/scripts/gen_contents_db.py:139-177 | a record with exactly the headers keeps exactly the headers, with a well-formed thumbnail cell |
| WorkbookExtractorProps.StepRowFacts | src/scripts/gen_contents_db.py:109-182 | a row with a blank id changes nothing; a kept row appends one record that matches the row outside the thumbnail cell; the cursor moves at most one image |
| WorkbookExtractorProps.RunRowsCursor | src/scripts/gen_contents_db.py:169-180 | over a sheet the media iterator moves once per kept row that reaches the media tier, until the images run out |
| WorkbookExtractorProps.RunRowsShape | src/scripts/gen_contents_db.py:108-182 | the loop only appends, and every appended record has exactly the headers and a blank or derived thumbnail name |
| WorkbookExtractorProps.RunRowsKept | src/scripts/gen_contents_db.py:108-116 | without a crash, the records outside their thumbnail cells are exactly the rows with a non-blank id, in order |
| WorkbookExtractorProps.SheetOutcomes | src/scripts/gen_contents_db.py:83-194 | the sheet is skipped as empty or as lacking an id column exactly in those cases, and a written CSV has the sheet key, the header row and one row per kept row |
| WorkbookExtractorProps.NoExactIdHeaderKeepsNothing | src/scripts/gen_contents_db.py:112-116 | with no header spelled exactly `id`, `ID` or `Id`, no row is kept |
| WorkbookExtractorProps.MixedCaseIdHeaderWritesNothing | src/scripts/gen_contents_db.py:93-116 | a header `iD` passes the case-insensitive id-column check, yet the sheet is skipped for having no rows |
| WorkbookExtractorProps.ZeroIdDropped | src/scripts/gen_contents_db.py:112-116 | a numeric id 0 under `id` is falsy, so without `ID` or `Id` columns the row is dropped |
| WorkbookExtractorProps.ZeroUnderLastIdHeaderKept | src/scripts/gen_contents_db.py:112-113 | a 0 under `Id`, the last column tried, is kept as the id "0" |
| WorkbookExtractorProps.SheetStepFacts | src/scripts/gen_contents_db.py:221-222 | one sheet adds at most one file after those already written and moves the media iterator forward only |
| WorkbookExtractorProps.RunSheetsFacts | src/scripts/gen_contents_db.py:221-222 | the whole run writes at most one file per sheet, keeps earlier files, and moves the media iterator forward only |

## Findings

| source | as written | input that shows it | evidently intended | confidence | as-written member | corrected member |
|---|---|---|---|---|---|---|
| morinolab_cms/src/services/content-service.ts:76-78 | the new id is `Math.max` over `parseInt` of every item directory name, with no NaN filter | item directories `["drafts"]` give the new id "NaN"; with `["drafts", "NaN"]` the id "NaN" is chosen again although that directory exists | the largest numeric id plus 1, ignoring names that do not parse, as `main.ts` and `ContentRepository` do; the id is then finite, above every numeric id and not an existing name | not executed | Service.NaNIdReused | Service.ServiceNextIdFresh |

`Service.NextIdAsWritten` is the code as written. `Service.AsWrittenAgreesExactlyWhenAllParse` proves that it agrees with the corrected choice exactly when every name parses. `Service.ContentService.CreateItem` uses the corrected choice.

## Left out

- Papa Parse, Python's `csv` module, pandas, openpyxl, SheetImageLoader and gray-matter are parameters or given tables. Their own parsing and quoting are not modelled.
- Paths are lists of components. Path normalisation, `path.resolve`, symbolic links and case-insensitive file systems are not modelled. The extractor resolves a relative cell path as the workbook folder plus "/" plus the text.
- File I/O errors are modelled for a missing file or directory, a file where a directory is expected, and a directory where a write, a copy or `rmSync` expects a file. Permissions, a full disk and failing reads of an existing file are not modelled.
- A directory at a CSV path makes the `readFileSync` of `loadCsvTable` throw. `LoadCsvTable` reads it as a missing table instead. In `createItem`, `deleteItem` and the service's `updateCell` a write to the same path follows, and it fails on the directory. So the files left behind and the failure agree there; only the step that fails differs. The repository's `updateCell` may write nothing after the read, so `Repository.ContentRepository.UpdateCell` tests for the directory itself and fails before the read.
- Console output is left out. So are the validator's report printing, the extractor's INFO/WARN lines and the CMS's error logging.
- The validator's `--base-dir` handling and its rewrite of `GENERATED_ROOT` and the CSV paths are left out. The generated root is the parameter `root`.
- The extractor's `parse_args` and `ensure_dir` are left out. So is `save_thumbnail` (PIL resizing and JPEG encoding). A thumbnail is named by the MD5 of its source bytes, and the JPEG file itself is not modelled.
- Extractor cells are empty, text, integers or booleans. Floating-point and date cells are left out.
- Duplicate header names in a worksheet keep the last column. pandas would give several values.
- JavaScript numbers are unbounded integers plus ±Infinity and NaN. Fractions, exponents, hexadecimal literals and the 53-bit limit of doubles are not modelled.
- `Text.Lower` maps ASCII letters only; full Unicode case mapping is not modelled. Where its result is compared with an ASCII word ("id", "thumbnail", "true", the `toBool` words of `src/lib/safeParse.ts`, the image extensions) this is exact: no non-ASCII letter lower-cases to a letter of those words. It differs for the extractor's sheet names, which Python's `str.lower` maps in full. It also differs for the thumbnail ids of `Repository.IsThumbnailOf`, where the `/…/i` pattern folds non-ASCII letters too.
- Quoted line breaks (section 2, rule 6 of RFC 4180) are not supported: every site reader splits the text into lines before scanning a line.
- `listContentTypes`, `loadContent`, `saveContent`, `getTableData`, `resolvePath`, `ensureContentRoot` and `getItemDir` are plain directory reads, file reads or writes, and path joins. They are not modelled.
- `ContentRepository.listItems` and `listItems` in `main.ts` differ in their title fallback (`??` against `||`), and each has its own model: `Repository.ContentRepository.ListItems` and `CmsMain.CmsMain.ListItems`. `Repository.ListingsAgreeButFalsy` relates the two.
- Members carry only the fields the grade logic reads. The React page around the grouping is left out.
- Left out entirely: the GitHub and git plumbing, the Electron window and preload code, the compiled `dist` copies, the canvas image processing, the network loaders and all UI pages.
- Repository.Thumbnails: the id is matched as literal text. The source builds a regular expression from the raw id, so an id with pattern syntax selects other names ("1.2" also matches "1x2.png"), and an id such as "(" makes `new RegExp` throw after the item tree is removed. Regular expressions are not modelled.
- Repository.ContentRepository.RemoveThumbnails: the order in which `readdirSync` lists the entries is not modelled. When a directory named like a thumbnail makes `rmSync` throw, the contract says only that some of the thumbnail files are gone.
- Repository.ContentRepository.DeleteItem: inherits both gaps above. For an id with pattern syntax its thumbnail and failure clauses are those of the literal match.
- Service.ContentService.CreateItem: takes the corrected id (`Service.ServiceNextId`), not the `Math.max` over `parseInt` that the code computes (see "## Findings"). With a directory name that does not parse, the code makes or reuses `<type>/NaN` and overwrites its `article.md`; the model picks a fresh numeric id instead.
- ItemIds.SortById: fixes one order, a stable insertion sort. With a NaN key the comparator `Number(a.id) - Number(b.id)` is inconsistent, and the order `Array.prototype.sort` then gives depends on the engine. The model's order is proved sorted only when no key is NaN.
- SafeParse.SplitNumList: models only the default delimiters `/[|,\s]+/`. The optional `delimiters` argument is not modelled; the callers in `src/lib/sheetLoader.tsx` do not pass it.
- Service.NextIdAsWritten: its contract covers only the empty directory list. Its behaviour on names that do not parse is stated by `Service.NaNIdReused` and `Service.AsWrittenAgreesExactlyWhenAllParse`.
