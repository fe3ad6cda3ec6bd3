# health-dashboard directory engine, in Dafny

A model of the in-memory engine of `script.js`, the single script of the
health-dashboard page that lists home-care and hospice institutions. The
page fetches two CSV directory files and a services CSV. It turns their rows
into institution records, classifies each address into a city and a
district, and filters the records by city, district and keyword. It shows
them fifty to a page, suggests institution names while the user types, and
shows for a clicked institution the services it provides.

The model keeps the script's own split between pure and stateful code:

- `JsText` and `Seqs`: the JavaScript string and array operations the script
  uses, with their JavaScript semantics. These are `trim` (the full
  WhiteSpace/LineTerminator set), `includes`, `startsWith`, `indexOf`,
  `replace` with a string pattern (first occurrence only), `replaceAll` of one
  character, `split` on one character, `Array.prototype.slice` (index
  clamping), `filter`, and `[...new Set(xs)]` (first-appearance order).
- `Csv`: `csvToJson`. A row object is its properties in insertion order. A
  repeated header overwrites the property in place. A missing or empty
  column reads as `""`. A text with no non-blank line makes the script throw,
  which is modelled as `Failure(NoHeaderLine)`. `FillRow` and `CsvToJson` are
  the script's loops, proved equal to the functions `RowOf` and `ParseCsv`.
- `Records`: the column fallbacks of the load handler (`x[a] || x[b] || ""`),
  the `臺`→`台` address fold (an in-place pass over an array), `safe`, and
  the `validateData` test.
- `Addresses`: `cityList` and the classification of one address. The city is
  the first listed city the address starts with, else `其他`. The first
  occurrence of the city string is then removed with `replace`. The district
  is the leftmost, greedy match of `[一-龥]{1,3}(區|鄉|鎮|市)`, written as a
  scan, else `其他`.
- `CityMap`: `cityDistrictMap` as a map from city to a set of districts, and
  what `buildCityDistrictMap` does to it.
- `Search`: the `searchData` filter and the autocomplete suggestion list.
- `Paging`: the page slice of `renderTablePage` and the prev/next pager of
  `renderPagination`, as values describing what is drawn.
- `Services`: the lookup in `showDetails` and its ✔/✖ flags. `v == 1` on a
  string is modelled as "the StringNumericLiteral denotes exactly one".
- `Dashboard`: the page's globals as the class `Directory`. Its methods are
  the handlers that reassign them: `validateData`, `buildCityDistrictMap`,
  `searchData`, the prev/next clicks, and the `DOMContentLoaded` loading
  handler, with its file loop and its address-folding pass.

The script calls `validateData()` once, when it is read, before any file is
fetched (script.js:432). So it filters an empty list, and the loaded records
are never validated. The model follows the code: the constructor runs
`ValidateData` on the empty initial state, and `Load` does not validate.
`ValidatedSpec` states what the filter would keep.

## Model

| member | source | states |
|---|---|---|
| JsText.TrimSpec | script.js:78 | trim removes whitespace from both ends only, leaves none at either end, and gives "" exactly for blank text |
| JsText.TrimIdempotent | script.js:78 | a trimmed keyword trims to itself |
| JsText.TrimStartSpec | script.js:78 | the leading part trim drops is all whitespace and the rest is a suffix of the input |
| JsText.TrimEndSpec | script.js:78 | the trailing part trim drops is all whitespace and the rest is a prefix of the input |
| JsText.IndexOfFrom | script.js:39 | the index found is the first occurrence at or after the start; none means no occurrence at all |
| JsText.ContainsIff | script.js:82-88 | `includes` holds exactly when the pattern occurs somewhere |
| JsText.ReplacePrefix | script.js:39 | replacing a prefix with "" strips exactly that prefix |
| JsText.ReplaceChar | script.js:361 | `replaceAll` of one character changes exactly the matching characters and keeps the length |
| JsText.Split | script.js:16 | `split` yields at least one piece and no piece holds the separator |
| JsText.JoinSplit | script.js:16 | joining the pieces of `split` gives back the text |
| JsText.SplitJoin | script.js:19 | splitting the join of separator-free pieces gives back those pieces |
| JsText.Slice | script.js:226 | an in-range slice is the subsequence between the indices, and never longer than the input |
| Seqs.KeepMembership | script.js:80-90 | `filter` keeps an element exactly when it is in the input and passes the test |
| Seqs.KeepPasses | script.js:80-90 | every element `filter` keeps passes the test |
| Seqs.KeepIsSubsequence | script.js:80-90 | `filter` yields an order-preserving subsequence of its input |
| Seqs.KeepCounts | script.js:80-90 | `filter` keeps each passing value as often as it occurs and no other value |
| Seqs.KeepConcat | script.js:80-90 | filtering a concatenation filters each part in turn |
| Seqs.KeepAll | script.js:80-90 | when every element passes, `filter` returns the input |
| Seqs.KeepNone | script.js:80-90 | when no element passes, `filter` returns nothing |
| Seqs.Dedup | script.js:275 | `[...new Set(s)]` holds every value of `s` exactly once and nothing else |
| Seqs.DedupMember | script.js:275 | a value is among the distinct values exactly when it occurs |
| Seqs.DedupOrder | script.js:275 | the distinct values come in the order of their first appearance |
| Csv.ParseCsv | script.js:15-23 | csvToJson throws exactly when no line is non-blank, and otherwise gives one row per non-blank line after the first |
| Csv.ParseFailsIffBlank | script.js:16-17 | csvToJson throws exactly when the text is nothing but whitespace |
| Csv.NonBlankLinesSpec | script.js:16 | the lines kept are non-blank pieces between line breaks, in order; every non-blank piece is kept, each as often as it occurs |
| Csv.RowsOfIndex | script.js:18-23 | row i is built from data line i, with the header line's names |
| Csv.ParsedRow | script.js:17-22 | every row has each header name as a key once, in first-appearance order, and only trimmed values |
| Csv.RowKeys | script.js:21 | filling a row adds each header as a key once, in first-appearance order |
| Csv.RowValuesTrimmed | script.js:21 | every value written into a row is trimmed |
| Csv.RowLastWins | script.js:21 | a header repeated later is overwritten by the later column, and a column missing from the line reads "" |
| Csv.GetSpec | script.js:229 | reading a key gives the value of the first property with that key, undefined exactly when there is none |
| Csv.PutKeys | script.js:21 | assigning a property appends its key only when the key is new |
| Csv.PutGet | script.js:21 | after `o[k] = v`, `o[k]` reads `v` and every other key reads as before |
| Csv.PutFields | script.js:21 | after `o[k] = v`, every property holds `v` or was already there |
| Csv.FillRow | script.js:20-22 | the row filled header by header in the loop is the row object of that line |
| Csv.CsvToJson | script.js:15-24 | the loop over the data lines returns exactly the rows of `ParseCsv`, or its error |
| Records.PickSpec | script.js:350 | the primary column wins when it holds text, the fallback is used only otherwise, and "" means neither holds text |
| Records.FoldVariantSpec | script.js:360-362 | folding keeps the length, leaves no 臺, changes only 臺 into 台, and is idempotent |
| Records.FoldAddresses | script.js:360-362 | the in-place pass folds the address of every record in the array and changes nothing else |
| Records.SafeTrimTruthy | script.js:410-412 | `safe(v).trim()` is truthy exactly when the value is present and not blank |
| Records.CompleteIffNotBlank | script.js:427-428 | a record passes validation exactly when neither its name nor its address is blank |
| Addresses.FindPrefixSpec | script.js:38 | `find` yields the first list entry the address starts with, and nothing exactly when none does |
| Addresses.CityOfSpec | script.js:29-38 | the city is the first listed city, in list order, that is a prefix of the address, or 其他 exactly when none is; so it is always listed or 其他 |
| Addresses.NoCityStartsWithZhong | script.js:29-33 | no listed city starts with 中, so such an address has city 其他 |
| Addresses.ScanFromSpec | script.js:40 | the scan finds the leftmost, then longest, match of the district pattern, and none exactly when nothing matches |
| Addresses.DistrictOfSpec | script.js:40-41 | the district is the leftmost-longest match, 其他 exactly when there is none, and otherwise two to four ideographs ending in 區, 鄉, 鎮 or 市 |
| Addresses.ClassifyStripsCity | script.js:38-41 | when a city is found, the district is looked for in the address with exactly that prefix removed |
| Addresses.OtherRemovedAnywhere | script.js:38-41 | with city 其他, `replace` removes the first 其他 anywhere in the address, which changes the district found |
| Addresses.ClassifyExample | script.js:37-41 | 台北市大安區復興南路一段1號 is classified as 台北市 and 大安區 |
| Addresses.FoldsTaipei | script.js:361 | 臺北市中山區 is folded to 台北市中山區 |
| Addresses.FoldedExample | script.js:360-366 | the fold runs before classification, so 臺北市中山區 is classified as 台北市 and 中山區 |
| CityMap.WithPairsStep | script.js:36-44 | each record adds its own pair to the map built from the records before it |
| CityMap.WithPairsKeeps | script.js:35-45 | building the map keeps every city and every (city, district) pair already present |
| CityMap.WithPairsAdds | script.js:35-45 | afterwards every record's classified (city, district) pair is present |
| CityMap.WithPairsOnlyCities | script.js:35-45 | every city key is an old key or some record's city |
| CityMap.WithPairsOnlyPairs | script.js:35-45 | every (city, district) pair is an old pair or some record's classified pair |
| Search.SearchIsSubsequence | script.js:80-90 | the search result is an order-preserving subsequence of the data |
| Search.SearchKeepsExactlyPassing | script.js:78-90 | a record is in the result exactly when it is in the data and passes every active criterion with the trimmed keyword |
| Search.SearchKeptPass | script.js:78-90 | every kept record's raw address contains the city and the district when they are not 全部, and a field contains the trimmed keyword when it is not blank |
| Search.SearchConcat | script.js:80-90 | searching two runs of records searches each run in turn |
| Search.SearchEverything | script.js:78-90 | with 全部, 全部 and a blank keyword the result is all the data |
| Search.SuggestionsBlank | script.js:264-270 | a blank input offers no suggestion |
| Search.SuggestionsTakeDistinct | script.js:272-275 | the suggestions are the first eight, or fewer, of the distinct matching names |
| Search.SuggestionsDistinct | script.js:275 | there are at most eight suggestions and none twice |
| Search.SuggestionsMatch | script.js:272-274 | each suggestion is a non-empty record name containing the trimmed input |
| Search.SuggestionsOrder | script.js:275 | suggestions come in the order the names first appear among the matches |
| Search.SuggestionsComplete | script.js:272-275 | fewer than eight suggestions means every matching name is offered |
| Paging.PageTotalSpec | script.js:152 | the page total is the least number of 50-record pages holding all records |
| Paging.PageInRange | script.js:128-130 | page p from 1 to the total shows records (p-1)*50 up to min(p*50, n), between 1 and 50 of them |
| Paging.PagePastEnd | script.js:128-130 | a page past the last shows nothing |
| Paging.PagesPrefix | script.js:128-130 | pages 1 to k together are the first min(k*50, n) records |
| Paging.PagesCoverData | script.js:128-152 | pages 1 to the page total concatenate back to the whole data |
| Paging.PageValidRange | script.js:152-171 | the pages the handlers keep are exactly 1 to the page total (1 when there is no data) |
| Paging.NavigationStaysInRange | script.js:156-174 | on the buttons drawn for the current page, prev moves back by one unless on page 1 or with no pager, next moves on by one unless on the last page, and both stay in range |
| Paging.DoubleClickLeavesRange | script.js:158-174 | two clicks on the same drawn buttons, before the re-render, reach page 0 from page 2 and page 3 of 2 from page 1 |
| Paging.RenderSpec | script.js:118-156 | "no data" shows exactly for an empty list; otherwise the page's non-empty slice is shown, and the pager exactly when there are more than 50 records |
| Services.LooselyEqualsOneIgnoresTrim | script.js:231 | surrounding whitespace never changes `v == 1` |
| Services.DigitFirstIsDecimal | script.js:231 | a value starting with a decimal digit and no `0x`/`0o`/`0b` prefix is compared as an unsigned decimal literal after trimming |
| Services.UnsignedIntegerIsOne | script.js:231 | a run of digits equals one exactly when its value is one |
| Services.DecimalIntegerIsOne | script.js:231 | a digit string is ✔ exactly when its decimal value is one, leading zeros included |
| Services.OneSpellings | script.js:231 | "1", " 1 " and "01" are ✔ |
| Services.PrefixedOneSpellings | script.js:231 | "+1" and "0x1" are ✔ |
| Services.DecimalFractionIsOne | script.js:231 | "1.0" is ✔ |
| Services.DecimalExponentIsOne | script.js:231 | "10e-1" is ✔ |
| Services.NotOneSpellings | script.js:231 | "", "0", "-1", "1a" and "是" are ✖ |
| Services.FindServiceSpec | script.js:212-214 | the lookup yields the first row whose 醫事機構名稱 is non-empty and contains the name, and nothing exactly when no row's does |
| Services.ServiceItemsFlags | script.js:225-233 | each service line names a non-blank column and is ✔ exactly when that column's value loosely equals one |
| Services.ServiceItemsInKeyOrder | script.js:225-228 | the service lines are keys after the first four, in key order |
| Services.ServiceItemsComplete | script.js:225-228 | every non-blank key after the first four has a service line |
| Services.ServiceItemsFollowHeaders | script.js:225-226 | for a parsed services row, the lines are the distinct header names after the first four, less the blank ones |
| Services.ServiceTableSpec | script.js:218-241 | the 暫無服務資料 message shows exactly when no row names the record |
| Dashboard.MergeFilesSpec | script.js:346-358 | loading fails exactly when some file is blank, and otherwise yields one record per data line of every file |
| Dashboard.DirectoryFilesMerge | script.js:339-358 | for the two files: the home-care records, then the hospice records, each with its label; nothing if either file is blank |
| Dashboard.MergeStaysFailed | script.js:346-349 | once a file fails to parse, the whole load fails |
| Dashboard.MergeDirectoryFiles | script.js:344-358 | the file loop yields exactly `MergeFiles`: every file's records, in order, or failure at the first blank file |
| Dashboard.FoldAll | script.js:360-362 | the fold pass keeps the number of records |
| Dashboard.FoldAllSpec | script.js:360-362 | the fold pass keeps every record in place, changes only addresses, keeps their length and leaves no 臺 |
| Dashboard.FoldAddressesOf | script.js:360-362 | the pass over an array of the merged records yields exactly `FoldAll` of them |
| Dashboard.ValidatedSpec | script.js:427-429 | validation keeps, in order, exactly the records whose name and address are not blank |
| Dashboard.Directory.constructor | script.js:5-10 | the globals start empty, on page 1, and stay so after the load-time `validateData()` |
| Dashboard.Directory.ValidateData | script.js:427-429 | allData becomes its records that pass validation |
| Dashboard.Directory.BuildCityDistrictMap | script.js:35-45 | the map becomes the old map with every record's pair added, so nothing is lost and nothing else appears |
| Dashboard.Directory.AddRecordPair | script.js:37-43 | one record's step creates the city's set if missing and adds the district |
| Dashboard.Directory.SearchData | script.js:75-96 | currentData becomes the search result and currentPage becomes 1, a valid page |
| Dashboard.Directory.ClickPrev | script.js:158-165 | the click moves back one page exactly when the button is drawn and enabled, and keeps the page valid |
| Dashboard.Directory.ClickNext | script.js:167-174 | the click moves on one page exactly when the button is drawn and enabled, and keeps the page valid |
| Dashboard.Directory.CurrentTable | script.js:118-130 | the drawn table is "no data" exactly for an empty list, else the current page's non-empty slice of at most 50 records |
| Dashboard.Directory.Load | script.js:334-381 | a blank directory file changes nothing; otherwise allData is the folded merged records, the map gains their pairs, currentData is allData and serviceData is the parsed services when they parse; started on page 1, the page stays valid |
| Dashboard.Directory.LoadDirectory | script.js:344-366 | the directory part stores the folded merged records and builds the map from them, or changes nothing on failure |
| Dashboard.Directory.LoadServices | script.js:370-378 | serviceData takes the parsed services rows when the fetch and the parse succeed, and is kept otherwise |

## Left out

- DOM rendering: `innerHTML`, `createElement`, table rows, map links and `tel:` links. The model describes what is drawn as values (`TableView`, `Pager`, `ServiceItem`) and not the markup.
- `smoothRender`: its 200 ms timer and animation frames. `Directory.ClickPrev` and `Directory.ClickNext` act on the buttons as drawn for the current page, as if the re-render happened at once. In the script a second click before the re-render acts on the old buttons, and the page can leave the range 1 to the page total; see "## Findings".
- Scrolling, the modal's show and hide, the dark-mode theme kept in `localStorage`, and the positioning of the suggestion box: these are browser effects with no logic.
- `populateCityList` and `populateDistrictList`: they only write `<option>` markup from the map. The model keeps the map as a map of sets, not in the key and Set insertion order the lists would show.
- The row-click handler (script.js:395-401): it finds a record by the text of the clicked cell, which is DOM state.
- `showDetails`' "無" fallbacks for empty fields: display only.
- `fetch`: the directory files' texts and the services text are parameters of `Load`. A failed services fetch is `None`. A failed directory fetch is not modelled, and a blank directory file ends the handler as csvToJson's throw does.
- Dashboard.Directory.Load: it takes the list of files as a parameter; `DirectoryFiles` gives the script's two entries, and `DirectoryFilesMerge` states the result for them.
- The event wiring (selector changes, the search button, Enter, suggestion clicks): each calls `searchData`, which `SearchData` models with the selectors' values and the keyword as parameters.
- JavaScript property order for integer-like keys and the `__proto__` key: a row object is modelled with plain insertion order.
- Services.LooselyEqualsOne: it compares the exact decimal value to one. Double rounding of literals with 17 or more significant digits is not modelled (for example "1.0000000000000001" is ✔ in the script and ✖ here), nor is `Infinity`, which is never one.
- Strings are sequences of Unicode scalar values. UTF-16 surrogate pairs are not modelled; the district pattern only matches characters of the Basic Multilingual Plane anyway.
- `scrollTopSmooth` and `safeTableAction`, and the final `console.log`: no logic.
- The scraping scripts under `scripts/`: HTTP and file output. They are not part of this model.

## Findings

| source | as written | input that shows it | evidently intended | confidence | as-written member | corrected member |
|---|---|---|---|---|---|---|
| script.js:158-174 | each button handler changes `currentPage` at once, but the buttons are redrawn only when the re-render runs 200 ms later (script.js:106, 154), so a second click acts on the old, still enabled button | 100 records on page 2, "← 上一頁" clicked twice within 200 ms: page 0, an empty slice with "← 上一頁" still enabled; on page 1, "下一頁 →" twice: page 3 of 2 | the page stays between 1 and the page total | not executed | Paging.DoubleClickLeavesRange | Paging.NavigationStaysInRange |
