# sc2pulse Google Sheets script: a verified model

`script.js` is a Google Apps Script. It fills spreadsheet tables with
StarCraft II player statistics from the sc2pulse web API. This project
models the deterministic core of the script's 1v1 summary report:

- **id batching** (`getSummaries`): the character ids are cut into
  consecutive batches of at most 50, one summary request goes out per batch,
  and the responses are concatenated in order;
- **sort-key normalisation** (`getSummarySort`, `snakeCaseToCamelCase`):
  the `sortBy` text is trimmed and lower-cased, its first whitespace run
  becomes `_`, and the result is camel-cased; the comparator is
  `b[key] - a[key]`;
- **name trimming** (`getCharacterName`) and the **profile link**
  (`getCharacterLink`);
- **`toMap`**, which fills a map item by item, so a later item wins;
- the **row assembly of `summary1v1`**: a single id is wrapped into a list,
  and the table is a fixed seven-column header followed by one row per
  summary, in sorted order.

The network requests are parameters of the model. `fetch` / `fetchSummaries`
answers one batch of ids with its summaries. `fetchCharacters` answers a
list of ids with their characters. Both are total functions, so a request
is assumed never to fail.

Files, one module each:

- `wrappers.dfy`: `Option` and `Result`.
- `jsstring.dfy`: the JavaScript string primitives the script uses
  (whitespace, `toLowerCase`, `trim`, `indexOf`, `substring`, and the
  decimal text of a number).
- `characters.dfy`: `getCharacterName` and `getCharacterLink`.
- `summarysort.dfy`: sort key, comparator and sort order.
- `batching.dfy`: `getSummaries`.
- `tomap.dfy`: `toMap`.
- `report.dfy`: `summary1v1`.

`getSummaries` and `toMap` are methods with loops, proved against the
specification functions `Batches`/`FetchAll` and `MapOf`. The properties of
those functions are proved as lemmas. The string helpers are functions with
lemmas.

Where descriptions of this system and `script.js` differ, the model follows
`script.js`:

- The batch size is always 50 (script.js:98). This script has no variant
  where a long look-back window lowers it to 1.
- A name without `#` gives the empty string, not the whole name.
  `indexOf` answers -1 and `substring(0, -1)` clamps -1 to 0
  (script.js:60).

## Model

| member | source | states |
|---|---|---|
| `Batching.GetSummaries` | script.js:95-105 | the loop issues exactly the requests `Batches(ids)`, in order, and returns their responses concatenated in that order |
| `Batching.BatchesCover` | script.js:97-102 | the batches, concatenated, are exactly `ids`: every id is requested once, in input order |
| `Batching.BatchesShape` | script.js:97-99 | there are ceil(\|ids\| / 50) batches, none exactly when `ids` is empty; batch k is `ids[50k .. min(50k + 50, \|ids\|)]`, between 1 and 50 ids long |
| `Batching.BatchesFromShape` | script.js:97-102 | the same count and slice shape for the batches cut from any cursor position `from` on |
| `Batching.BatchesFromCover` | script.js:97-102 | the batches cut from cursor `from` on, concatenated, are `ids[from..]` |
| `Batching.FetchAllAppend` | script.js:101 | concatenating responses is compatible with splitting the request list anywhere |
| `Batching.GetSummariesPointwise` | script.js:95-104 | if each batch is answered with one summary per id in batch order, the result has one summary per id in the order of `ids`, with no trace of the batch boundaries |
| `ToMap.ToMap` | script.js:76-82 | filling the map item by item gives `MapOf(items, keyMapper, valueMapper)` |
| `ToMap.MapOfKeys` | script.js:78-80 | the map's keys are exactly the keys of the items |
| `ToMap.MapOfLastWins` | script.js:78-80 | a key maps to the value of the last item that has that key |
| `ToMap.MapOfEntries` | script.js:79 | every entry comes from an item with that key and that item's value |
| `ToMap.MapOfSize` | script.js:76-82 | the map's size is the number of distinct keys; it is at most the number of items, and equal exactly when no key repeats |
| `ToMap.KeySetSize` | script.js:76-82 | the set of keys is never larger than the item list, and equally large exactly when no key repeats |
| `JsString.IndexOf` | script.js:60 | `indexOf` answers -1 exactly when the character is absent; otherwise it answers an index holding the character with no earlier occurrence |
| `JsString.SubstringFacts` | script.js:60 | `substring` takes the slice for in-range ends, gives "" when both ends are at most 0, and does not depend on the order of its ends |
| `JsString.TrimStartSpec` | script.js:51 | `trimStart` removes a whitespace prefix, all of it |
| `JsString.TrimEndSpec` | script.js:51 | `trimEnd` removes a whitespace suffix, all of it |
| `JsString.TrimPadding` | script.js:51 | trimming any whitespace padding from around a string that does not start or end with whitespace gives that string back |
| `JsString.TrimIgnoresPadding` | script.js:51 | extra whitespace around a string does not change what it trims to |
| `JsString.TrimSplit` | script.js:51 | a string is its trimmed form between the whitespace that trimming removed |
| `JsString.TrimResult` | script.js:51 | a trimmed string neither starts nor ends with whitespace and is no longer than the input |
| `JsString.TrimToLower` | script.js:51 | lower-casing and trimming commute |
| `JsString.ToLowerProperties` | script.js:51 | `toLowerCase` leaves no upper-case letter, is idempotent, and leaves lower-case text unchanged |
| `JsString.IntDecimalRoundTrip` | script.js:68 | the decimal text of an id reads back as that id |
| `Characters.CharacterName` | script.js:59-61 | with a `#` in the name, the result is the part before the first `#`; with none, the result is "" |
| `Characters.CharacterNameOfTag` | script.js:59-61 | for a battle tag `tag#discriminator` the result is `tag` |
| `Characters.CharacterNameExample` | script.js:59-61 | "Serral#1234" gives "Serral", and "Serral" gives "" |
| `Characters.CharacterLink` | script.js:67-69 | the link starts with `URL_ROOT + "/?type=character&id="` and ends with `"&m=1#player-stats-mmr"`, with the id text between them |
| `Characters.LinkRoundTrip` | script.js:67-69 | the id can be read back from the link it produced |
| `Characters.LinkInjective` | script.js:67-69 | different ids give different links |
| `SummarySort.CamelGroupsLeavesNoGroup` | script.js:85 | after the global replace no `_` is followed by a letter a-z |
| `SummarySort.CamelGroupsCounts` | script.js:85 | the output is shorter than the input by exactly the number of replaced `_x` groups, and so is its count of `_` |
| `SummarySort.CamelGroupsNoGroup` | script.js:85 | a string with no `_x` group is left unchanged, with no replacement |
| `SummarySort.CamelGroupsIdempotent` | script.js:85 | replacing a second time changes nothing |
| `SummarySort.CamelGroupsAppend` | script.js:85 | the replace works piece by piece across a cut that does not follow a `_` |
| `SummarySort.CamelGroupsJoin` | script.js:85 | in `a_xb`, where `a` has no group and does not end in `_`, the `_x` becomes `X` and `a` is kept |
| `SummarySort.SnakeCaseJoin` | script.js:84-86 | the same for `snakeCaseToCamelCase` on lower-case input |
| `SummarySort.ReplaceFirstWhitespaceRunSplit` | script.js:51 | for `p + w + q`, where `p` holds no whitespace, `w` is whitespace and `q` does not start with it, the result is `p + "_" + q`: only the first run is replaced |
| `SummarySort.ReplaceFirstWhitespaceRunNone` | script.js:51 | a key without whitespace is not changed by the replace |
| `SummarySort.SummarySortKeyOfSnakeKey` | script.js:50-51 | a lower-case key with no whitespace only goes through the camel-casing |
| `SummarySort.SummarySortKeyOfTwoWords` | script.js:50-51 | two words with whitespace around and between them give the camel-cased `word1_word2` |
| `SummarySort.SummarySortKeyIgnoresCase` | script.js:51 | the key does not depend on letter case in `sortBy` |
| `SummarySort.SummarySortKeyIgnoresPadding` | script.js:51 | the key does not depend on whitespace around `sortBy` |
| `SummarySort.SummarySortKeyDefault` | script.js:13 | the default "rating_last" gives the field name "ratingLast" |
| `SummarySort.SummarySortKeySpelling` | script.js:51 | " Rating Last " also gives "ratingLast" |
| `SummarySort.Compare` | script.js:52 | the comparator is a number exactly for the numeric fields; it is negative exactly when `a`'s value is larger, so larger values sort first, and zero exactly on equal values; otherwise it is NaN |
| `SummarySort.CompareAntisymmetric` | script.js:52 | swapping the arguments negates the comparator |
| `SummarySort.SortedByIsDescending` | script.js:52 | for a numeric key, sorted by the comparator means descending by that field |
| `SummarySort.SortCompare` | script.js:52 | as the sort reads it, the comparator is the difference of the sort values, with NaN counted as 0 |
| `SummarySort.SortSummaries` | script.js:17 | the sorted summaries are a permutation of the fetched ones, and no pair is out of order for the comparator |
| `SummarySort.SortStable` | script.js:17 | the sort is stable: for every value, the summaries with that value keep their fetched order; with SortSummaries' own contract this fixes the result |
| `SummarySort.InsertWithValue` | script.js:17 | an inserted summary lands before every summary of equal value and changes no other value's order |
| `SummarySort.SortUnknownKey` | script.js:17 | with a key that is not a numeric field, the sort keeps the fetched order |
| `SummarySort.SortByGamesExample` | script.js:17 | sorting by "games" puts the summary with 12 games before the one with 5 |
| `Report.IdList` | script.js:14 | a single id is wrapped into a one-element list; a list of ids is kept as it is |
| `Report.OneIdOneRequest` | script.js:14-16 | a single id is sent in one request for that id alone |
| `Report.SummaryRow` | script.js:22 | a summary row has as many columns as the header |
| `Report.CharacterMapIds` | script.js:119-121 | the character found under an id has that id, so each row links to its own summary's character |
| `Report.BuildRows` | script.js:19-24 | the loop fails exactly when some summary's character is missing, naming the first such character; otherwise it returns the header and then one row per summary, in order |
| `Report.Summary1v1` | script.js:13-25 | the report over the sorted summaries of the wrapped ids: it fails exactly when a character is missing, naming the first one; otherwise it is the header followed by exactly one row per summary, in sorted order |
| `Report.ReportRowWidth` | script.js:19-22 | every row of a report, the header included, has seven columns |

## Left out

- `fetchJson`, `UrlFetchApp.fetch` and `JSON.parse` (script.js:71-74) are network I/O and a foreign library. They become the function parameters `fetchSummaries`/`fetch` and `fetchCharacters`. Failed requests and malformed responses, which abort the script, are not modelled.
- The summary URL and `encodeURIComponent` of the comma-joined batch (script.js:100) are left out, and so is the depth that URL carries. Each request is represented by its batch of ids. For the profile link, the decimal text of an integer needs no escaping, so `Characters.CharacterLink` is exact.
- `getCharacters` (script.js:111-113) is the parameter `fetchCharacters`. `getCharacterMap` (script.js:119-121) is `Report.CharacterMap` over it.
- `summary1v1Clan` (script.js:34-48) is not part of this model. The shape of the clan search response is not visible. Its id list also depends on the key order of a JavaScript `Map` (insertion order), which Dafny's `map` does not keep.
- `ToMap.ToMap` does not keep the key insertion order of a JavaScript `Map`. Only the keys and values are modelled.
- `toLowerCase` is modelled on the ASCII letters only. Unicode case mapping of other characters is not modelled.
- Numbers are unbounded integers. JavaScript numbers are doubles (`ratingAvg` may have a fraction), and floating point is not modelled.
- The engine's sort algorithm is not modelled. `SummarySort.SortSummaries` specifies the outcome that the stable sort of ECMAScript 2019 must give. A key that is not a numeric field gives NaN, and the sort counts NaN as 0, so such keys keep the fetched order.
- The in-place `summary.sort` and the `push`es into `result` are modelled on values: the sort returns a new sequence, and `Report.BuildRows` extends a sequence.
- `entry.race.toLowerCase()` on a missing race, which would throw, is not modelled. The race is always a string.
