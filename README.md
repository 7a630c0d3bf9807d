# Crop recommendation rule engine

A Dafny model of the rule-based crop advisor in `script.js`. Given a climate
region and a calendar month, the advisor looks up a placeholder mean
temperature for that region and month. It then scores every crop: 1 point
when the month is one of the crop's planting months and 2 points when the
temperature lies in the crop's ideal range, both ends included. It keeps the
crops that score at least 2 and ranks them by score, highest first, with a
stable sort.

Modules:

- `Wrappers`: `Option`, standing for the `null` "unknown temperature" of script.js.
- `ReferenceData`: the governorate list, the four crop definitions, the
  monthly temperature table, `MonthIndex`, `GetRegionTemp` and the
  governorate-to-region lookup `RegionOf`.
- `DisplayText`: the display strings a result carries: the range "min–max"
  with an en dash, and the soils joined by ", ".
- `Ranking`: the result record `CropResult` and the sort by score. The pure
  stable insertion sort `SortByScore` is the specification. The in-place array
  sort `SortInPlace` models `results.sort` and is proved equal to it.
- `Evaluator`: the per-crop tests `MonthOk` and `TempOk`, `Score`, the filter
  `Qualifying`, the specification `Evaluate`, and the imperative engine
  `EvaluateCrops`. The engine is a loop that collects qualifying records and
  then sorts them in place. It is proved to return exactly `Evaluate`.

The evaluator takes the crop list and the temperature table as parameters, so
its lemmas hold for any reference data. The tables of script.js are the
constants `ReferenceData.Crops` and `ReferenceData.SampleMonthlyTemps`, and the
concrete scenario lemmas use them. Because Dafny functions have no hidden
state, evaluating the same (region, month) twice always gives the same result.

## Model

| member | source | states |
|---|---|---|
| `ReferenceData.MonthIndex` | script.js:66 | a month 1..12 maps to a table position 0..11, one less than the month |
| `ReferenceData.GetRegionTemp` | script.js:68-72 | None exactly when the region has no table entry; otherwise the entry at position month-1 |
| `ReferenceData.RegionOf` | script.js:134 | None exactly when no governorate has the name; otherwise the region of the first governorate with that name |
| `ReferenceData.SampleTablesWellFormed` | script.js:20-63 | every region of the sample table has twelve monthly values, and every crop range has min <= max |
| `ReferenceData.SampleGovernoratesCovered` | script.js:6-17 | every listed governorate is classified under a region that has a temperature entry |
| `ReferenceData.GovernorateRegionHasTemperature` | script.js:132-135 | when every governorate's region is in the table, a governorate found by name always yields a known temperature |
| `DisplayText.NatTextRoundTrip` | script.js:92 | the decimal text of a non-negative number reads back as that number |
| `DisplayText.IntTextRoundTrip` | script.js:92 | the text a template literal gives an integer, sign included, reads back as that integer |
| `DisplayText.RangeTextRoundTrip` | script.js:92 | the `idealTemp` text has one en dash, and the two sides read back as the range bounds |
| `DisplayText.IntText` | script.js:92 | the text a template literal gives an integer: never empty and without an en dash, so the dash in a range is unambiguous (read back by `IntTextRoundTrip`) |
| `DisplayText.RangeText` | script.js:92 | the `idealTemp` text: the lower bound, an en dash, the upper bound (split back by `RangeTextRoundTrip`) |
| `DisplayText.Join` | script.js:92 | `soils.join(", ")`: the parts in order with the separator between neighbours (laid out by `JoinLength` and `JoinFront`) |
| `DisplayText.JoinLength` | script.js:92 | the joined soils string is empty for no soils; otherwise its length is the soils' lengths plus one separator between neighbours, and it ends with the last soil |
| `DisplayText.JoinFront` | script.js:92 | a join of two or more parts is the first part, the separator, then the join of the rest: every soil appears in order with ", " between neighbours |
| `Ranking.SortByScore` | script.js:97 | `results.sort((a,b) => b.score - a.score)` as a stable insertion sort, highest score first (sorted, permutation, stable and unique by the four lemmas below) |
| `Ranking.SortByScoreSorted` | script.js:97 | the sorted results never increase in score from left to right |
| `Ranking.SortByScorePermutes` | script.js:97 | the sort neither loses nor invents results: same multiset |
| `Ranking.SortByScoreStable` | script.js:97 | for every score, the results with that score keep their original order |
| `Ranking.SortedClassesDetermine` | script.js:97 | two score-sorted sequences with the same per-score subsequences are equal, so the stable sort has exactly one possible outcome |
| `Ranking.SortInPlace` | script.js:97 | the in-place sort of the array leaves exactly the stable sort of its old contents |
| `Evaluator.MonthOk` | script.js:80 | the month is one of the crop's planting months (`c.months.includes(month)`) |
| `Evaluator.TempOk` | script.js:82-83 | the temperature is known and lies in the crop's range, both ends included; an unknown temperature never matches |
| `Evaluator.Score` | script.js:85-87 | the score lies in 0..3; it is at least 2 exactly when the temperature matches, and odd exactly when the month matches |
| `Evaluator.MakeResult` | script.js:90-93 | the pushed record: the crop's score, `tempMatch` the temperature test and `monthMatch` the month test (so `tempMatch` holds exactly when the score reaches the threshold 2 and `monthMatch` exactly when it is odd), the crop's id, name and water, the range text and the ", "-joined soils, and the region temperature |
| `Evaluator.Qualifying` | script.js:78-95 | no more records than crops, and every record kept matched on temperature and scores 2 or 3 |
| `Evaluator.Evaluate` | script.js:75-99 | the specification of `evaluateCrops`: the looked-up temperature with the stable score sort of the qualifying records (characterised by the lemmas below) |
| `Evaluator.EvaluateCrops` | script.js:75-99 | the loop with its mutable score and the in-place sort return exactly the looked-up temperature and the sorted qualifying records of `Evaluate` |
| `Evaluator.QualifyingAppend` | script.js:78-95 | crops are evaluated one by one in list order: the records for a concatenated list are the records of the first part followed by those of the second |
| `Evaluator.QualifyingMember` | script.js:83-93 | a record is kept exactly when it is the record of a listed crop whose temperature matches |
| `Evaluator.RecommendedMembers` | script.js:75-99 | the returned results are exactly the records of the crops whose temperature matches, each carrying its crop's id, name, water, range text, soils, the computed matches and score, and the looked-up temperature |
| `Evaluator.RecommendedIffTempOk` | script.js:83-89 | a listed crop is recommended if and only if the temperature is in its range, whatever the month; a month-only match (score 1) is never recommended |
| `Evaluator.ResultsMatchTemperature` | script.js:89-92 | every result matched on temperature, scores 2 or 3, and carries the looked-up region temperature |
| `Evaluator.ResultsRanked` | script.js:97 | the results are sorted by score, descending, are a permutation of the qualifying records, and keep crop order within each score |
| `Evaluator.RankingUnique` | script.js:97 | any score-sorted ordering that keeps each score class in crop order is the returned result list |
| `Evaluator.UnknownRegionEmpty` | script.js:68-98 | for a region outside the table the temperature is None and the result list is empty |
| `Evaluator.QualifyingFour` | script.js:78-95 | over a four-crop list the kept records are those of the crops whose temperature matches, in list order |
| `Evaluator.DeltaJanuary` | script.js:20-63 | Delta in January is 17; Wheat and then Barley are returned, each with score 3, and nothing else |
| `Evaluator.DeltaJulyRiceExcluded` | script.js:20-63 | Delta in July is 32; Rice scores 1 and is not returned |
| `Evaluator.UpperJulyMaizeExcluded` | script.js:37-63 | Upper in July is 36, just above Maize's inclusive maximum of 35; Maize matches the month, scores 1 and is not returned |
| `Evaluator.SaharaUnknown` | script.js:68-98 | the unknown region "Sahara" gives no temperature and no results in any month |

## Left out

- The page wiring and rendering (script.js:101-154): element lookups, option lists, crop cards and result HTML are browser I/O.
- The rules popup (script.js:156-163): it only builds and shows an alert string.
- Month names through `Date` and `toLocaleString` (script.js:124, 140, 145): a locale library that is not part of this model.
- `parseInt` of the month selector (script.js:132): input plumbing. The month arrives as an integer.
- The commented notes on a future satellite-data backend (script.js:165-171): nothing there is implemented.
- EvaluateCrops: requires a month in 1..12. For another month script.js would read `undefined` from the table, and every temperature test would then fail.
- GetRegionTemp: requires every table entry to hold twelve values. This is true of the sample table (`SampleTablesWellFormed`). A shorter entry would make script.js read `undefined`.
- GetRegionTemp: None stands for both the `null` and the `undefined` of script.js. A JavaScript object lookup also finds inherited property names such as "toString" or "constructor"; there `getRegionTemp` returns `undefined` and `evaluateCrops` returns that `undefined` with no results. The model treats such names as missing keys (None, no results). The page only passes region names taken from the governorate list.
- RegionOf: returns None for a name that no governorate has. The click handler of script.js would throw there instead, but it only ever passes names taken from the governorate list.
- Temperatures and ranges are integers, as every value in the tables of script.js is. JavaScript's floating-point numbers are not modelled.
- `results.push` is modelled as appending to a sequence. The collected sequence is then copied into an array, which is sorted in place.
