# Baking AI recipe catalogue, modelled in Dafny

Baking AI serves a catalogue of baking recipes. The backend (`Backend/app.py`) loads the
recipe table and keeps one record per normalised name. It converts each recipe's
ingredient text to grams with `convert_to_grams`. Its `/get-all-recipes` endpoint
filters the records by a search text, sorts them by name and returns one page with a
page count. The recipe page (`src/pages/RecipesPage.js`) fetches one page at a time,
steps through pages with the Previous and Next buttons, and shows a recipe in a
modal. The modal shows the recipe's total grams, summed by `calculateTotalGrams` from
the converted entries.

The model:

- `py_text.dfy` (`PyText`): Python's string helpers, namely white space, lower-casing,
  `strip`, substring test and string order.
- `decimal.dfy` (`Decimal`): exact decimal numerals and a scanner for
  `\d+(\.\d+)?`.
- `gram_conversion.dfy` (`GramConversion`): `convert_to_grams`. It models:
  - the regular expression, as a hand-written matcher with the alternation order of its unit group;
  - `re.findall`, as a left-to-right scan;
  - the density table;
  - rounding to hundredths;
  - `str` rendering of the gram figure;
  - the loop that builds `converted_values` and `total_grams`.
- `catalogue.dfy` (`Catalogue`): the loader's de-duplication and conversion. It also
  models the listing of `get_all_recipes`: search, sort, Python slicing, `//`, the
  page count, the 404 and the zero-`limit` error.
- `total_grams.dfy` (`ClientGrams`): `calculateTotalGrams`. It has a matcher for
  `=\s?(\d+(\.\d+)?)g` with JavaScript's `\s`, takes the first match of each entry and
  sums the numbers.
- `round_trip.dfy` (`RoundTrip`): the page reads back the entries the backend writes.
  Each entry yields exactly its gram value, so the page's total equals the backend's
  total, or 0 where the backend reports "N/A".
- `recipes_page.dfy` (`RecipesPage`): the page's state hooks, as a class
  `RecipesView` with one method per handler. It also holds the Previous and Next
  updaters and the answer of the backend as the page receives it.

Grams are whole numbers of hundredths of a gram. Client totals are exact reals.

## Model

| member | source | states |
|---|---|---|
| GramConversion.Density | Backend/app.py:12-21 | `density_conversion[unit]` exists for every capturable unit: cup and cups 240, tbsp/tablespoon/tablespoons 15, tsp/teaspoon/teaspoons 5 |
| GramConversion.UnitAt | Backend/app.py:25 | definition: the first alternative of the unit group, in pattern order, whose spelling stands at the position; its properties are `UnitAtSpec` and `UnitAtComplete` |
| GramConversion.UnitAtSpec | Backend/app.py:25 | the unit group picks the first alternative, in pattern order, that fits; it fails only where no alternative fits |
| GramConversion.UnitAtComplete | Backend/app.py:25 | where an alternative is the first that fits, the unit group captures it |
| GramConversion.PluralFitsSingular | Backend/app.py:25 | where "cups", "tablespoons" or "teaspoons" fits, its singular, tried earlier, fits too |
| GramConversion.PluralCapturedAsSingular | Backend/app.py:25 | no match ever captures a plural unit, so "2 cups" is reported as `cup` |
| GramConversion.SpaceRunEnd | Backend/app.py:25 | `\s*` takes the longest run of Python white space |
| Decimal.NumeralEndSound | Backend/app.py:25 | the greedy `\d+(?:\.\d+)?` ends after a well-formed numeral, or matches nothing where no digit stands |
| Decimal.NumeralEndComplete | Backend/app.py:25 | any numeral span that no digit follows, and that, when it has no fraction, no point and digit follow, is the one the greedy scan finds; so "12." reads 12 and "1.5." reads 1.5 |
| GramConversion.MatchAt | Backend/app.py:25 | definition: the greedy numeral, the run of spaces and the unit at a position; its properties are `MatchAtSound`, `MatchAtComplete` and `MatchAtBounds` |
| GramConversion.MatchAtSound | Backend/app.py:25 | what the matcher finds at a position is an instance of `number, spaces, unit` |
| GramConversion.MatchAtComplete | Backend/app.py:25 | every instance of the pattern at a position is what the matcher finds there; the match is unique |
| GramConversion.MatchAtBounds | Backend/app.py:25 | a match starts at its position, ends after it within the text, and holds a well-formed amount |
| GramConversion.Scan | Backend/app.py:25 | the scan from a position lists only well-formed amounts; it takes the match at a position and resumes where it ended, or moves one position on; `ScanGenuine`, `ScanOrdered` and `ScanCovers` state what it lists |
| GramConversion.FindAll | Backend/app.py:25 | `re.findall` lists only well-formed amounts; its full specification is `FindAllSpec` |
| GramConversion.FindAllSpec | Backend/app.py:25 | `re.findall` lists genuine matches left to right, without overlap, and skips no position where the pattern matches |
| GramConversion.OccurrencesIgnoreCase | Backend/app.py:25 | the text is lower-cased first, so a text and its lower-cased form have the same occurrences |
| GramConversion.RoundHalfEven | Backend/app.py:28 | definition: `x / d` rounded to a whole number, ties to even; its properties are `RoundHalfEvenNearest` and `RoundHalfEvenExact` |
| GramConversion.RoundHalfEvenNearest | Backend/app.py:28 | `round(x, 2)` is within half a hundredth of the exact value; ties go to the even neighbour |
| GramConversion.RoundHalfEvenExact | Backend/app.py:33 | an exact number of hundredths is kept by rounding, so `round(total_grams, 2)` of a sum of rounded values changes nothing |
| GramConversion.GramsHundredths | Backend/app.py:28 | definition: `round(float(amount) * density_conversion[unit], 2)` in hundredths; its property is `GramsExact` |
| GramConversion.GramsExact | Backend/app.py:28 | for an amount with at most two decimals, the gram value is exactly amount × density |
| GramConversion.GramsNumeral | Backend/app.py:30 | the rendered gram figure is a numeral with a whole part and a non-empty fraction, as `str(float)` writes 480.0 |
| GramConversion.FormatEntry | Backend/app.py:30 | definition: the f-string `"{amount} {unit} = {grams}g"`; `RoundTrip.EntryReadBack` states what the page reads from it |
| GramConversion.ConvertedValues | Backend/app.py:24-30 | definition: one entry per occurrence, in order; `ConvertToGrams` computes it by the loop and `RoundTrip.ConvertedTotalReadBack` states its sum |
| GramConversion.GramsNumeralValue | Backend/app.py:30 | the rendered gram figure denotes exactly the gram value |
| GramConversion.TotalGrams | Backend/app.py:26-33 | a reported total is positive |
| GramConversion.TotalGramsNotAvailable | Backend/app.py:26-33 | `total_grams` is "N/A" exactly when every occurrence contributes zero grams, including when nothing matched |
| GramConversion.ConvertToGrams | Backend/app.py:23-34 | the loop yields one entry `"<amount> <unit> = <grams>g"` per occurrence, in order, and the total of their gram values, or "N/A" when it is not positive |
| Catalogue.Dedup | Backend/app.py:53-55 | definition: one row per stripped, lower-cased name, the first in table order; its properties are `DedupSpec` and `DedupEmpty` |
| Catalogue.DedupSpec | Backend/app.py:53-55 | de-duplication by stripped, lower-cased name gives a subsequence in which no two rows share a name; every name of the table is still present, kept by its first row |
| Catalogue.DedupEmpty | Backend/app.py:53-55 | de-duplication empties only an empty table |
| Catalogue.Load | Backend/app.py:52-59 | definition of one loaded record: the row with missing times "N/A", missing ingredients "", and `convert_to_grams` of the ingredients added; what the loaded records satisfy is stated by `LoadRecipesSpec` and `RoundTrip.RecipeTotalReadBack` |
| Catalogue.LoadRecipes | Backend/app.py:52-62 | definition: the de-duplicated rows, each loaded; its properties are `LoadRecipesSpec` |
| Catalogue.LoadRecipesSpec | Backend/app.py:52-62 | the loader returns no records exactly for an empty table, no two with one normalised name, and among them the loaded first row of every name |
| Catalogue.SearchQuery | Backend/app.py:73 | definition: the `search` argument, "" when absent, stripped and lower-cased; `BlankSearchKeepsAll` states what a blank one selects |
| Catalogue.Search | Backend/app.py:74-75 | definition: the records whose lower-cased name contains the query, in order; its properties are `SearchSpec` and `BlankSearchKeepsAll` |
| Catalogue.SearchSpec | Backend/app.py:73-75 | a record is kept exactly when its lower-cased name contains the query (every record, for the empty query); the result is a subsequence |
| Catalogue.BlankSearchKeepsAll | Backend/app.py:73-75 | a missing, empty or blank search text keeps every record, in order |
| Catalogue.SortBy | Backend/app.py:79 | definition: insertion sort by a key in Python's string order; its properties are `SortBySpec` and `SortByLength` |
| Catalogue.SortByName | Backend/app.py:79 | definition: the records sorted by lower-cased name; its properties are `SortBySpec` for that key |
| Catalogue.SortBySpec | Backend/app.py:79 | the sorted list is a permutation of the list, non-decreasing by key |
| Catalogue.SortByLength | Backend/app.py:79 | sorting keeps the number of records |
| Catalogue.PySlice | Backend/app.py:94 | definition: Python's `xs[a:b]`, negative bounds counted from the end, bounds clamped to the list |
| Catalogue.PageSlice | Backend/app.py:81-94 | definition: `sorted_recipes[start:end]` with `start = (page - 1) * limit`; its properties are `PageSliceSpec`, `SortedPage` and `PagesCover` |
| Catalogue.PageSliceSpec | Backend/app.py:81-94 | for `page >= 1` and `limit >= 1` the page is the sorted records from `(page - 1) * limit` up to `page * limit`, cut at the end, so at most `limit` of them |
| Catalogue.SortedPage | Backend/app.py:79-94 | a page of the sorted records is sorted, holds at most `limit` records, each one of the searched records |
| Catalogue.FloorDiv | Backend/app.py:96 | definition: Python's `//` by way of Dafny's division; its property is `FloorDivSpec` |
| Catalogue.FloorDivSpec | Backend/app.py:96 | Python's `//` rounds the quotient towards minus infinity, for either sign of the divisor |
| Catalogue.TotalPages | Backend/app.py:96 | definition: `(len(recipes) + limit - 1) // limit`; its property is `TotalPagesSpec` |
| Catalogue.TotalPagesSpec | Backend/app.py:96 | for `limit >= 1`, `total_pages` is the ceiling of `n / limit`: `(t - 1) * limit < n <= t * limit`, and 0 exactly for no records |
| Catalogue.PagesPrefix | Backend/app.py:81-94 | the first `k` pages laid end to end are the first `k * limit` records |
| Catalogue.PagesCover | Backend/app.py:81-96 | pages 1 to `total_pages` laid end to end give back the sorted list, and every later page is empty |
| Catalogue.SortedPagesCover | Backend/app.py:79-96 | the pages of the sorted list laid end to end are a sorted permutation of the list |
| Catalogue.Respond | Backend/app.py:77-102 | definition: the zero-`limit` error, otherwise the listing of the page with `total_pages`, the page and the count; its property is `RespondSpec` |
| Catalogue.RespondSpec | Backend/app.py:77-102 | for `page >= 1` and `limit >= 1` the listing counts the matching records, holds at most `limit` of them sorted by name, and echoes the page |
| Catalogue.GetAllRecipes | Backend/app.py:68-102 | definition: the 404 for no records, otherwise the listing of the search with page and limit defaulting to 1 and 20; its properties are `GetAllRecipesSpec` and `ListingPagesCover` |
| Catalogue.GetAllRecipesSpec | Backend/app.py:68-102 | the 404 comes exactly for an empty catalogue, before any search; otherwise the listing holds only loaded records whose name contains the search text, sorted, at most `limit`, and counts the matches |
| Catalogue.ListingPagesCover | Backend/app.py:73-96 | walking the pages 1 to `total_pages` of one search shows every matching record once, sorted by name |
| ClientGrams.NumberStart | src/pages/RecipesPage.js:51 | the number starts after `=` and within the text; `\s?` takes one character exactly when a JavaScript white space follows `=` |
| ClientGrams.GramsAt | src/pages/RecipesPage.js:51 | definition: `=`, an optional white space, the greedy numeral and `g` at a position; its properties are `GramsAtSound` and `GramsAtComplete` |
| ClientGrams.GramsAtSound | src/pages/RecipesPage.js:51 | a capture at a position is the numeral of an instance of `=\s?(\d+(\.\d+)?)g` there |
| ClientGrams.GramsAtComplete | src/pages/RecipesPage.js:51 | every instance of the pattern at a position is what the matcher captures there |
| ClientGrams.FirstGrams | src/pages/RecipesPage.js:51 | definition: the capture at the first position where the pattern matches; its property is `FirstGramsSpec` |
| ClientGrams.FirstGramsSpec | src/pages/RecipesPage.js:51 | `item.match` fails exactly when the pattern matches nowhere; otherwise it captures a numeral at the leftmost position where the pattern matches |
| ClientGrams.ItemGrams | src/pages/RecipesPage.js:51-52 | an entry contributes a number that is never negative, since the pattern admits no sign |
| ClientGrams.SumItems | src/pages/RecipesPage.js:50-53 | the reduction from 0 over the entries is never negative; `SumItemsAppend` states how it splits |
| ClientGrams.CalculateTotalGrams | src/pages/RecipesPage.js:48-54 | "N/A" exactly for a value that is not an array; for an array, the sum of the entries' first captures, never negative, and 0 for the empty array |
| ClientGrams.SumItemsAppend | src/pages/RecipesPage.js:50-53 | the reduction adds up each entry's number independently of how the list is split |
| RoundTrip.EntryReadBack | Backend/app.py:30 | every entry the backend writes matches the page's pattern, and the first capture is the entry's gram figure |
| RoundTrip.EntryOfReadBack | src/pages/RecipesPage.js:51-52 | the number the page reads from an entry is the backend's gram value of that occurrence |
| RoundTrip.SumEntries | src/pages/RecipesPage.js:50-53 | the page's sum over the entries equals the backend's sum of gram values |
| RoundTrip.ConvertedTotalReadBack | Backend/app.py:23-34 | `calculateTotalGrams(converted_values)` equals `total_grams`, or 0 where the backend reports "N/A" |
| RoundTrip.RecipeTotalReadBack | src/pages/RecipesPage.js:103 | the total the modal shows for a loaded recipe equals the recipe's `Total Grams`, or 0 where that is "N/A" |
| RecipesPage.CeilDivSpec | src/pages/RecipesPage.js:31 | `Math.ceil(x / 20)` is the least `r` with `x <= r * 20` |
| RecipesPage.PageCount | src/pages/RecipesPage.js:31 | a truthy `total_pages` is the page count; otherwise the ceiling of `total_recipes / 20` |
| RecipesPage.PreviousPage | src/pages/RecipesPage.js:86 | the updater never drops below 1, moves back one page from above 1, and stays at 1 |
| RecipesPage.NextPage | src/pages/RecipesPage.js:90 | the updater never goes above `totalPages`, moves one page on below it, and gives `totalPages` otherwise |
| RecipesPage.PreviousClick | src/pages/RecipesPage.js:86 | an enabled Previous moves one page back and stays at page 1 or above |
| RecipesPage.NextClick | src/pages/RecipesPage.js:90 | an enabled Next moves one page on without passing `totalPages` |
| RecipesPage.PageRequest | src/pages/RecipesPage.js:26 | the request carries no search, so for every catalogue the backend answers it with the 404 exactly when the catalogue is empty, and otherwise with the listing of page `page` of the whole catalogue, 20 to a page |
| RecipesPage.OutcomeOf | src/pages/RecipesPage.js:25-37 | definition of what the page receives: a listing is a success carrying its recipes and counts, the 404 and the server error reach the `catch`; what a fetch yields is stated by `ListingOutcome` and `FetchPage` |
| RecipesPage.ListingOutcome | src/pages/RecipesPage.js:26-31 | the page's outcome for a listing of page `page >= 1` is a success with that page of the records sorted by name and their count; a non-empty page sets the page count to the backend's `total_pages`, which is at least `page` |
| RecipesPage.FetchPage | src/pages/RecipesPage.js:26-31 | fetching page `page >= 1` fails exactly for an empty catalogue; a success carries that page of the catalogue sorted by name; a non-empty page sets the page count to the backend's, which is at least `page` |
| RecipesPage.RecipesView.constructor | src/pages/RecipesPage.js:9-15 | the initial state: no recipes, no error, page 1 of 1, loading, no recipe shown, directions hidden |
| RecipesPage.RecipesView.BeginFetch | src/pages/RecipesPage.js:17-26 | loading with no error, the fetch of the current page sent, nothing else changed |
| RecipesPage.RecipesView.FinishFetch | src/pages/RecipesPage.js:25-40 | a non-empty list replaces the recipes and the page count; an empty one clears the recipes with the "No recipes available" error; a failure keeps both with the "Failed to fetch" error; loading ends every time; page and modal unchanged |
| RecipesPage.RecipesView.Previous | src/pages/RecipesPage.js:86 | a click moves one page back except on page 1, where the button is disabled; the page stays at 1 or above; nothing else changes |
| RecipesPage.RecipesView.Next | src/pages/RecipesPage.js:90 | a click below `totalPages` moves one page on, otherwise the button is disabled; nothing else changes |
| RecipesPage.RecipesView.SelectRecipe | src/pages/RecipesPage.js:43-46 | the recipe is shown with its directions hidden; nothing else changes |
| RecipesPage.RecipesView.ShowMore | src/pages/RecipesPage.js:107 | the directions are shown; nothing else changes |
| RecipesPage.RecipesView.Close | src/pages/RecipesPage.js:111 | no recipe is shown; nothing else changes |

## Left out

- HTTP and framework plumbing is not modelled: Flask routing, CORS, `jsonify`, the home route and `app.run` (Backend/app.py:8-9, 67, 104-109). The 404 and the error a zero `limit` raises in `//` are result values of `GetAllRecipes`.
- `int()` failing on a non-numeric `page` or `limit` (Backend/app.py:77-78) is not modelled. The query arguments arrive as integers or absent.
- File and pandas I/O is left out: the CSV path, `read_csv`, the dropped index column and the catch-all that returns `[]` (Backend/app.py:41-51, 60-65). The loader starts from a sequence of rows. A missing `cook_time`, `prep_time`, `total_time` or `ingredients` cell is `None`, and becomes "N/A" (`clean_data`) or, for ingredients, the empty text.
- Missing `img_src` and `directions` cells are not modelled: in the model these cells, and the name, are always texts. In the program such a cell stays NaN, since `clean_data` (Backend/app.py:36-39) fills only the times and `Total Grams`, and it reaches the endpoint's answer as NaN.
- Catalogue.Dedup: pandas `groupby(...).first()` takes the first non-missing value of each column in a group and orders the groups by key. The model keeps the first row of each name, in order of first appearance. The listing re-sorts the records by name.
- A missing recipe name that `astype(str)` turns into "nan" is not modelled: names are texts.
- Floating point is not modelled. Amounts, grams and totals are exact decimals. `str(float)` is `<whole>.<fraction>`, with one or two fraction digits; exponent notation for very large or very small values is not modelled. `parseFloat` gives the exact value of the numeral.
- GramConversion.RoundHalfEven: rounds the exact decimal product half to even. Python rounds the nearest binary double, which can fall either side of a decimal tie.
- Lower-casing is ASCII-only, and `\d` is ASCII digits. Python's `str.lower` and Unicode `\d` cover more characters.
- Catalogue.SortByName: stability of `sorted` between records with equal lower-cased names is not stated. The contract states sortedness and permutation.
- The listing lemmas state their properties for `page >= 1` and `limit >= 1`. `PySlice` and `FloorDiv` model Python's negative indices and `//` for any other `page` and `limit`, but no property is stated about those pages.
- For an empty search result `total_pages` is 0 (Backend/app.py:96); the model keeps this (`Catalogue.TotalPagesSpec`).
- RecipesPage.FetchOutcome: `total_recipes` is always present. A response whose `total_pages` is falsy and whose `total_recipes` is missing would make the page count `NaN`. The backend always sends both.
- An empty or null response body takes the same branch as an empty `recipes` list. The model gives both as `Success` with no recipes. A body without `recipes` throws and is a `Failure`.
- A non-string item in the `Converted Ingredients` array, on which `item.match` would throw, is not modelled: items are texts.
- React scheduling is left out: `useEffect` and asynchronous responses, including the race between overlapping fetches. `BeginFetch` is the part of `fetchRecipes` before the request. It is meant to run after every page change. `FinishFetch` receives the outcome of that request.
- RecipesPage.NextPage: the updater reads both the rendered `page` and `prev`. In a single click these are the same value, so the model uses one.
- JSX rendering is not modelled: the card and modal markup, the image and name fallbacks, and `.join(", ")` (src/pages/RecipesPage.js:56-116).
- The other pages contain no logic to model. src/pages/AboutPage.js, src/pages/HomePage.js, src/components/Navbar.js and src/App.js hold a scroll listener, navigation, a menu toggle and the route table.
