# Country directory: table page, filter form and DTO mapper

This project models the client-side logic of a small country directory web
front end (a Next.js/React application), and proves properties of it in Dafny.
It covers three pieces of the front end:

- **The country table page** (`app/countries/page.tsx`). The page loads the full,
  unpaginated country listing once. It keeps a sort direction `order`, a sort
  key `orderBy`, a page index `page` and a page size `rowsPerPage`. It shows a
  sorted copy of the rows, cut to the current page with `Array.prototype.slice`.
  A click on a row navigates to `/countries/<iso3>`.
  - The state and its handlers form the class `CountryTablePage.TableState`.
  - The comparator, the sorted copy, the page window and the row path are
    functions of the module `CountryTablePage`.
  - The sort itself lives in the module `ArraySort`. It is
    `Array.prototype.sort(comparefn)`, written as insertion sort over a
    comparator function value. It is given both on sequences (`SortBy`) and
    in place on an array (`SortInPlace`), and the two are proved to give the
    same result.
  - `StringOrder` is JavaScript's `<` on strings.
- **The filter form** (`app/components/CountryFilters.tsx`). It holds a record
  of four optional strings (name, ISO3 code, region, currency). Each edit
  overwrites one key. Submitting hands the record to the caller's callback.
  This is the module `CountryFilters`, with its class `FilterForm`.
- **The DTO mapper** (`lib/CountryMapper.ts`). It turns `{iso2, name, language}`
  records into `{code, label, locale}` records, one to one and in order. This is
  the module `CountryMapper`. The field `label` is called `labelText` in the
  model, because `label` is a Dafny keyword.

How the sort behaves, and what the model claims about it:

- The comparator `(aValue < bValue ? -1 : 1) * (order === 'asc' ? 1 : -1)`
  never returns 0 (`Compare`).
- Comparing a row with itself gives ±1 rather than 0, and on equal keys both
  argument orders give the same sign (`CompareTiesInconsistent`). So the
  comparator is never consistent in the sense of section 23.1.3.30 of
  ECMA-262, and the standard leaves the resulting order implementation-defined.
- The model claims two things of an outcome (`AdmissibleSort`):
  - the result is a permutation of the rows;
  - when the keys are distinct, it is strictly increasing (`asc`) or strictly
    decreasing (`desc`) by key. This second half assumes an engine that only
    compares two different slots of the array (see "## Left out").
- `AdmissibleSortUnique` shows that when the keys are distinct, every
  permutation strictly ordered by key equals the model's insertion-sort
  result, so all such engines agree whenever the keys are distinct.
- `orderBy` is a string, and the row lookup `row[orderBy]` is partial:
  - Most header labels (`Name`, `Code`, `Capital`, …) are not field names, so
    sorting by them compares `undefined` with `undefined`. Every comparison
    then has the same sign (`CompareConstantOffField`).
  - The initial key `name` is a field, but no header has that label, so no
    header is shown active at first (`HeaderKeys`).

Two facts about the code shape the model:

- `handleRequestSort` (`app/countries/page.tsx:40-44`) changes only `order`
  and `orderBy`. It leaves `page` unchanged, and so does `HandleRequestSort`.
- The page fetches `/api/country-table` only once
  (`app/countries/page.tsx:33-38`), then sorts and pages on the client. The
  model does the same.

## Model

| member | source | states |
|---|---|---|
| `StringOrder.StrLess` | app/countries/page.tsx:58 | a proper prefix is smaller, no string is smaller than one of its own prefixes, and otherwise the first differing character decides |
| `StringOrder.StrLessIrreflexive` | app/countries/page.tsx:58 | no string is `<` itself |
| `StringOrder.StrLessTransitive` | app/countries/page.tsx:58 | string `<` is transitive |
| `StringOrder.StrLessAsymmetric` | app/countries/page.tsx:58 | `a < b` excludes `b < a` |
| `StringOrder.StrLessTotal` | app/countries/page.tsx:58 | two different strings are ordered one way or the other |
| `CountryTablePage.Lookup` | app/countries/page.tsx:56-57 | `row[orderBy]` is defined exactly for the ten `CountryTable` field names; only `id` gives a number |
| `CountryTablePage.ValueLess` | app/countries/page.tsx:58 | `<` with `undefined` on either side is false, only values of the same kind compare, and equal strings are not `<` |
| `CountryTablePage.ValueLessIrreflexive` | app/countries/page.tsx:58 | a looked-up value, `undefined` included, is never `<` itself |
| `CountryTablePage.ValueLessTransitive` | app/countries/page.tsx:58 | `<` on looked-up values is transitive |
| `CountryTablePage.ValueLessAsymmetric` | app/countries/page.tsx:58 | `<` on looked-up values is asymmetric |
| `CountryTablePage.ValueLessTotal` | app/countries/page.tsx:56-58 | under a real field, two different values are ordered one way or the other |
| `CountryTablePage.Compare` | app/countries/page.tsx:58 | the comparator is 1 or -1; it is negative (putting `a` first) exactly when `a`'s key is smaller (asc) or not smaller (desc) |
| `CountryTablePage.CompareConstantOffField` | app/countries/page.tsx:56-58 | under a key that is not a field, every comparison is 1 (asc) or -1 (desc), whatever the rows |
| `CountryTablePage.CompareTiesInconsistent` | app/countries/page.tsx:58 | rows with equal keys get the same sign in both argument orders, so the comparator is inconsistent on ties |
| `CountryTablePage.CompareDistinctAntisymmetric` | app/countries/page.tsx:58 | on distinct keys of a real field, swapping the arguments negates the result |
| `CountryTablePage.KeyBeforeTransitive` | app/countries/page.tsx:58 | "strictly before by key" is transitive in both directions |
| `CountryTablePage.KeyBeforeAsymmetric` | app/countries/page.tsx:58 | "strictly before by key" is asymmetric and relates only different rows |
| `CountryTablePage.InsertOrdered` | app/countries/page.tsx:55-59 | inserting a row with a new key into a strictly ordered run keeps the run strictly ordered |
| `CountryTablePage.SortCopy` | app/countries/page.tsx:55-59 | the sorted copy is a permutation of the rows |
| `CountryTablePage.SortCopyOrdered` | app/countries/page.tsx:55-59 | with distinct keys the sorted copy is strictly increasing (asc) or strictly decreasing (desc) by key |
| `CountryTablePage.SortCopyAdmissible` | app/countries/page.tsx:55-59 | the sorted copy is a permutation of the rows, ordered by key whenever the keys are distinct |
| `CountryTablePage.OrderedPermutationHead` | app/countries/page.tsx:55-59 | two strictly ordered permutations of the same rows start with the same row |
| `CountryTablePage.OrderedPermutationUnique` | app/countries/page.tsx:55-59 | two strictly ordered permutations of the same rows are equal |
| `CountryTablePage.AdmissibleSortUnique` | app/countries/page.tsx:55-59 | with distinct keys, every permutation strictly ordered by key (what an engine that compares only different slots produces) equals the sorted copy |
| `ArraySort.Insert` | app/countries/page.tsx:55 | one insertion step makes the run one longer (the added element is in `InsertPermutes`) |
| `ArraySort.SortBy` | app/countries/page.tsx:55 | the sort keeps the length of its input (the permutation is in `SortByPermutes`) |
| `ArraySort.InsertPermutes` | app/countries/page.tsx:55 | insertion adds exactly the inserted row |
| `ArraySort.SortByPermutes` | app/countries/page.tsx:55 | whatever the comparator, the sort keeps exactly the rows of its input, each as often |
| `ArraySort.InsertSkipsPrefix` | app/countries/page.tsx:55 | insertion passes over every leading row that the comparator does not put the new row before |
| `ArraySort.InsertStopsAt` | app/countries/page.tsx:55 | the new row lands right after that prefix |
| `ArraySort.ShiftAhead` | app/countries/page.tsx:55 | the in-place shift moves each passed-over row one slot left and stops at the first row the new row goes before |
| `ArraySort.InsertIntoSuffix` | app/countries/page.tsx:55 | one in-place insertion step turns the array's suffix into the result of `Insert` |
| `ArraySort.SortInPlace` | app/countries/page.tsx:55 | sorting the copy in place leaves it equal to `SortBy` of its old contents |
| `CountryTablePage.SliceIndex` | app/countries/page.tsx:61 | a slice index clamps to `[0, len]`: a non-negative one to at most `len`, a negative one counts back from the end, and one before the start gives 0 |
| `CountryTablePage.Slice` | app/countries/page.tsx:61 | `slice` returns the elements from the clamped start up to the clamped end, none when the end is not past the start |
| `CountryTablePage.VisibleWindow` | app/countries/page.tsx:61 | the visible rows are never more than the sorted rows, and each is one of them |
| `CountryTablePage.SliceWindow` | app/countries/page.tsx:61 | a slice from a non-negative start holds at most `size` elements: those from `start`, cut at the end, and none once `start` is past the end |
| `CountryTablePage.VisibleWindowSpec` | app/countries/page.tsx:61 | the visible rows are the sorted rows from `page*rowsPerPage` up to `min(len, page*rowsPerPage+rowsPerPage)`: at most `rowsPerPage` of them, and none once `page*rowsPerPage >= len` |
| `CountryTablePage.RowOnItsPage` | app/countries/page.tsx:61 | every sorted row appears on page `i / rowsPerPage`, at position `i % rowsPerPage` |
| `CountryTablePage.RowPath` | app/countries/page.tsx:64 | the navigation path is `/countries/` followed by exactly the row's `iso3` |
| `CountryTablePage.PathCode` | app/countries/page.tsx:64 | the inverse of the path template: a code is split off exactly when the path starts with `/countries/`, and prefix plus code gives the path back |
| `CountryTablePage.RowPathRoundTrip` | app/countries/page.tsx:64 | the row's `iso3` is recovered from its click path, so two rows navigate to the same path exactly when their codes are equal |
| `CountryTablePage.HeaderDirection` | app/countries/page.tsx:77 | the active header shows the current direction, and a descending arrow shows only on the active header while sorting descending |
| `CountryTablePage.ActiveHeader` | app/countries/page.tsx:76 | at most one header is shown active, and one is exactly when the sort key is a header label |
| `CountryTablePage.HeaderKeys` | app/countries/page.tsx:73-78 | among the header labels only `id`, `iso3` and `emoji` are field names, and none equals the initial key `name` |
| `CountryTablePage.NextSort` | app/countries/page.tsx:40-44 | a click sets the key to the clicked column; the direction becomes `desc` exactly when that column was already active and ascending |
| `CountryTablePage.NextSortAlternates` | app/countries/page.tsx:40-44 | after one click on a column, more clicks on it alternate the direction, and that header is shown active with the new direction |
| `CountryTablePage.TableState.constructor` | app/countries/page.tsx:26-30 | starts with no rows, `asc`, key `name`, page 0 and 10 rows per page |
| `CountryTablePage.TableState.SetCountries` | app/countries/page.tsx:36 | a successful response replaces the rows; sort and paging state are unchanged |
| `CountryTablePage.TableState.HandleRequestSort` | app/countries/page.tsx:40-44 | the sort state becomes `NextSort` of the old one; rows, page and page size are unchanged |
| `CountryTablePage.TableState.HandleChangePage` | app/countries/page.tsx:46-48 | sets the page to the requested index; rows, sort state and page size are unchanged |
| `CountryTablePage.TableState.HandleChangeRowsPerPage` | app/countries/page.tsx:50-53 | sets the new page size and resets the page to 0; rows and sort state are unchanged |
| `CountryTablePage.TableState.SortedCountries` | app/countries/page.tsx:55-59 | the rendered order is an admissible sort of the stored rows; the stored rows are only read |
| `CountryTablePage.TableState.VisibleCountries` | app/countries/page.tsx:61 | for a non-negative page and size, at most `rowsPerPage` rows are shown, and none past the end |
| `CountryTablePage.TableState.SortCountriesCopy` | app/countries/page.tsx:55 | copies the rows into a fresh array and sorts that array in place; the result is the sorted copy and the stored rows are untouched |
| `CountryTablePage.TableState.HandleRowClick` | app/countries/page.tsx:63-65 | a row click yields that row's detail path |
| `CountryFilters.WithField` | app/components/CountryFilters.tsx:29-31 | the edited key holds exactly the new string (the empty string included); every other key keeps its presence and value |
| `CountryFilters.DisplayAfterUpdate` | app/components/CountryFilters.tsx:55 | after an edit, the edited field shows exactly the typed text and the others show what they showed before |
| `CountryFilters.DisplayedValue` | app/components/CountryFilters.tsx:55 | a field (the same at lines 63, 71 and 87) shows its stored string, and shows `''` exactly when its key is absent or holds `''` |
| `CountryFilters.AllRegionsStoresEmpty` | app/components/CountryFilters.tsx:72-76 | once a region was chosen, choosing "all regions" stores `region = ''`: shown like a fresh form, but the record is no longer empty |
| `CountryFilters.UpdatesCommute` | app/components/CountryFilters.tsx:29-31 | edits to different keys commute, and a second edit of a key replaces the first |
| `CountryFilters.ApplyEdits` | app/components/CountryFilters.tsx:29-31 | after a run of edits the record's keys are those present before plus those some edit touched, and no others |
| `CountryFilters.ApplyEditsSnoc` | app/components/CountryFilters.tsx:29-31 | one more edit at the end of a run is one more single-key update |
| `CountryFilters.ApplyEditsLastWins` | app/components/CountryFilters.tsx:29-31 | after a run of edits, each key holds its last edited value, and a key never edited is exactly as before |
| `CountryFilters.FilterForm.constructor` | app/components/CountryFilters.tsx:27 | the form starts with all four keys absent |
| `CountryFilters.FilterForm.UpdateField` | app/components/CountryFilters.tsx:29-31 | the state becomes the old record with exactly `key` set to `value` |
| `CountryFilters.FilterForm.HandleSubmit` | app/components/CountryFilters.tsx:33-35 | hands the current record to the callback unchanged, and does not modify the form |
| `CountryFilters.FilterForm.Displayed` | app/components/CountryFilters.tsx:55 | a field shows its stored string, or `''` when the key is absent |
| `CountryMapper.ToEntity` | lib/CountryMapper.ts:16-18 | `code` is `iso2`, `label` is `name`, `locale` is `language` |
| `CountryMapper.ToCountryTableEntities` | lib/CountryMapper.ts:14-20 | output length equals input length, and element `i` of the output is the renaming of element `i` of the input |
| `CountryMapper.MapperRoundTrip` | lib/CountryMapper.ts:15-19 | mapping back recovers the input, so the renaming loses nothing |
| `CountryMapper.MapperDistributes` | lib/CountryMapper.ts:15-19 | mapping a concatenation gives the concatenation of the mapped parts |
| `CountryMapper.MapperInjective` | lib/CountryMapper.ts:15-19 | different inputs give different outputs |
| `CountryMapper.MapperEmpty` | lib/CountryMapper.ts:15 | an empty input gives an empty output |

## Left out

- The `fetch('/api/country-table')` effect, its JSON parsing and its error logging (`app/countries/page.tsx:33-38`) are network I/O in an async continuation. Only the state update on success is modelled, as `TableState.SetCountries`.
- `router.push` (`app/countries/page.tsx:64`) is a navigation side effect. Only the path string is modelled.
- `parseInt(event.target.value, 10)` (`app/countries/page.tsx:51`) is a foreign string-parsing call. The new size is an integer input, so a `NaN` page size is not modelled.
- MUI components and all JSX rendering are not modelled. `TablePagination` bounds the page inside the library and offers only sizes 10, 20 and 30. The model lets `page` and `rowsPerPage` be any integers.
- CountryTablePage.VisibleWindowSpec: stated only for non-negative `page` and `rowsPerPage`. Negative values cannot come from the pagination control. `Slice` still models them with ECMA-262's count-from-the-end rule.
- CountryTablePage.SortCopy: the engine's real sort algorithm is not modelled. Insertion sort stands for it. Only the properties proved for every admissible outcome (`AdmissibleSort`) are claimed of the real page. The order of rows with equal keys is implementation-defined and is not claimed.
- StringOrder.StrLess: compares Dafny characters (Unicode scalar values). JavaScript compares UTF-16 code units. The two orders differ only between characters outside the Basic Multilingual Plane and characters U+E000 to U+FFFF.
- CountryTablePage.Lookup: property names inherited from `Object.prototype` (such as `constructor`) are treated as undefined. No header and no initial value uses them.
- CountryTablePage.ValueLess: a number compared with a string is taken as false. Both sides are always read under the same key, so that case cannot occur.
- The `id` field is an unbounded integer. JavaScript numbers (floating point, `NaN`) are not modelled.
- Stale-response races between overlapping requests are concurrency, and this page issues a single request.
- `app/layout.tsx` (static navigation markup) and `next.config.ts` (proxy rewrite) have no logic to model.
- `app/countries/[iso3]/page.tsx`, the detail page, is not part of this model, including its reading of the `iso3` route parameter.
- CountryTablePage.PathCode: only inverts the path template. The router's parsing of the pushed path is not modelled. That parsing includes splitting off a query or fragment at `?` or `#`, percent-decoding, and trailing-slash handling. So `RowPathRoundTrip` does not claim what the detail page receives for codes containing `/`, `?`, `#` or `%`.
- CountryTablePage.AdmissibleSort: its ordering half assumes an engine that never compares an array slot with itself. ECMA-262 does not guarantee this, because the comparator is never consistent. Without it, only the permutation half is certain.
- CountryTablePage.TableState.SetCountries: the response is assumed to be an array of rows matching `CountryTable`, with no `null` fields. `fetch` also resolves on non-2xx responses. The page would then store the JSON error body, and rendering would fail. That path is not modelled.
- CountryFilters.UpdatesCommute: holds as equality of records (maps). JavaScript objects also keep their keys in insertion order, so edits of two new keys in opposite orders give different `Object.keys` and `JSON.stringify` orders. The key order of the record is not modelled, and nothing in the form reads it.
- The filter form is not wired into the table page in this code, so the model does not connect the two.
