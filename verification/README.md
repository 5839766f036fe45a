# Rick and Morty character browser — a Dafny model of its data logic

The application is one React component (`rickandmorty/src/App.jsx`) that loads the
whole character catalog of a paginated REST listing page by page, filters it
client-side by name, species and status, shows it one table page at a time, and
expands one row at a time for details. This project models that data logic as
pure functions over immutable datatypes and proves what it promises.

| file | module | what it models |
|---|---|---|
| `characters.dfy` | `Characters` | the `Character` record and `Option` (for the `null`able selection) |
| `text.dfy` | `Text` | `toLowerCase` (ASCII fold) and `String.prototype.includes` |
| `loader.dfy` | `Loader` | `fetchAllCharacters`: the do/while page loop against an abstract page source |
| `filter.dfy` | `Filter` | `filterCharacters`: the three successive `filter` passes |
| `pagination.dfy` | `Pagination` | the `slice` of the current page, and the previous/next page updates |
| `selection.dfy` | `Selection` | `toggleCharacterDetails` and which detail row is shown |
| `app.dfy` | `App` | the component's state, one step per event, and end-to-end scenarios |

The remote listing is a parameter `fetch: int -> Response`: page number to either
`Page(results, pages)` or `Failure`. The loader returns a `Run`: the list of page
numbers it requested, in order, and its outcome (`Loaded(catalog)`, `LoadFailed`,
or `Unfinished` when the request budget `fuel` runs out).

## Model

| member | source | states |
|---|---|---|
| Text.LowerChar | rickandmorty/src/App.jsx:46 | lower-casing leaves no upper-case ASCII letter, folds A-Z onto a-z and changes no other character |
| Text.Lower | rickandmorty/src/App.jsx:46 | lower-casing keeps the length, folds each character on its own, leaves no upper-case ASCII letter and keeps every character that was not one |
| Text.Includes | rickandmorty/src/App.jsx:46 | the search text can only be included in a name at least as long, and the empty text is included in every name |
| Text.IncludesIff | rickandmorty/src/App.jsx:46 | `includes` holds exactly when the needle appears contiguously at some position of the name, both directions |
| Text.AbsentFirstCharacter | rickandmorty/src/App.jsx:46 | a non-empty search whose first character never appears in the name is not included in it |
| Filter.Keep | rickandmorty/src/App.jsx:45-55 | `filter` returns an order-preserving subsequence whose elements all pass the test, with each passing element kept exactly as often as in the input and failing ones dropped |
| Filter.KeepFusion | rickandmorty/src/App.jsx:41-56 | two successive filter passes keep exactly what one pass with the conjunction keeps |
| Filter.FilterCharacters | rickandmorty/src/App.jsx:41-59 | the filtered list is an order-preserving subsequence of the catalog containing exactly the characters that satisfy every active condition (case-insensitive name containment, exact species, exact status), each as often as in the catalog |
| Filter.NoFiltersKeepsCatalog | rickandmorty/src/App.jsx:41-58 | with empty search, species and status the catalog passes unchanged |
| Filter.FilterIdempotent | rickandmorty/src/App.jsx:41-58 | filtering the filtered list again with the same inputs removes nothing more |
| Filter.RickSanchezSearch | rickandmorty/src/App.jsx:44-47 | "Rick Sanchez" is found by "rick", "SANCHEZ" and "ck san" and not by "morty" |
| Loader.LoadFrom | rickandmorty/src/App.jsx:19-28 | the loop requests consecutive pages from its start, at least one, each earlier one having succeeded and reported more pages; it fails exactly when the last request failed, finishes exactly when the last page reported no further page, and then returns the gathered records followed by every requested page's records in page order; it is left unfinished only after spending the whole request budget |
| Loader.Load | rickandmorty/src/App.jsx:17-35 | `fetchAllCharacters` requests pages 1, 2, ... consecutively, at least one; it fails exactly when the last request failed, finishes exactly when the last page reported no further page, returning the records of pages 1..n in page order, and is left unfinished only after spending the whole request budget |
| Loader.LoadServedPages | rickandmorty/src/App.jsx:19-31 | when pages 1..N all succeed and report N pages, the loader requests exactly 1, 2, ..., N once each in order and returns their records concatenated in page order |
| Loader.LoadServer | rickandmorty/src/App.jsx:17-31 | loading from a server holding a non-empty list of pages returns the flattened list after one request per page |
| Loader.FailureAbortsLoad | rickandmorty/src/App.jsx:18-34 | if page k fails after pages 1..k-1 succeeded, the load requests pages 1..k and produces no catalog, whatever the earlier pages held |
| Loader.FirstRequestAlwaysMade | rickandmorty/src/App.jsx:20-28 | the first iteration always runs: page 1 is requested before the page count is known |
| Pagination.Slice | rickandmorty/src/App.jsx:75 | `slice` resolves negative arguments from the end, clips both to the list and returns the elements between them, empty when inverted |
| Pagination.VisibleRows | rickandmorty/src/App.jsx:73-75 | for page >= 1 the shown rows are the filtered rows from `(page-1)*rowsPerPage` on, `max(0, min(rowsPerPage, len - start))` of them |
| Pagination.PastTheEndIsEmpty | rickandmorty/src/App.jsx:73-75 | for page 1 or later the table is empty exactly when the page starts at or past the end of the filtered list, or the page size is zero |
| Pagination.EveryRowHasItsPage | rickandmorty/src/App.jsx:73-75 | row i of the filtered list appears on page `i / rowsPerPage + 1` at position `i % rowsPerPage` |
| Pagination.TwentyThreeRowsTenPerPage | rickandmorty/src/App.jsx:73-75 | 23 rows at 10 a page show rows 0-9, 10-19, 20-22, then nothing |
| Pagination.PrevPage | rickandmorty/src/App.jsx:158 | the previous-page update never goes below page 1: it goes one page back from page 2 on and stays on page 1 from page 1 (or below) |
| Pagination.NextPage | rickandmorty/src/App.jsx:166-168 | the next-page update moves at most one page forward, and moves exactly when the rows so far (`page * rowsPerPage`) are fewer than the filtered list |
| Pagination.NextStopsAtLastPage | rickandmorty/src/App.jsx:166-168 | Next stays on the page exactly when the following page would show nothing |
| Pagination.NextKeepsRowsVisible | rickandmorty/src/App.jsx:166-168 | from a page that shows rows, Next reaches a page that shows rows |
| Pagination.PrevUndoesNext | rickandmorty/src/App.jsx:158-168 | Previous takes back a Next that moved |
| Pagination.NextUndoesPrev | rickandmorty/src/App.jsx:158-168 | Next takes back a Previous that moved exactly when the page left behind had rows |
| Selection.Toggle | rickandmorty/src/App.jsx:65-71 | clicking a row clears the selection exactly when that row was expanded, otherwise selects it; afterwards the expanded rows are exactly those sharing its id, and only if it was not expanded before |
| Selection.ToggleTwiceFromNone | rickandmorty/src/App.jsx:65-71 | clicking the same row twice from no selection leaves no selection |
| Selection.ToggleOtherRow | rickandmorty/src/App.jsx:65-71 | clicking a row other than the expanded one moves the selection to it |
| App.Step | rickandmorty/src/App.jsx:7-168 | each event keeps the state consistent (filtered list equals the filter of the catalog, page >= 1, page size offered); only a successful load changes the catalog, only a failed load sets the error, only the buttons change the page, only a row click changes the selection, only the filter inputs change the filters, only the drop-down changes the page size, and the filtered list changes only on a filter input or a successful load; a successful load stores its catalog and refilters it, each filter input stores its value and refilters, a page-size change stores the size and keeps the page, Previous and Next apply their page updates, and a row click toggles the selection |
| App.InitialConsistent | rickandmorty/src/App.jsx:7-14 | the start state (empty catalog and filtered list, no filters, page 1 of 10 rows) is consistent |
| App.ReachableConsistent | rickandmorty/src/App.jsx:7-168 | every state reached from a consistent one by offered events is consistent |
| App.FailedLoadShowsNothing | rickandmorty/src/App.jsx:7-34 | after a failed load the catalog and filtered list stay empty and only the error is set |
| App.LoadedCatalogFirstPage | rickandmorty/src/App.jsx:7-75 | after a successful load with no filters the catalog and the filtered list are all records in page order and the table shows the first ten |
| App.RowsChangeDoesNotClamp | rickandmorty/src/App.jsx:73-114 | changing the page size keeps the page number: page 5 of 23 rows shows rows 20-22 at five a page and nothing at fifty a page |
| App.NextNeverEmptiesTable | rickandmorty/src/App.jsx:164-168 | from a state whose table shows rows, Next leads to a state whose table shows rows |

## Left out

- The HTTP request (`axios.get`, line 24) is the parameter `fetch`; the endpoint URL is not modelled.
- Loader.Load: a server that keeps reporting more pages makes the source loop forever; the model stops after `fuel` requests with the outcome `Unfinished`, and only then: with budget to spare every load ends `Loaded` or `LoadFailed`.
- The `await` sequencing is a plain recursion: requests are made one at a time, so nothing is concurrent.
- React's `useState`/`useEffect` wiring: effects are applied at once inside `App.Step`, so the brief render after line 31 (filtered list set to the whole catalog before the filter effect runs again) is not a separate state.
- The error message text (line 33) is reduced to a flag; all Turkish UI strings, JSX, CSS and images are presentation only.
- The `location` and `image` fields and the "no results" notice (line 174) are only rendered.
- Text.LowerChar: only A-Z are folded; full Unicode `toLowerCase` rules are not modelled.
- JavaScript's dynamic typing: `info.pages` is assumed to be an integer (a missing or non-numeric value would end the loop after one page); numbers are unbounded integers rather than doubles.
- A response without `info`, or whose `results` is not iterable, throws a TypeError at lines 25-26 and ends in the catch block at line 33 like a failed request; the model's `Response` has no such malformed shape, so such a response is to be given as `Failure`.
- The `disabled` attribute of the previous button (line 159) is presentation; `PrevPage` clamps at 1 anyway.
- Calling the filter or the slice twice with the same inputs gives the same result by construction (they are functions), so no lemma states it.
- The loader reads `pages` from every response, as the code does, so the page count is not fixed after the first response.
- The listing's `status` takes the values Alive, Dead and unknown, but the code compares plain strings, and so does the model.
