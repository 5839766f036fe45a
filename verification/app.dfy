/** The component's state and how each event changes it. React's effects are
    applied at once: whenever the search text, a filter or the catalog changes,
    the filtered list is recomputed before the next event. */
module App {
  import opened Characters
  import opened Loader
  import opened Filter
  import opened Pagination
  import opened Selection

  /** Everything the component keeps in `useState`; the error message is reduced to
      whether one was set. */
  datatype State = State(
    characters: seq<Character>,
    filtered: seq<Character>,
    selected: Option<Character>,
    filters: Filters,
    currentPage: int,
    rowsPerPage: int,
    loadFailed: bool)

  /** The page sizes the rows-per-page drop-down offers. */
  const RowsOptions: set<int> := {5, 10, 20, 50}

  /** The state before anything has loaded: empty lists, no filters, page 1 of 10 rows. */
  const Initial := State([], [], None, NoFilters, 1, 10, false)

  /** What can happen to the component: the load finishing, and the user's inputs. */
  datatype Event =
    | LoadFinished(outcome: Outcome)
    | SearchChanged(text: string)
    | SpeciesChanged(species: string)
    | StatusChanged(status: string)
    | RowsChanged(rows: int)
    | PrevClicked
    | NextClicked
    | RowClicked(row: Character)

  /** The filtered list agrees with the catalog and the filters, the page number
      is at least 1 and the page size is one the drop-down offers. */
  predicate Consistent(s: State)
  {
    && s.filtered == FilterCharacters(s.characters, s.filters)
    && s.currentPage >= 1
    && s.rowsPerPage in RowsOptions
  }

  /** An event the page can produce: a page size comes from the drop-down. */
  predicate Offered(e: Event)
  {
    e.RowsChanged? ==> e.rows in RowsOptions
  }

  /** The state with new filters and the filtered list recomputed from them. */
  function WithFilters(s: State, f: Filters): State
  {
    s.(filters := f, filtered := FilterCharacters(s.characters, f))
  }

  /** One event. A finished load stores the catalog (a failed one only sets the
      error); filter inputs recompute the filtered list; page-size changes and
      filter changes leave the page number alone; the buttons move it; a row
      click toggles the expanded row. */
  function Step(s: State, e: Event): (t: State)
    ensures Consistent(s) && Offered(e) ==> Consistent(t)
    ensures t.characters != s.characters ==> e.LoadFinished? && e.outcome.Loaded?
    ensures e.LoadFinished? && !e.outcome.Loaded? ==> t.characters == s.characters && t.filtered == s.filtered
    ensures t.loadFailed <==> s.loadFailed || (e.LoadFinished? && e.outcome.LoadFailed?)
    ensures t.currentPage != s.currentPage ==> e.PrevClicked? || e.NextClicked?
    ensures t.selected != s.selected ==> e.RowClicked?
    ensures !(e.SearchChanged? || e.SpeciesChanged? || e.StatusChanged?) ==> t.filters == s.filters
    ensures !e.RowsChanged? ==> t.rowsPerPage == s.rowsPerPage
    ensures !(e.SearchChanged? || e.SpeciesChanged? || e.StatusChanged? || (e.LoadFinished? && e.outcome.Loaded?)) ==>
              t.filtered == s.filtered
    ensures e.LoadFinished? && e.outcome.Loaded? ==>
              t.characters == e.outcome.catalog && t.filtered == FilterCharacters(t.characters, s.filters)
    ensures e.SearchChanged? ==>
              t.filters == s.filters.(search := e.text) && t.filtered == FilterCharacters(s.characters, t.filters)
    ensures e.SpeciesChanged? ==>
              t.filters == s.filters.(species := e.species) && t.filtered == FilterCharacters(s.characters, t.filters)
    ensures e.StatusChanged? ==>
              t.filters == s.filters.(status := e.status) && t.filtered == FilterCharacters(s.characters, t.filters)
    ensures e.RowsChanged? ==> t.rowsPerPage == e.rows && t.currentPage == s.currentPage
    ensures e.PrevClicked? ==> t.currentPage == PrevPage(s.currentPage)
    ensures e.NextClicked? ==> t.currentPage == NextPage(s.currentPage, s.rowsPerPage, |s.filtered|)
    ensures e.RowClicked? ==> t.selected == Toggle(s.selected, e.row)
  {
    match e
    case LoadFinished(outcome) =>
      (match outcome
       case Loaded(catalog) => s.(characters := catalog, filtered := FilterCharacters(catalog, s.filters))
       case LoadFailed => s.(loadFailed := true)
       case Unfinished => s)
    case SearchChanged(text) => WithFilters(s, s.filters.(search := text))
    case SpeciesChanged(species) => WithFilters(s, s.filters.(species := species))
    case StatusChanged(status) => WithFilters(s, s.filters.(status := status))
    case RowsChanged(rows) => s.(rowsPerPage := rows)
    case PrevClicked => s.(currentPage := PrevPage(s.currentPage))
    case NextClicked => s.(currentPage := NextPage(s.currentPage, s.rowsPerPage, |s.filtered|))
    case RowClicked(row) => s.(selected := Toggle(s.selected, row))
  }

  /** The rows the table shows (`currentCharacters`). */
  function Visible(s: State): seq<Character>
  {
    VisibleRows(s.filtered, s.currentPage, s.rowsPerPage)
  }

  /** The state after a series of events. */
  function Replay(s: State, events: seq<Event>): State
    decreases |events|
  {
    if events == [] then s else Replay(Step(s, events[0]), events[1..])
  }

  /** The component starts consistent: an empty catalog filters to an empty list. */
  lemma InitialConsistent()
    ensures Consistent(Initial)
  {
  }

  /** Every state reached from a consistent one (in particular from `Initial`) by
      events the page can produce is consistent. */
  lemma {:induction false} ReachableConsistent(s: State, events: seq<Event>)
    requires Consistent(s)
    requires forall i :: 0 <= i < |events| ==> Offered(events[i])
    ensures Consistent(Replay(s, events))
    decreases |events|
  {
    if events != [] {
      assert Offered(events[0]);
      ReachableConsistent(Step(s, events[0]), events[1..]);
    }
  }

  /** A failed load leaves the catalog and the filtered list empty and only sets
      the error. */
  lemma FailedLoadShowsNothing(fetch: int -> Response, k: int, fuel: nat)
    requires k >= 1
    requires forall p :: 1 <= p < k ==> Continues(fetch, p)
    requires fetch(k).Failure?
    requires fuel >= k
    ensures Step(Initial, LoadFinished(Load(fetch, fuel).outcome)) == Initial.(loadFailed := true)
  {
    FailureAbortsLoad(fetch, k, fuel);
  }

  /** After a successful load from a server holding `pages`, with no filters, the
      table shows the first ten records of the catalog (fewer if it is shorter). */
  lemma LoadedCatalogFirstPage(pages: seq<seq<Character>>, fuel: nat)
    requires |pages| >= 1
    requires fuel >= |pages|
    ensures var t := Step(Initial, LoadFinished(Load(Server(pages), fuel).outcome));
            && t.characters == Flatten(pages)
            && t.filtered == Flatten(pages)
            && Visible(t) == Flatten(pages)[..Min(10, |Flatten(pages)|)]
  {
    LoadServer(pages, fuel);
    NoFiltersKeepsCatalog(Flatten(pages));
  }

  /** A larger page size does not pull an out-of-range page number back: page 5 of
      a 23-row list shows rows 20-22 at five a page, and nothing at fifty a page. */
  lemma RowsChangeDoesNotClamp(s: State)
    requires |s.filtered| == 23 && s.currentPage == 5 && s.rowsPerPage == 5
    ensures Visible(s) == s.filtered[20..23]
    ensures var t := Step(s, RowsChanged(50));
            t.currentPage == 5 && Visible(t) == []
  {
    assert (5 - 1) * 5 == 20;
    assert (5 - 1) * 50 == 200;
  }

  /** From a page that shows rows, Next leads to a page that shows rows. */
  lemma NextNeverEmptiesTable(s: State)
    requires s.currentPage >= 1 && s.rowsPerPage >= 1
    requires Visible(s) != []
    ensures Visible(Step(s, NextClicked)) != []
  {
    var next := NextPage(s.currentPage, s.rowsPerPage, |s.filtered|);
    NextKeepsRowsVisible(s.filtered, s.currentPage, s.rowsPerPage);
    assert Step(s, NextClicked) == s.(currentPage := next);
  }
}
