/**
  The `UserTable` component as a state machine: its five pieces of state,
  one transition per event handler, and the filter effect that React re-runs
  whenever `users` or `searchCity` changes.
 */
module UserTable {
  import opened Sequences
  import opened Text
  import opened Users
  import opened CityFilter
  import opened NameSort
  import opened Paging

  datatype TableState = TableState(
    users: seq<User>,
    filteredUsers: seq<User>,
    searchCity: string,
    currentPage: int,
    sortDirection: SortDirection)

  /** The state on mount: nothing fetched, empty search, page 1, ascending. */
  function Init(): (r: TableState)
    ensures r.users == [] && r.filteredUsers == []
    ensures r.searchCity == "" && r.currentPage == 1 && r.sortDirection == Asc
  {
    TableState([], [], "", 1, Asc)
  }

  /** The effect on `[users, searchCity]`: rebuild the filtered list from
      `users`, which discards any earlier sort. */
  function FilterEffect(st: TableState): (r: TableState)
    ensures IsSubsequence(r.filteredUsers, st.users)
    ensures forall u :: multiset(r.filteredUsers)[u] ==
                        if CityMatches(u, st.searchCity) then multiset(st.users)[u] else 0
    ensures r.users == st.users && r.searchCity == st.searchCity
    ensures r.currentPage == st.currentPage && r.sortDirection == st.sortDirection
  {
    st.(filteredUsers := FilterByCity(st.users, st.searchCity))
  }

  /** `setUsers(data)` once the fetch has resolved. */
  function SetUsers(st: TableState, data: seq<User>): (r: TableState)
    ensures r.users == data
    ensures r.filteredUsers == st.filteredUsers && r.searchCity == st.searchCity
    ensures r.currentPage == st.currentPage && r.sortDirection == st.sortDirection
  {
    st.(users := data)
  }

  /** `handleSearchCityChange`: store the new search string and go back to
      the first page; the sort direction is left alone. */
  function HandleSearchCityChange(st: TableState, value: string): (r: TableState)
    ensures r.searchCity == value && r.currentPage == 1
    ensures r.sortDirection == st.sortDirection
    ensures r.users == st.users && r.filteredUsers == st.filteredUsers
  {
    st.(searchCity := value, currentPage := 1)
  }

  /** `handlePageChange`: select the given page and change nothing else. */
  function HandlePageChange(st: TableState, pageNumber: int): (r: TableState)
    ensures r.currentPage == pageNumber
    ensures r.users == st.users && r.filteredUsers == st.filteredUsers
    ensures r.searchCity == st.searchCity && r.sortDirection == st.sortDirection
  {
    st.(currentPage := pageNumber)
  }

  /** `handleSort`: replace the filtered list by a copy sorted by name in
      the current direction, then flip the direction. */
  function HandleSort(st: TableState): (r: TableState)
    ensures multiset(r.filteredUsers) == multiset(st.filteredUsers)
    ensures Sorted(st.sortDirection, r.filteredUsers)
    ensures r.sortDirection != st.sortDirection
    ensures r.users == st.users && r.searchCity == st.searchCity && r.currentPage == st.currentPage
  {
    st.(filteredUsers := SortByName(st.sortDirection, st.filteredUsers),
        sortDirection := Flip(st.sortDirection))
  }

  /** What can happen to the component: the fetch resolves, the search box
      changes, the page button with the given key is clicked, or the "Name"
      header is clicked. */
  datatype Event =
    | FetchResolved(data: seq<User>)
    | SearchInput(value: string)
    | PageButtonClick(key: int)
    | NameHeaderClick

  /** The page buttons currently rendered. */
  function Buttons(st: TableState): (r: seq<int>) {
    PageButtons(PageCount(|st.filteredUsers|))
  }

  /** One event: its handler, then the filter effect if `users` or
      `searchCity` changed. A resolved fetch always hands over a new array,
      so the effect always runs; a search string equal to the current one
      does not re-run it. A click on a key with no rendered button does
      nothing. Only a resolved fetch changes `users`, only a header click
      changes the direction, and a search input always selects page 1. */
  function Step(st: TableState, ev: Event): (r: TableState)
    ensures !ev.FetchResolved? ==> r.users == st.users
    ensures ev.FetchResolved? ==> r.users == ev.data
    ensures !ev.SearchInput? ==> r.searchCity == st.searchCity
    ensures ev.SearchInput? ==> r.searchCity == ev.value && r.currentPage == 1
    ensures ev.NameHeaderClick? <==> r.sortDirection != st.sortDirection
    ensures ev.FetchResolved? || (ev.SearchInput? && ev.value != st.searchCity) ==>
      r.filteredUsers == FilterByCity(r.users, r.searchCity)
    ensures ev.PageButtonClick? || (ev.SearchInput? && ev.value == st.searchCity) ==>
      r.filteredUsers == st.filteredUsers
    ensures ev.NameHeaderClick? ==> r.filteredUsers == SortByName(st.sortDirection, st.filteredUsers)
    ensures ev.FetchResolved? || ev.NameHeaderClick? ==> r.currentPage == st.currentPage
    ensures ev.PageButtonClick? ==>
      r.currentPage == if 0 <= ev.key < |Buttons(st)| then ev.key + 1 else st.currentPage
  {
    match ev
    case FetchResolved(data) => FilterEffect(SetUsers(st, data))
    case SearchInput(value) =>
      var next := HandleSearchCityChange(st, value);
      if value == st.searchCity then next else FilterEffect(next)
    case PageButtonClick(key) =>
      if 0 <= key < |Buttons(st)| then HandlePageChange(st, Buttons(st)[key]) else st
    case NameHeaderClick => HandleSort(st)
  }

  /** The state after a sequence of events. */
  function Run(st: TableState, events: seq<Event>): (r: TableState)
    decreases |events|
  {
    if events == [] then st else Run(Step(st, events[0]), events[1..])
  }

  /** The rows on screen. */
  function Displayed(st: TableState): (r: seq<User>)
    ensures st.currentPage >= 1 ==> |r| <= PageSize
    ensures st.currentPage >= 1 ==>
      r == st.filteredUsers[Min((st.currentPage - 1) * PageSize, |st.filteredUsers|)
                            ..Min(st.currentPage * PageSize, |st.filteredUsers|)]
  {
    DisplayedPage(st.filteredUsers, st.currentPage)
  }

  /** What every reachable state satisfies: the page is at least 1 and the
      filtered list holds exactly the users matching the search, in some
      order. */
  predicate Inv(st: TableState) {
    && st.currentPage >= 1
    && multiset(st.filteredUsers) == multiset(FilterByCity(st.users, st.searchCity))
  }

  lemma InitSatisfiesInv()
    ensures Inv(Init())
  {
  }

  lemma StepPreservesInv(st: TableState, ev: Event)
    requires Inv(st)
    ensures Inv(Step(st, ev))
  {
  }

  lemma {:induction false} RunPreservesInv(st: TableState, events: seq<Event>)
    requires Inv(st)
    ensures Inv(Run(st, events))
    decreases |events|
  {
    if events != [] {
      StepPreservesInv(st, events[0]);
      RunPreservesInv(Step(st, events[0]), events[1..]);
    }
  }

  /** Every state reachable from mount satisfies the invariant. */
  lemma ReachableSatisfiesInv(events: seq<Event>)
    ensures Inv(Run(Init(), events))
  {
    InitSatisfiesInv();
    RunPreservesInv(Init(), events);
  }

  /** Under the invariant the rows on screen are at most one page: the
      window of the current page over the filtered list, never a slice
      counted from the end. */
  lemma DisplayIsWindow(st: TableState)
    requires Inv(st)
    ensures |Displayed(st)| <= PageSize
    ensures Displayed(st) == st.filteredUsers[Min((st.currentPage - 1) * PageSize, |st.filteredUsers|)
                                              ..Min(st.currentPage * PageSize, |st.filteredUsers|)]
  {
  }

  /** The selected page is one of the rendered buttons (or page 1 when
      there are none). */
  predicate PageInRange(st: TableState) {
    st.currentPage <= if PageCount(|st.filteredUsers|) == 0 then 1 else PageCount(|st.filteredUsers|)
  }

  /** Every event keeps the page in range, except a fetch resolving after
      users have already arrived; the component fetches once, on mount. */
  lemma StepKeepsPageInRange(st: TableState, ev: Event)
    requires Inv(st) && PageInRange(st)
    requires ev.FetchResolved? ==> st.users == []
    ensures PageInRange(Step(st, ev))
  {
  }

  /** The number of resolved fetches among `events`. */
  function FetchCount(events: seq<Event>): (n: nat)
    ensures n <= |events|
  {
    if events == [] then 0
    else (if events[0].FetchResolved? then 1 else 0) + FetchCount(events[1..])
  }

  /** A run keeps the page in range as long as at most one fetch resolves,
      and only while `users` is still empty. */
  lemma {:induction false} RunKeepsPageInRange(st: TableState, events: seq<Event>)
    requires Inv(st) && PageInRange(st)
    requires FetchCount(events) == 0 || (FetchCount(events) == 1 && st.users == [])
    ensures PageInRange(Run(st, events))
    decreases |events|
  {
    if events != [] {
      StepKeepsPageInRange(st, events[0]);
      StepPreservesInv(st, events[0]);
      RunKeepsPageInRange(Step(st, events[0]), events[1..]);
    }
  }

  /** From mount, with the single fetch the component issues, the selected
      page is always one of the rendered buttons (or page 1 when there are
      none). */
  lemma ReachablePageInRange(events: seq<Event>)
    requires FetchCount(events) <= 1
    ensures PageInRange(Run(Init(), events))
  {
    InitSatisfiesInv();
    RunKeepsPageInRange(Init(), events);
  }

  /** A click on a rendered page button selects the page it is labelled
      with, and that page shows at least one row. */
  lemma PageButtonClickSelectsPage(st: TableState, key: int)
    requires 0 <= key < |Buttons(st)|
    ensures Step(st, PageButtonClick(key)).currentPage == key + 1
    ensures Displayed(Step(st, PageButtonClick(key))) != []
  {
    PageButtonsValid(st.filteredUsers);
    assert Buttons(st)[key] in Buttons(st);
  }

  /** A page in range over a non-empty list shows at least one row. */
  lemma PageInRangeShowsRows(st: TableState)
    requires Inv(st) && PageInRange(st)
    requires st.filteredUsers != []
    ensures Displayed(st) != []
  {
  }

  /** Typing a search string selects page 1 and keeps the sort direction;
      a new search string rebuilds the filtered list from `users`. */
  lemma SearchInputResetsPage(st: TableState, value: string)
    ensures Step(st, SearchInput(value)).currentPage == 1
    ensures Step(st, SearchInput(value)).sortDirection == st.sortDirection
    ensures value != st.searchCity ==> Step(st, SearchInput(value)).filteredUsers == FilterByCity(st.users, value)
  {
  }

  /** Two clicks on the header restore the sort direction. */
  lemma SortTwiceRestoresDirection(st: TableState)
    ensures HandleSort(HandleSort(st)).sortDirection == st.sortDirection
  {
  }

  /** After a click on the header the names are non-decreasing if the
      direction was ascending and non-increasing if it was descending. */
  lemma HandleSortOrdersNames(st: TableState, i: int, j: int)
    requires 0 <= i < j < |st.filteredUsers|
    ensures var r := HandleSort(st).filteredUsers;
      st.sortDirection == Asc ==> !Less(r[j].name, r[i].name)
    ensures var r := HandleSort(st).filteredUsers;
      st.sortDirection == Desc ==> !Less(r[i].name, r[j].name)
  {
    SortOrdersNames(st.sortDirection, st.filteredUsers, i, j);
  }
}
