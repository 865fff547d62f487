# User table: filter, sort and pagination, modelled in Dafny

The `UserTable` React component shows a list of fetched users in a table. A
search box filters the users by city, ignoring case. A click on the "Name"
header sorts the filtered list by name and flips the direction between
ascending and descending. The rows are shown five at a time, with one page
button per page.

This project models the pure list logic of that component and proves its
properties. The modules are:

- `Text` (`text.dfy`): lower-casing restricted to ASCII, substring
  containment (`includes`), and the JavaScript `<` on strings.
- `Sequences` (`sequences.dfy`): `Min` and the subsequence relation.
- `Users` (`users.dfy`): the `User` record, reduced to `id`, `name` and `city`.
- `CityFilter` (`city_filter.dfy`): the city filter of the effect on `[users, searchCity]`.
- `NameSort` (`name_sort.dfy`): the comparator of `handleSort`, the sort
  direction, and a stable sort driven by that comparator.
- `Paging` (`paging.dfy`): `pageSize`, `pageCount`, `slice` with its
  negative-index rule, the displayed page, and the page buttons.
- `UserTable` (`user_table.dfy`): the state `(users, filteredUsers,
  searchCity, currentPage, sortDirection)`, one transition per handler, an
  event-driven `Step` that re-runs the filter effect when its dependencies
  change, and the invariant of every reachable state.

Modelling decisions:

- `Array.prototype.sort` is stable, so the sort is a stable insertion sort
  driven by the component's own comparator. Users with equal names keep
  their relative order in both directions. As a result, a descending sort
  is not the reverse of an ascending one.
- The filter effect runs whenever `users` or `searchCity` changes. A
  resolved fetch always hands over a new array, so the effect always runs
  then. A search string equal to the current one leaves `searchCity`
  unchanged, so the effect does not run and an earlier sort survives. A new
  search string rebuilds `filteredUsers` from `users`, which discards any
  earlier sort but keeps `sortDirection` as it was.
- `slice` is modelled with JavaScript's rule for negative indices. The
  invariant `UserTable.Inv` shows that the page is always at least 1, so that
  rule never applies in a reachable state.

## Model

| member | source | states |
|---|---|---|
| `Text.ToLower` | src/pages/index.tsx:37 | lower-casing keeps the length and maps every character through the ASCII lower-case rule |
| `Text.ToLowerIdempotent` | src/pages/index.tsx:37 | a lower-cased string has no ASCII capital left, and lower-casing it again changes nothing |
| `Text.Contains` | src/pages/index.tsx:37 | `includes` is true exactly when the needle occurs at some index of the haystack |
| `Text.ContainsEmpty` | src/pages/index.tsx:37 | the empty search string is contained in every city |
| `Text.ContainsNoLonger` | src/pages/index.tsx:37 | a string includes no needle longer than itself |
| `Text.Less` | src/pages/index.tsx:57-62 | the string `<` never holds between equal strings and always holds from a proper prefix to the longer string; its full characterisation is `Text.LessIsLexicographic` |
| `Text.LessIsLexicographic` | src/pages/index.tsx:57-62 | the string `<` used by the comparator is exactly lexicographic order: a proper prefix, or a smaller character at the first difference |
| `Text.LessTransitive` | src/pages/index.tsx:57-62 | the string `<` is transitive |
| `Text.LessTrichotomy` | src/pages/index.tsx:57-62 | two different names are ordered one way or the other, and never both ways |
| `CityFilter.CityMatches` | src/pages/index.tsx:37 | the empty search matches every city, and a matching search is no longer than the city; what it matches is stated by `Text.Contains` and `Text.ToLower` |
| `CityFilter.FilterByCity` | src/pages/index.tsx:34-40 | the filtered list is a subsequence of `users`; each user occurs in it as often as in `users` when its lower-cased city contains the lower-cased search, and not at all otherwise |
| `CityFilter.FilterMembership` | src/pages/index.tsx:36-37 | a user is kept exactly when it is in `users` and its city matches the search |
| `CityFilter.FilterEmptySearchKeepsAll` | src/pages/index.tsx:37 | an empty search keeps every user, in order |
| `CityFilter.FilterIgnoresCase` | src/pages/index.tsx:37 | search strings that differ only in the case of ASCII letters select the same users |
| `CityFilter.FilterSameLowered` | src/pages/index.tsx:37 | search strings with the same lower-cased form select the same users |
| `NameSort.Flip` | src/pages/index.tsx:66 | the new direction differs from the old one |
| `NameSort.FlipInvolution` | src/pages/index.tsx:66 | flipping the direction twice restores it |
| `NameSort.Compare` | src/pages/index.tsx:56-64 | the comparator returns -1, 0 or 1, and 0 exactly when the two names are equal; its ordering properties are stated by `NameSort.CompareConsistent` |
| `NameSort.CompareConsistent` | src/pages/index.tsx:56-64 | the comparator is antisymmetric, is zero exactly on equal names, and "not after" is transitive |
| `NameSort.SortByName` | src/pages/index.tsx:55-64 | the sorted copy has the same multiset of users and is in comparator order |
| `NameSort.SortOrdersNames` | src/pages/index.tsx:56-64 | ascending leaves names non-decreasing and descending leaves them non-increasing, for every pair of positions |
| `NameSort.SortStable` | src/pages/index.tsx:55-64 | users with the same name keep their relative order, as the stable `sort` guarantees |
| `NameSort.SortOfSortedIsIdentity` | src/pages/index.tsx:55-64 | sorting a list already in comparator order leaves it unchanged |
| `Paging.PageCount` | src/pages/index.tsx:42-43 | the page count holds all items in pages of 5, one page fewer would not, and it is 0 for an empty list |
| `Paging.PageCountIsCeiling` | src/pages/index.tsx:42-43 | any count with those two properties equals the page count, so it is the ceiling of `n / 5` |
| `Paging.RelativeIndex` | src/pages/index.tsx:71 | `slice` clamps a non-negative index to the length, counts a negative one back from the end, and clamps that at 0 |
| `Paging.Slice` | src/pages/index.tsx:71 | the slice is no longer than the list; for `0 <= start <= end` it is the elements from `start` to `end`, cut at the end of the list; for bounds of the same sign with `end <= start` it is empty |
| `Paging.DisplayedPage` | src/pages/index.tsx:69-71 | for a page `p >= 1` the shown slice has at most 5 items, is `items[(p-1)*5 .. min(p*5, n)]`, and is empty past the end of the list |
| `Paging.PageButtons` | src/pages/index.tsx:104-106 | there are `pageCount` buttons, and the button with key `k` is labelled `k + 1` |
| `Paging.PageButtonsValid` | src/pages/index.tsx:104-106 | every button number lies in `1..pageCount`, and its page shows at least one item |
| `Paging.FirstPagesArePrefix` | src/pages/index.tsx:69-71 | pages `1..k` shown one after another are the first `min(5k, n)` items |
| `Paging.PagesCoverList` | src/pages/index.tsx:104-105 | the pages of all the buttons, shown one after another, give back the filtered list exactly |
| `UserTable.Init` | src/pages/index.tsx:21-25 | on mount nothing is fetched or filtered, the search is empty, the page is 1 and the direction is ascending |
| `UserTable.SetUsers` | src/pages/index.tsx:30 | a resolved fetch stores the fetched array as `users` and changes nothing else |
| `UserTable.FilterEffect` | src/pages/index.tsx:34-40 | the effect makes the filtered list a subsequence of `users` holding exactly the users whose city matches the search, and changes nothing else |
| `UserTable.HandleSearchCityChange` | src/pages/index.tsx:45-48 | a search change stores the new string, selects page 1 and leaves the sort direction and the lists alone |
| `UserTable.HandlePageChange` | src/pages/index.tsx:50-52 | a page change selects the given page and changes nothing else |
| `UserTable.Step` | src/pages/index.tsx:34-67 | only a resolved fetch changes `users`; only a search input changes the search, and it selects page 1; only a header click changes the direction; the filtered list is rebuilt from `users` after a fetch or a new search string, sorted in the current direction by a header click, and left alone by a page click or an unchanged search string; a fetch or a header click keeps the page, and a click on the button with key `k` selects page `k + 1` (a key with no button keeps the page) |
| `UserTable.Displayed` | src/pages/index.tsx:69-71 | for a page `p >= 1` the rows on screen are at most 5 and are the filtered users from `(p-1)*5` to `p*5`, cut at the end of the list |
| `UserTable.PageButtonClickSelectsPage` | src/pages/index.tsx:104-106 | a click on a rendered button selects the page it is labelled with, and that page shows at least one row |
| `UserTable.HandleSort` | src/pages/index.tsx:54-67 | a header click replaces the filtered list by a permutation of it in the current direction's order, flips the direction, and changes nothing else |
| `UserTable.HandleSortOrdersNames` | src/pages/index.tsx:54-66 | after a header click the names are non-decreasing if the direction was ascending and non-increasing if it was descending |
| `UserTable.SortTwiceRestoresDirection` | src/pages/index.tsx:66 | two header clicks restore the sort direction |
| `UserTable.SearchInputResetsPage` | src/pages/index.tsx:34-48 | after a search input the page is 1 and the direction is unchanged; a new search string rebuilds the filtered list from `users` |
| `UserTable.InitSatisfiesInv` | src/pages/index.tsx:21-25 | the state on mount satisfies the invariant |
| `UserTable.StepPreservesInv` | src/pages/index.tsx:34-67 | every event keeps the page at least 1 and the filtered list a permutation of the users that match the search |
| `UserTable.RunPreservesInv` | src/pages/index.tsx:34-67 | any sequence of events keeps the invariant |
| `UserTable.ReachableSatisfiesInv` | src/pages/index.tsx:21-67 | every state reachable from mount satisfies the invariant |
| `UserTable.DisplayIsWindow` | src/pages/index.tsx:69-71 | in a state satisfying the invariant, the rows on screen are at most 5 and are the current page's window |
| `UserTable.StepKeepsPageInRange` | src/pages/index.tsx:45-52 | the selected page stays within `1..max(1, pageCount)` under every event, except a fetch that resolves after users have already arrived |
| `UserTable.RunKeepsPageInRange` | src/pages/index.tsx:45-52 | a run in which at most one fetch resolves, while `users` is still empty, keeps the selected page within `1..max(1, pageCount)` |
| `UserTable.ReachablePageInRange` | src/pages/index.tsx:27-52 | from mount, with the single fetch the component issues, the selected page always stays within `1..max(1, pageCount)` |
| `UserTable.PageInRangeShowsRows` | src/pages/index.tsx:69-71 | a page in range over a non-empty filtered list shows at least one row |

## Left out

- The `fetch` call, JSON decoding and the `console.error` on failure (src/pages/index.tsx:27-32) are network I/O. The fetched array is an input of the `FetchResolved` event.
- React's scheduling is not modelled. Each handler and each derivation is a pure state transition. The render in which `filteredUsers` is still stale, between a handler and the effect it triggers, is not modelled.
- JSX markup and rendering (src/pages/index.tsx:73-111) are not modelled, except the page-button numbers on lines 104-106.
- `toLowerCase` is restricted to ASCII letters. Full Unicode case mapping is not modelled.
- String `<` compares Dafny characters, which are Unicode scalar values, instead of UTF-16 code units. The two orders differ only for characters outside the Basic Multilingual Plane.
- `Math.ceil` on a floating-point quotient is replaced by integer ceiling division.
- Page numbers are integers. `handlePageChange` is only ever called with `pageNumber + 1` for an integer key, so fractional pages cannot occur.
- The fields that are displayed but never computed on (`street`, `suite`, `zipcode`, `phone`, `company`) are not modelled.
- Paging.DisplayedPage: its contract covers only pages `>= 1`. For a page `<= 0` the model follows `slice`'s count-from-the-end rule without a contract, and `UserTable.Inv` shows that such a page is never reached.
- UserTable.StepKeepsPageInRange: it excludes a second resolved fetch. The component fetches once, on mount, while `users` is still empty. A later fetch that shrinks the list could leave the page past the end, where `Paging.DisplayedPage` shows nothing.
