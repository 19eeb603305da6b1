# Popular repositories page: state logic in Dafny

The page fetches last week's most-starred GitHub repositories once, lets the
user star repositories (the starred ids survive reloads through browser
storage), filter by language or by starred status, and sort by name. This
project models the state logic of its single component, `src/App.tsx`:

- the records (`Repos`): search items as received, the app's records, and
  what storage holds (nothing, a JSON array of ids, or unparsable text);
- starring (`Star`): the toggle handler, the list of starred ids the sync
  effect writes, the `isRepoStarred` lookup and the mapping of search items
  to records in `getRepos`;
- the derived view (`View`): the three-state sort cycle, sorting by name,
  the language filter with its `""` and `"null"` selections, the
  starred-only filter, and the language facets computed by the sync effect;
- the query date (`Dates`): the zero padding of month and day;
- the component (`App`): a class whose fields are the component's state
  and whose methods are its handlers, with the sync effect run after every
  change of the record list;
- generic sequence facts (`Seqs`): order-preserving filtering, a stable
  sort, reversal.

`localeCompare` is a parameter `cmp` of the sorting functions, assumed only
to be a consistent comparator (`View.Comparator`): swapping its arguments
flips its sign, and "not after" is transitive. `Array.prototype.sort` is
modelled by a stable insertion sort, of which only sortedness and
permutation are used.

Points where the behaviour of `src/App.tsx` is easy to misread:

- A corrupt storage entry fails the whole load when the search returned
  items: `JSON.parse` throws inside `getRepos`, so the error message is
  shown and no record is loaded. With no items nothing is parsed and the
  load succeeds.
- Star counts can go negative: a repository stored as starred is loaded
  with the raw count from the search, and unstarring it subtracts one, so a
  count of 0 becomes -1 (`Star.StoredStarCanGoNegative`). Toggling does keep
  counts non-negative for records whose count already includes the user's
  star (`Star.ToggleStarKeepsCounts`).
- `isRepoStarred` returns the truthiness of the id that `find` returns, so a
  stored id 0 is never loaded as starred (`Star.IsRepoStarred`). Search ids
  are positive, so the round trip of `Star.PersistedStarsRestored` assumes
  non-zero ids.
- A language literally named `"null"` is listed as a facet, but choosing it
  shows the repositories without a language (`View.NullFacetSelectsNoLanguage`).

## Model

| member | source | states |
|---|---|---|
| `Star.ToggleStar` | src/App.tsx:62-76 | same length and order; records with another id are returned unchanged; a matching record has its flag flipped, its count raised by one if it is now starred and lowered by one otherwise, and every other field kept |
| `Star.ToggleStarTwice` | src/App.tsx:66-71 | toggling the same id twice gives back the original list, flags and counts included |
| `Star.ToggleStarAbsent` | src/App.tsx:65-73 | an id that no record has leaves the list equal to the input |
| `Star.ToggleStarKeepsCounts` | src/App.tsx:69-70 | if every count includes the user's own star, it still does after a toggle, and no count is negative |
| `Star.StoredStarCanGoNegative` | src/App.tsx:242-251 | a record loaded as starred from storage with 0 stars gets -1 stars when it is unstarred |
| `Star.StarredIds` | src/App.tsx:37 | the persisted ids are exactly the ids of the starred records, as a subsequence of the record ids in list order |
| `Star.ToggleStarPersisted` | src/App.tsx:35-39 | with unique ids, after a toggle the persisted list gains the toggled id if it became starred, loses it if it became unstarred, and keeps every other id |
| `Star.Find` | src/App.tsx:211 | finds a value iff the id is in the stored list, and the value found is that id |
| `Star.IsRepoStarred` | src/App.tsx:209-212 | a record loads as starred iff its id is in the stored list and is not 0 |
| `Star.GetRepos` | src/App.tsx:227-257 | the load fails iff the response failed, or there are items and storage is corrupt; otherwise each item becomes a record with the same fields (count from the stargazer count, url from the page url) that is starred iff storage lists its non-zero id |
| `Star.PersistedStarsRestored` | src/App.tsx:209-211 | with unique non-zero ids, looking each record up in the list the sync effect stores gives back its starred flag |
| `View.NextSortMode` | src/App.tsx:78-81 | within 0..2 the next mode is the current one plus one, modulo three |
| `View.SortModeCycle` | src/App.tsx:79 | three presses return to the starting mode, and every press changes it |
| `View.SortByName` | src/App.tsx:83-93 | the result is a permutation of the records; mode 0 returns the list itself, mode 1 is non-decreasing and every other mode non-increasing by name under the comparator |
| `View.DescendingIsReversedAscending` | src/App.tsx:86-92 | when records that compare equal by name are identical, the descending order is the ascending order reversed |
| `View.FilterByLanguage` | src/App.tsx:95-104 | an order-preserving subsequence; "" keeps the list; "null" keeps every record without a language (absent or empty) as often as it occurs and nothing else; any other selection keeps exactly the records whose language equals it |
| `View.FilterStarred` | src/App.tsx:106-111 | an order-preserving subsequence; off keeps the list; on keeps exactly the starred records, each as often as it occurs |
| `View.Displayed` | src/App.tsx:83-111 | the displayed list holds each record exactly as often as the raw list if it passes both filters and not at all otherwise, as a subsequence of the sorted list: in raw order when unsorted, non-decreasing by name in mode 1 and non-increasing in every other mode |
| `View.TwoRepositoriesFilters` | src/App.tsx:95-104 | with one Go record and one without a language, the "Go" selection keeps the first alone and "null" the second alone |
| `View.Languages` | src/App.tsx:41-46 | the facets have no duplicates, and a string is a facet iff it is non-empty and some record has it as its language |
| `View.LanguagesInFirstSeenOrder` | src/App.tsx:41-46 | of two facets, the earlier one appears in the record list before the later one first does |
| `View.FacetsCoverRecords` | src/App.tsx:96-101 | a record without a language is shown under "null"; a record with a language has it among the facets, and (unless it is "null") is shown under it and not under "null" |
| `View.NullFacetSelectsNoLanguage` | src/App.tsx:131-139 | a record whose language is "null" yields the facet "null", whose option shows no record at all |
| `Seqs.Filter` | src/App.tsx:97 | the kept elements, as a subsequence, each as often as in the input when it satisfies the test and never otherwise |
| `Seqs.SortBy` | src/App.tsx:88 | the sorted copy is ordered under the comparator and a permutation of the input |
| `Dates.DecimalString` | src/App.tsx:219 | a non-empty string of decimal digit characters with no leading zero: it starts with "0" only for 0 itself, which is the single character "0" |
| `Dates.DecimalStringLastDigits` | src/App.tsx:219 | the last character is the units digit and, from ten on, the one before it the tens digit |
| `Dates.DecimalRoundTrip` | src/App.tsx:219 | reading the digits back gives the number |
| `Dates.SliceLast` | src/App.tsx:220-222 | the last k characters, or all of a shorter string |
| `Dates.PadTwo` | src/App.tsx:219-222 | always two characters, whatever the number |
| `Dates.PadTwoDigits` | src/App.tsx:219-222 | the two characters are the tens digit (0 below ten) and the units digit of the number |
| `Dates.PadTwoRoundTrip` | src/App.tsx:219-222 | below 100, the padded string reads back as the number |
| `Dates.CreatedDate` | src/App.tsx:219-222 | the date is the year's digits, a dash, the padded month, a dash, the padded day; the year field reads back as the year, and month and day fields read back as the month index plus one and the day whenever those are below 100 |
| `App.ViewState.constructor` | src/App.tsx:9-15 | no records, no error, not loading, starred-only off, unsorted, no facets, no language selected, storage as found |
| `App.ViewState.SyncStorage` | src/App.tsx:33-50 | with records, storage holds their starred ids and the facets are recomputed; without records nothing changes |
| `App.ViewState.Init` | src/App.tsx:18-28 | after loading, loading is off; a failed load sets the error message and changes nothing else; a successful one replaces the records and syncs |
| `App.ViewState.StarRepo` | src/App.tsx:62-76 | the records become the toggled list and storage again holds exactly their starred ids |
| `App.ViewState.ToggleStarredOnly` | src/App.tsx:52-55 | the starred-only flag is negated |
| `App.ViewState.SelectLanguage` | src/App.tsx:57-60 | the selection becomes the chosen option's value |
| `App.ViewState.CycleSort` | src/App.tsx:78-81 | the mode advances by `NextSortMode` and stays in 0..2 |
| `App.ViewState.DisplayedRepos` | src/App.tsx:83-111 | the current view holds exactly the records passing the current filters, each as often as in the raw list, in raw order when unsorted and in name order (ascending or descending with the mode) when sorted |

## Left out

- The HTTP request, its status check and the JSON body (src/App.tsx:224-230) are not modelled: `Star.GetRepos` and `App.ViewState.Init` take the outcome as a parameter, None for any failure.
- `localStorage` and `JSON.stringify`/`JSON.parse` are not modelled: storage is the value `Repos.Storage`, and a stored array is taken to hold integers (other JSON values in it, which never equal an id, are not represented).
- `Date.now()`, `new Date(...)`, `getFullYear`, `getMonth` and `getDate` are not modelled (wall clock and time zones): `Dates.CreatedDate` takes year, month index and day as parameters; the query URL built from it is not modelled.
- The locale ordering of `localeCompare` is not modelled; it is any consistent comparator.
- `Seqs.SortBy`: the engine's sorting algorithm is not modelled; stability, which the insertion sort has, is not stated.
- React hooks, memoisation and effect scheduling are not modelled: the sync effect runs right after each change of `repos`, and the derived view is a function of the current state.
- JSX rendering and the loading, error and empty display branches (src/App.tsx:113-206) are not modelled.
- The async `init` is a synchronous method; `loading` is on only inside it.
- Ids are unbounded integers, not floating-point JavaScript numbers.
- `App.TwoRepositoriesScenario` checks loading and starring through the class only; the filtering half of that scenario is `View.TwoRepositoriesFilters`.
