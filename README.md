# Design at Waterloo list engine, in Dafny

This project models the client-side list engine of the Design at Waterloo website. Both
listing pages use it: the member Directory and the project archive (Work). The model covers:

- **The engine** (`DataView`): a list component configured with a search function, facets
  (checkbox filters) and sort fields.
  - It keeps a search term, one selected-value list per facet key, a sort field and
    direction, and a grid or table view mode.
  - It shows the items that pass the search and every facet with a non-empty selection.
  - It sorts them stably with the comparator looked up for the sort field, reversed for
    descending order.
  - It restores and saves the view mode through an injected key-value store.
- **The filter panel** (`FilterPanel`): the count shown next to every option of a facet, and
  the "clear all" button.
- **One facet's section** (`FilterAccordion`): toggling an option, clearing the facet, the
  section title, the initial open state, when the section's Clear button is shown, and what
  each option row shows.
- **The two pages' configurations** (`Directory`, `Work`): their search functions, facet
  predicates, comparators and default orders. `DirectoryView` and `WorkView` mount the
  engine with them.
- **The option extractors** (`DirectoryOptions`, `WorkOptions`, `Facets`): they walk the
  records and collect each distinct value once, as a JavaScript `Set` does. They then sort
  the values and build captions.
- **University of Waterloo term codes** (`TermCodes`): decoding `1YYM` codes, the current
  term for a date, the next available term, and a status list of terms.
- **Small helpers**:
  - the grid view's column count per breakpoint (`GridView`);
  - `ensureHttps` (`Urls`);
  - the link click handler (`Links`);
  - the page-transition state machine (`Transitions`).

Supporting modules:

- `Options`: option and result types.
- `Text`: JavaScript string order, `includes`, ASCII case mapping, decimal formatting.
- `Sequences`: subsequences, reversal, duplicate-free sequences.
- `Sorting`: a stable insertion sort that stands for `Array.prototype.sort`, with proofs of
  order, permutation and stability.
- `Sanity`: the member and project records.

State the source updates in place is modelled with classes:

- `DataView.ListView` holds the list state.
- `DataView.KeyValueStore` is the browser store.
- `Transitions.TransitionProvider` holds the transition stage and target.

Loops that accumulate into a `Set` or a style object are methods with loop invariants. All
other code is functions and lemmas.

Two points of the listing code worth stating outright:

- The default Directory order is `memberId` ascending (`DirectoryClient.tsx:140-146`).
- Descending order reverses the stable ascending result (`index.tsx:147-148`), so
  `SortDescendingIsReverse` holds for every comparator that is a total preorder.

## Model

| member | source | states |
|---|---|---|
| DataView.FilterItems | src/components/DataView/index.tsx:103-124 | The shown items are a subsequence of the items, in their order; an item is shown iff it passes the search (skipped for an empty term or no search config) and every facet with a non-empty selection; a shown item appears as many times as in the items |
| DataView.FilterKeepsAll | src/components/DataView/index.tsx:103-124 | When every item passes, filtering returns the items unchanged |
| DataView.FilterCongruent | src/components/DataView/index.tsx:103-124 | Two settings that accept the same items produce the same shown list |
| DataView.NothingSelectedKeepsAll | src/components/DataView/index.tsx:106-120 | With no search term and no selection, every item is shown in its order |
| DataView.EmptySelectionIsNoOp | src/components/DataView/index.tsx:114-115 | A facet whose selection is empty filters exactly as a facet with no entry |
| DataView.UnknownKeyIsIgnored | src/components/DataView/index.tsx:113-119 | A selection under a key no facet has does not change the shown items |
| DataView.FindColumn | src/components/DataView/index.tsx:139 | None iff no column has the key; otherwise the first column with that key |
| DataView.LookupComparator | src/components/DataView/index.tsx:135-141 | The sort config's own comparator for the field wins; otherwise the first column with that key supplies its `sortFn`; no entry and no column gives none |
| DataView.SortItems | src/components/DataView/index.tsx:127-149 | The sorted list is a permutation of the shown items, and it is the shown list itself when the field is empty or no comparator is found |
| DataView.SortAscending | src/components/DataView/index.tsx:147 | Ascending order is ordered by the comparator, and items the comparator ties keep their relative order |
| DataView.SortDescendingIsReverse | src/components/DataView/index.tsx:147-148 | Descending order is exactly the ascending order reversed, so no later item comes before an earlier one in the comparator |
| DataView.ThreeClicksCycle | src/components/DataView/index.tsx:152-167 | From unsorted, clicks on one header give ascending, then descending, then unsorted |
| DataView.ActiveFiltersAndBadge | src/components/DataView/index.tsx:183-184 | The badge total is zero iff every selection is empty; filters are active iff there is a term or the badge total is positive |
| DataView.SelectionTotalAfterChange | src/components/DataView/index.tsx:245-249 | Replacing one facet's values changes the badge total by exactly that facet's share |
| DataView.ParseViewMode | src/components/DataView/index.tsx:87-89 | A stored mode is adopted iff it is exactly "grid" or "table", and then it is that mode |
| DataView.ViewModeRoundTrip | src/components/DataView/index.tsx:88-98 | A saved mode parses back to itself |
| DataView.KeyValueStore.GetItem | src/components/DataView/index.tsx:87 | Lookup returns a value iff the key is stored, and then the stored value |
| DataView.KeyValueStore.SetItem | src/components/DataView/index.tsx:98 | The key now maps to the value and no other entry changes |
| DataView.ListView.constructor | src/components/DataView/index.tsx:47-70 | Mounting keeps the configuration; it uses grid with a toggle when no view config is given, an empty term and selection, and the sort config's default field and direction, or "" and ascending |
| DataView.ListView.RestoreViewMode | src/components/DataView/index.tsx:85-92 | With a non-empty storage key and a valid stored mode the view takes that mode; otherwise it keeps its mode |
| DataView.ListView.HandleViewModeChange | src/components/DataView/index.tsx:95-100 | Sets the mode, and writes it under the storage key only when the key is non-empty |
| DataView.ListView.SetSearchTerm | src/components/DataView/index.tsx:224-230 | The search bar sets the term |
| DataView.ListView.HandleSort | src/components/DataView/index.tsx:152-167 | A new field gives (field, asc); the same field while asc gives desc; while desc gives ("", asc) |
| DataView.ListView.HandleFilterChange | src/components/DataView/index.tsx:170-175 | Only the given key's selection changes; the badge total is the others' total plus the new list's length |
| DataView.ListView.ClearAllFilters | src/components/DataView/index.tsx:178-181 | Term and selection are empty, filters are inactive, every item is shown, the displayed list is all items in the current sort order, and the badge total is zero |
| DataView.ReloadRestoresViewMode | src/components/DataView/index.tsx:85-100 | Choosing a mode and mounting again with the same storage key brings the mode back |
| FilterPanel.FindFilter | src/components/DataView/FilterPanel/index.tsx:62 | None iff no facet has the key; otherwise the first facet with that key |
| FilterPanel.CountMatching | src/components/DataView/FilterPanel/index.tsx:49-71 | The default count is at most the number of items, and zero iff no item passes search, the other facets and this facet set to [option] |
| FilterPanel.FilterCount | src/components/DataView/FilterPanel/index.tsx:43-72 | A facet's own `getCount` decides the count when present; otherwise the count lies between 0 and the number of items |
| FilterPanel.CountIgnoresOwnSelection | src/components/DataView/FilterPanel/index.tsx:57-59 | An option's count does not depend on its own facet's current selection |
| FilterPanel.CountIgnoresUnknownKeys | src/components/DataView/FilterPanel/index.tsx:62-63 | A selection under a key no facet has does not change any count |
| FilterPanel.CountWithoutSearchConfig | src/components/DataView/FilterPanel/index.tsx:51-53 | Without a search config a search term does not narrow the counts |
| FilterPanel.CountIsFilteredWithOverride | src/components/DataView/FilterPanel/index.tsx:43-72 | With distinct facet keys, an option's count is the number of items the list would show with that facet's selection replaced by [option] |
| FilterPanel.ClearAllShownIffActive | src/components/DataView/FilterPanel/index.tsx:40-41 | The panel's "clear all" condition is the list's active-filters condition |
| FilterAccordion.RemoveAll | src/components/DataView/FilterPanel/FilterAccordion.tsx:25 | The value is gone, every other value keeps all its copies in their order, and the list shrinks iff the value was there |
| FilterAccordion.Toggle | src/components/DataView/FilterPanel/FilterAccordion.tsx:23-29 | The value's membership flips and no other value's changes; an absent value is appended at the end; a present one is removed everywhere, every other value keeping all its copies in their order |
| FilterAccordion.ToggleTwiceRestores | src/components/DataView/FilterPanel/FilterAccordion.tsx:23-29 | Checking an unchecked option and unchecking it gives back the same list |
| FilterAccordion.ToggleKeepsDistinct | src/components/DataView/FilterPanel/FilterAccordion.tsx:23-29 | Toggling keeps a duplicate-free selection duplicate-free |
| FilterAccordion.ClearFilterRestores | src/components/DataView/FilterPanel/FilterAccordion.tsx:31-33 | Clearing a facet filters as if it had never been selected, and every item shown before is still shown |
| FilterAccordion.InitiallyOpen | src/components/DataView/FilterPanel/FilterAccordion.tsx:21 | The section starts open iff some value is selected |
| FilterAccordion.ClearButtonShown | src/components/DataView/FilterPanel/FilterAccordion.tsx:61-65 | The Clear button shows iff the section starts open; it is hidden after clearing, shown once an unchecked option is checked, hidden once the only selected value is unchecked |
| FilterAccordion.Title | src/components/DataView/FilterPanel/FilterAccordion.tsx:41-44 | The title is the caption exactly when nothing is selected; otherwise the caption followed by " (n)" for the number of selected values |
| FilterAccordion.ToggleFlipsOnlyThatRow | src/components/DataView/FilterPanel/FilterAccordion.tsx:67-83 | Clicking a row flips its checkbox and leaves every other row as it was |
| Directory.SearchIgnoresCase | src/app/directory/DirectoryClient.tsx:82-92 | The member search gives the same answer for the term in upper or lower case |
| Directory.SearchFindsName | src/app/directory/DirectoryClient.tsx:82-92 | A member is found by any piece of "first last", whatever its case |
| Directory.SearchFindsProgram | src/app/directory/DirectoryClient.tsx:85-89 | A member is found by any piece of their program, whatever its case |
| Directory.SearchFindsSpecialty | src/app/directory/DirectoryClient.tsx:86-90 | A member is found by any piece of their space-joined specialties, whatever its case |
| Directory.SearchMissesOthers | src/app/directory/DirectoryClient.tsx:82-92 | A member whose name, program and joined specialties all lack the term is not found |
| Directory.EmptySelectionAcceptsAll | src/app/directory/DirectoryClient.tsx:100-136 | Every directory facet accepts every member when its selection is empty |
| Directory.MissingListFails | src/app/directory/DirectoryClient.tsx:125-136 | A member without a specialty or schedule list fails any non-empty selection of that facet |
| Directory.AvailabilityShowsTermNames | src/app/directory/DirectoryClient.tsx:137 | Availability options are shown under their decoded term names, the other facets' under their captions |
| Directory.ClassFacetAlone | src/app/directory/DirectoryClient.tsx:100-102 | With only the class facet set, exactly the members whose class, read as "" when missing, is selected are shown |
| Directory.MemberIdIsTotalPreorder | src/app/directory/DirectoryClient.tsx:144 | The member-number comparator is a total preorder |
| Directory.DefaultOrder | src/app/directory/DirectoryClient.tsx:140-146 | The first display is in ascending member number, members without a number come after numbered ones below 999999, and equal numbers keep their order |
| Directory.NameColumnOrder | src/app/directory/DirectoryClient.tsx:54-57 | Sorting by the name header orders by `localeCompare` of "first last", because the sort config has only `memberId` |
| Directory.DirectoryView | src/app/directory/DirectoryClient.tsx:35-150 | The mounted Directory has the members, the page's search, the page's five facets over option lists each sorted and holding exactly the members' values (the upcoming terms for availability), the page's sort config with its `memberId` ascending default, grid with a toggle, and key "directoryViewMode" |
| DirectoryOptions.CollectField | src/app/directory/utils.ts:9-14 | The collected set holds each non-empty value of the field once, and nothing else |
| DirectoryOptions.ExtractUniqueField | src/app/directory/utils.ts:8-48 | The options are strictly ascending, captioned by their value, and are exactly the non-empty values of the field |
| DirectoryOptions.ExtractUniqueClasses | src/app/directory/utils.ts:8-18 | Exactly the non-empty graduating classes, strictly ascending, each captioned by its value |
| DirectoryOptions.ExtractUniquePrograms | src/app/directory/utils.ts:23-33 | Exactly the non-empty programs, strictly ascending, each captioned by its value |
| DirectoryOptions.ExtractUniqueSchools | src/app/directory/utils.ts:38-48 | Exactly the non-empty schools, strictly ascending, each captioned by its value |
| DirectoryOptions.AddAll | src/app/directory/utils.ts:57 | Adding a list to the set keeps it duplicate-free and adds exactly the list's values |
| DirectoryOptions.ExtractUniqueSpecialties | src/app/directory/utils.ts:53-63 | Exactly the entries of every member's specialty list, empty ones included, strictly ascending |
| DirectoryOptions.ExtractAvailabilityTerms | src/app/directory/utils.ts:68-80 | Exactly the work-schedule codes that are not past at the given date, strictly ascending |
| DirectoryOptions.FutureTerms | src/app/directory/utils.ts:72-73 | The codes that are not past, in their order, each with all its copies |
| Facets.ToOptions | src/app/directory/utils.ts:17 | Each value becomes an option captioned by itself, in order |
| Facets.SortedOptions | src/app/directory/utils.ts:15-17 | A duplicate-free set becomes strictly ascending options with the same values |
| Work.SearchIgnoresCase | src/app/work/WorkClient.tsx:74-80 | The project search gives the same answer for the term in upper or lower case |
| Work.SearchFindsTitleOrClient | src/app/work/WorkClient.tsx:74-80 | A project whose lower-cased title or client contains the lower-cased term is found |
| Work.SearchMissesOthers | src/app/work/WorkClient.tsx:74-80 | A project whose title and client both lack the term is not found |
| Work.YearFacetAlone | src/app/work/WorkClient.tsx:97-99 | Selecting one year's decimal string shows exactly the projects completed that year |
| Work.CompareYearIsTotalPreorder | src/app/work/WorkClient.tsx:69 | The year column's comparator is a total preorder |
| Work.DefaultOrderNewestFirst | src/app/work/WorkClient.tsx:110-114 | With an empty `fields` map the first display takes the year column's comparator, reversed: a permutation of the projects, newest first |
| Work.YearOptionsNameProjectYears | src/app/work/WorkClient.tsx:96 | The year options are exactly the decimal years of the projects |
| Work.WorkView | src/app/work/WorkClient.tsx:32-118 | The mounted Work page has the projects, the page's search, the page's three facets over option lists holding exactly the projects' categories, years (newest first) and clients, the page's sort config with its year descending default, grid with a toggle, and key "workViewMode" |
| WorkOptions.CategoryLabel | src/app/work/utils.ts:18 | The label is as long as the value, its first character upper-cased, and every later "-" replaced by a space |
| WorkOptions.WebDesignLabel | src/app/work/utils.ts:18 | "web-design" is labelled "Web design" |
| WorkOptions.LabelledOptions | src/app/work/utils.ts:16-19 | Each category becomes an option with its label, in order |
| WorkOptions.ExtractUniqueCategories | src/app/work/utils.ts:7-20 | Exactly the non-empty categories, strictly ascending, each with its label |
| WorkOptions.NewestFirstIsTotalPreorder | src/app/work/utils.ts:31 | `b - a` is a total preorder |
| WorkOptions.CollectYears | src/app/work/utils.ts:26-29 | The collected set holds each project year once, and nothing else |
| WorkOptions.SortNewestFirst | src/app/work/utils.ts:31 | Sorting the distinct years by `b - a` makes them strictly descending, with the same years |
| WorkOptions.YearOptions | src/app/work/utils.ts:32 | Each year becomes an option whose value and caption are its decimal string |
| WorkOptions.ExtractUniqueYears | src/app/work/utils.ts:25-33 | Exactly the project years, strictly descending, with value and caption the decimal string |
| WorkOptions.YearOptionsDistinct | src/app/work/utils.ts:30-32 | Distinct years give distinct option values |
| WorkOptions.ExtractUniqueClients | src/app/work/utils.ts:38-46 | Exactly the clients, the empty one included, strictly ascending, each captioned by its value |
| TermCodes.DecodeTermCode | src/lib/termUtils.ts:5-20 | A four-character code ending in 1, 5 or 9 becomes its season, " 20" and characters 1-2; any other input is returned unchanged, and only then |
| TermCodes.DecodeExample | src/lib/termUtils.ts:2-19 | "1261" is Winter 2026, "1255" Spring 2025, "1259" Fall 2025; "1263" and "126" stay as they are |
| TermCodes.DecodeIgnoresFirstChar | src/lib/termUtils.ts:7-10 | Decoding does not look at the first character |
| TermCodes.TermMonth | src/lib/termUtils.ts:33-40 | Months from 9 are Fall, 5 to 8 Spring, earlier ones Winter |
| TermCodes.LastTwo | src/lib/termUtils.ts:30 | The last two characters, or the whole string when shorter |
| TermCodes.CurrentTermCode | src/lib/termUtils.ts:25-43 | The current code starts with "1" and ends in a season character |
| TermCodes.CurrentTermDecodes | src/lib/termUtils.ts:25-43 | For years 2000-2099 the current code is well formed and decodes to the season and the full year |
| TermCodes.FirstAfter | src/lib/termUtils.ts:56 | None iff no code is after the current one; otherwise the first such code |
| TermCodes.GetNextAvailableTerm | src/lib/termUtils.ts:49-59 | A term iff some code is after the current one; then the decoded name of the least such code; none for a missing or empty list |
| TermCodes.NextIsLeast | src/lib/termUtils.ts:55-56 | The first code after the current one in sorted order is the least code after it |
| TermCodes.NextIsFuture | src/lib/termUtils.ts:54-58 | The next available term is neither past nor the current term |
| TermCodes.StatusRows | src/lib/termUtils.ts:79-83 | One row per code, in order, with its decoded name and past flag |
| TermCodes.GetTermsWithStatus | src/lib/termUtils.ts:74-84 | Every code once per occurrence, in string order, with its decoded name and past flag; none for a missing list |
| TermCodes.PastTermsFirst | src/lib/termUtils.ts:64-84 | In the status list every past term comes before every current or future one |
| Sorting.StableSort | src/components/DataView/index.tsx:147 | The sort is a permutation of its input |
| Sorting.StableSortSorted | src/components/DataView/index.tsx:147 | Under a total preorder the result is ordered |
| Sorting.StableSortStable | src/components/DataView/index.tsx:147 | Under a total preorder, items that tie keep their relative order |
| Sorting.SortStrings | src/lib/termUtils.ts:55 | `sort()` with no comparator: a permutation in string order |
| Sorting.SortDistinctStrings | src/app/directory/utils.ts:15-16 | Sorting a Set's values gives them strictly ascending, with the same values |
| Sequences.SetAdd | src/app/directory/utils.ts:12 | `Set.add`: the value is a member afterwards, nothing else is added, and no duplicate appears |
| Text.IntToStringInjective | src/app/work/WorkClient.tsx:99 | Different years have different decimal strings |
| Text.LowerOfUpper | src/app/directory/DirectoryClient.tsx:83 | Lower-casing an upper-cased string equals lower-casing it |
| Text.IncludesAt | src/app/directory/DirectoryClient.tsx:88-90 | `includes` holds iff the term occurs at some position |
| Text.CompareAgreesWithOrder | src/lib/termUtils.ts:55-56 | The default sort's comparison agrees with the string `<` used to compare codes |
| GridView.InheritedIsNearestBelow | src/components/DataView/GridView/index.tsx:56-63 | A breakpoint's column count is the one given at the nearest breakpoint at or below it, or 1 if none is |
| GridView.OtherKeysIgnored | src/components/DataView/GridView/index.tsx:47-59 | Keys other than the five breakpoints have no effect |
| GridView.ColumnExamples | src/components/DataView/GridView/index.tsx:14-15 | The documented map gives 1, 2, 2, 3, 3 columns; the Work page's gives 1, 2, 2, 3, 4; an empty map gives 1 everywhere |
| GridView.BuildGridStyle | src/components/DataView/GridView/index.tsx:38-64 | The aspect ratio is set iff one is given; with column counts all five variables hold the inherited counts, without them none is set |
| Urls.EnsureHttps | src/lib/urlUtils.ts:5-11 | "" iff the URL is missing or empty; a URL with a scheme is kept; any other gets "https://" in front; every non-empty result has a scheme |
| Urls.EnsureHttpsIdempotent | src/lib/urlUtils.ts:5-11 | Applying it twice is the same as once |
| Links.HandleClick | src/components/Link/index.tsx:14-26 | The caller's `onClick` runs first when given; the default is prevented and a transition to the same string starts iff the href is a string starting with "/" and not "/#" |
| Links.InterceptExamples | src/components/Link/index.tsx:19 | Internal pages are intercepted; in-page anchors, external URLs, hash links, "" and URL objects are not |
| Links.Click | src/components/Link/index.tsx:14-26 | An intercepted click on another path brings the curtain down towards it; any other click leaves the provider as it was |
| Transitions.UseTransition | src/context/TransitionContext.tsx:85-91 | Outside a provider the hook fails with its message; inside, it returns the provider's value |
| Transitions.TransitionProvider.constructor | src/context/TransitionContext.tsx:17-20 | A new provider is idle with no target |
| Transitions.TransitionProvider.Context | src/context/TransitionContext.tsx:79 | `isTransitioning` holds iff the stage is not idle |
| Transitions.TransitionProvider.StartTransition | src/context/TransitionContext.tsx:22-26 | A link to the current path changes nothing; any other sets the target and the entering stage, even mid-transition |
| Transitions.TransitionProvider.EnteringTimerElapsed | src/context/TransitionContext.tsx:38-42 | The router is asked to go to the target iff there is a non-empty one |
| Transitions.TransitionProvider.RouteEffect | src/context/TransitionContext.tsx:49-63 | Entering with the target shown starts exiting; an idle provider forgets a leftover target; in every other state nothing changes |
| Transitions.TransitionProvider.ExitTimerElapsed | src/context/TransitionContext.tsx:66-76 | After the exit timer the provider is idle with no target |
| Transitions.NavigationCycle | src/context/TransitionContext.tsx:22-76 | From idle, a transition to another non-empty path ends idle on that path, with no target |

## Left out

- Rendering is not modelled: JSX, CSS classes, the grid class string, hover previews, and the item key, href and render functions.
- Responsive behaviour is left out: `isDesktop`, the resize listener and the mobile and desktop panel toggles only choose layouts.
- Animation time is left out: the 1000 ms and 800 ms timers are events (method calls), and the animation frame before the curtain lifts is taken as immediate.
- The Next.js router and `usePathname` are not modelled: navigation is the value `EnteringTimerElapsed` returns, followed by a call to `RouteChanged`.
- `localeCompare` is a comparator parameter: collation is locale data the model does not hold, and the name-column lemma assumes it is a total preorder.
- `toLowerCase` and `toUpperCase` map ASCII letters only: Unicode case mapping is locale data.
- Strings are sequences of Unicode scalar values, not UTF-16 code units: string order and `slice(-2)` agree with JavaScript only where no surrogate pairs occur.
- The clock is a `Date(year, month)` parameter: `new Date()` is I/O.
- `localStorage` is the injected `KeyValueStore`, and the `typeof window` check in `handleViewModeChange` is left out: the model always runs in a browser.
- DataView.KeyValueStore.GetItem and DataView.KeyValueStore.SetItem never fail: the model does not capture `localStorage.getItem`/`setItem` throwing (storage disabled or full) at `index.tsx:87` and `:98`, which the source does not catch.
- Sanity `number` fields (`yearCompleted`, `memberId`) are modelled as `int`: a fractional year's `toString()` and floating-point rounding in the subtracting comparators (`WorkClient.tsx:69`, `DirectoryClient.tsx:144`) are not modelled.
- The Sanity content store, its queries and the image URL builder are foreign calls: members and projects are given as sequences.
- Keys inherited from JavaScript's object prototype are not modelled: a selection is a map with exactly the keys put into it, so `selectedFilters[key] || []` is `SelectedFor`.
- A facet's display name is the field `caption`: `label` in the source, renamed because `label` is a Dafny keyword.
- The FilterPanel count looks up a facet with `find`, that is, the first facet with a given key. `FilterPanel.CountIsFilteredWithOverride` therefore requires distinct facet keys, which both pages have.
- Sorting.StableSort: JavaScript leaves the order of `sort` unspecified for an inconsistent comparator. The model sorts by insertion for every comparator but proves order and stability only for total preorders.
- Transitions.TransitionProvider.RouteEffect: the idle-with-target branch cannot happen from a `Valid` state, because the provider sets stage and target together. The method still models that branch.
- TermCodes.GetNextAvailableTerm: the source's truthiness check on the found code can never fail, because "" is never after the current code. The model keeps the check.
- TermCodes.CurrentTermDecodes is stated for years 2000 to 2099 only: outside them decoding prints "20" and the last two digits, not the year.
- Work.SearchFindsTitleOrClient and Work.SearchMissesOthers state the search as two implications, not as one if-and-only-if with an existential.
- The only-sortable-columns guard on table headers is not modelled: `HandleSort` accepts any field, as `handleSort` does.
