/**
 * The generic list engine behind the Directory and Work pages: the configuration a page
 * passes in, the filtering of the items by search term and facet selections, the sorting of
 * the result by a looked-up comparator, and the component state (search term, selections,
 * sort field and direction, view mode) together with the handlers that update it.
 */
module DataView {
  import opened Options
  import opened Text
  import opened Sequences
  import opened Sorting

  datatype FilterOption = FilterOption(value: string, caption: string)

  datatype SortDirection = Asc | Desc

  datatype ViewMode = Grid | Table

  /** Facet key to the values selected for it. */
  type Selection = map<string, seq<string>>

  datatype ColumnConfig<!T> = ColumnConfig(
    key: string,
    caption: string,
    sortable: bool,
    sortFn: Option<(T, T) -> int>)

  datatype SearchConfig<!T> = SearchConfig(placeholder: string, searchFn: (T, string) -> bool)

  datatype FilterConfig<!T> = FilterConfig(
    key: string,
    caption: string,
    options: seq<FilterOption>,
    filterFn: (T, seq<string>) -> bool,
    getCount: Option<(string, seq<T>, string, Selection) -> int>,
    formatValue: Option<string -> string>)

  datatype SortConfig<!T> = SortConfig(
    defaultField: string,
    defaultDirection: SortDirection,
    fields: map<string, (T, T) -> int>)

  datatype ViewModeConfig = ViewModeConfig(defaultMode: ViewMode, showToggle: bool)

  /** `selectedFilters[key] || []`. */
  function SelectedFor(sel: Selection, key: string): seq<string> {
    if key in sel then sel[key] else []
  }

  // ---------------------------------------------------------------- filtering

  /** The search step: skipped when the term is empty or the page has no search. */
  predicate MatchesSearch<T>(item: T, term: string, search: Option<SearchConfig<T>>) {
    term == "" || search.None? || search.value.searchFn(item, term)
  }

  /** Every facet with a non-empty selection accepts the item. */
  predicate PassesFilters<T>(item: T, filters: seq<FilterConfig<T>>, sel: Selection) {
    forall j :: 0 <= j < |filters| && |SelectedFor(sel, filters[j].key)| > 0 ==>
      filters[j].filterFn(item, SelectedFor(sel, filters[j].key))
  }

  predicate Keeps<T>(item: T, term: string, search: Option<SearchConfig<T>>,
                     filters: seq<FilterConfig<T>>, sel: Selection) {
    MatchesSearch(item, term, search) && PassesFilters(item, filters, sel)
  }

  /** `filteredItems`: the items that pass search and every active facet, in their order. */
  function FilterItems<T(!new)>(items: seq<T>, term: string, search: Option<SearchConfig<T>>,
                          filters: seq<FilterConfig<T>>, sel: Selection): (r: seq<T>)
    ensures IsSubsequence(r, items)
    ensures forall x :: x in r <==> x in items && Keeps(x, term, search, filters, sel)
    ensures forall x :: multiset(r)[x] == if Keeps(x, term, search, filters, sel) then multiset(items)[x] else 0
  {
    if items == [] then []
    else
      var rest := FilterItems(items[1..], term, search, filters, sel);
      assert items == [items[0]] + items[1..];
      if Keeps(items[0], term, search, filters, sel) then [items[0]] + rest else rest
  }

  /** Filtering keeps every item when each one passes. */
  lemma {:induction false} FilterKeepsAll<T(!new)>(items: seq<T>, term: string, search: Option<SearchConfig<T>>,
                                             filters: seq<FilterConfig<T>>, sel: Selection)
    requires forall x :: x in items ==> Keeps(x, term, search, filters, sel)
    ensures FilterItems(items, term, search, filters, sel) == items
  {
    if items != [] {
      assert forall x :: x in items[1..] ==> x in items;
      FilterKeepsAll(items[1..], term, search, filters, sel);
      assert Keeps(items[0], term, search, filters, sel);
      assert items == [items[0]] + items[1..];
    }
  }

  /** Two filter settings that agree on every item give the same result. */
  lemma {:induction false} FilterCongruent<T(!new)>(items: seq<T>,
      term1: string, search1: Option<SearchConfig<T>>, filters1: seq<FilterConfig<T>>, sel1: Selection,
      term2: string, search2: Option<SearchConfig<T>>, filters2: seq<FilterConfig<T>>, sel2: Selection)
    requires forall x :: x in items ==>
      (Keeps(x, term1, search1, filters1, sel1) <==> Keeps(x, term2, search2, filters2, sel2))
    ensures FilterItems(items, term1, search1, filters1, sel1) == FilterItems(items, term2, search2, filters2, sel2)
  {
    if items != [] {
      assert forall x :: x in items[1..] ==> x in items;
      FilterCongruent(items[1..], term1, search1, filters1, sel1, term2, search2, filters2, sel2);
    }
  }

  /** With no search term and no selection, the filter is the identity. */
  lemma NothingSelectedKeepsAll<T(!new)>(items: seq<T>, search: Option<SearchConfig<T>>, filters: seq<FilterConfig<T>>)
    ensures FilterItems(items, "", search, filters, map[]) == items
  {
    FilterKeepsAll(items, "", search, filters, map[]);
  }

  /** A facet whose selection is empty is the same as a facet with no entry at all. */
  lemma EmptySelectionIsNoOp<T(!new)>(items: seq<T>, term: string, search: Option<SearchConfig<T>>,
                                filters: seq<FilterConfig<T>>, sel: Selection, key: string)
    ensures FilterItems(items, term, search, filters, sel[key := []])
         == FilterItems(items, term, search, filters, sel - {key})
  {
    forall x | x in items
      ensures Keeps(x, term, search, filters, sel[key := []]) <==> Keeps(x, term, search, filters, sel - {key})
    {
      assert forall k :: SelectedFor(sel[key := []], k) == SelectedFor(sel - {key}, k);
    }
    FilterCongruent(items, term, search, filters, sel[key := []], term, search, filters, sel - {key});
  }

  /** Selections under keys that no facet has change nothing. */
  lemma UnknownKeyIsIgnored<T(!new)>(items: seq<T>, term: string, search: Option<SearchConfig<T>>,
                               filters: seq<FilterConfig<T>>, sel: Selection, key: string, values: seq<string>)
    requires forall j :: 0 <= j < |filters| ==> filters[j].key != key
    ensures FilterItems(items, term, search, filters, sel[key := values])
         == FilterItems(items, term, search, filters, sel)
  {
    forall x | x in items
      ensures Keeps(x, term, search, filters, sel[key := values]) <==> Keeps(x, term, search, filters, sel)
    {
      assert forall j :: 0 <= j < |filters| ==>
        SelectedFor(sel[key := values], filters[j].key) == SelectedFor(sel, filters[j].key);
    }
    FilterCongruent(items, term, search, filters, sel[key := values], term, search, filters, sel);
  }

  // ---------------------------------------------------------------- sorting

  /** `columns.findIndex(c => c.key === key)`, as an optional index. */
  function FindColumn<T>(columns: seq<ColumnConfig<T>>, key: string): (r: Option<nat>)
    ensures r.None? <==> forall j :: 0 <= j < |columns| ==> columns[j].key != key
    ensures r.Some? ==> r.value < |columns| && columns[r.value].key == key
                        && forall j :: 0 <= j < r.value ==> columns[j].key != key
  {
    if columns == [] then None
    else if columns[0].key == key then Some(0)
    else
      match FindColumn(columns[1..], key)
      case None => None
      case Some(j) => Some(j + 1)
  }

  /** `sortConfig?.fields?.[field]` is set. */
  predicate InFields<T>(field: string, sortConfig: Option<SortConfig<T>>) {
    sortConfig.Some? && field in sortConfig.value.fields
  }

  /** No column before index j has the key. */
  predicate FirstWithKey<T>(columns: seq<ColumnConfig<T>>, j: int, key: string) {
    forall k :: 0 <= k < j && k < |columns| ==> columns[k].key != key
  }

  /** The comparator for a field: the sort config's own entry first, else the matching column's. */
  function LookupComparator<T>(field: string, sortConfig: Option<SortConfig<T>>,
                               columns: seq<ColumnConfig<T>>): (r: Option<(T, T) -> int>)
    ensures InFields(field, sortConfig) ==> r == Some(sortConfig.value.fields[field])
    ensures !InFields(field, sortConfig) && (forall j :: 0 <= j < |columns| ==> columns[j].key != field) ==> r.None?
    ensures !InFields(field, sortConfig) ==>
              forall j :: 0 <= j < |columns| && columns[j].key == field && FirstWithKey(columns, j, field)
                ==> r == columns[j].sortFn
  {
    if sortConfig.Some? && field in sortConfig.value.fields then Some(sortConfig.value.fields[field])
    else
      match FindColumn(columns, field)
      case None => None
      case Some(j) => columns[j].sortFn
  }

  /** `sortedItems`: a stable sort of a copy by the looked-up comparator, reversed for `desc`. */
  function SortItems<T>(filtered: seq<T>, field: string, dir: SortDirection,
                        sortConfig: Option<SortConfig<T>>, columns: seq<ColumnConfig<T>>): (r: seq<T>)
    ensures multiset(r) == multiset(filtered)
    ensures field == "" || LookupComparator(field, sortConfig, columns).None? ==> r == filtered
  {
    if field == "" then filtered
    else
      match LookupComparator(field, sortConfig, columns)
      case None => filtered
      case Some(cmp) =>
        var sorted := StableSort(filtered, cmp);
        if dir == Desc then (ReversePermutes(sorted); Reverse(sorted)) else sorted
  }

  /** Ascending order is the comparator's order, stable on ties. */
  lemma SortAscending<T(!new)>(filtered: seq<T>, field: string, sortConfig: Option<SortConfig<T>>,
                               columns: seq<ColumnConfig<T>>, cmp: (T, T) -> int, y: T)
    requires field != "" && LookupComparator(field, sortConfig, columns) == Some(cmp)
    requires TotalPreorder(cmp)
    ensures SortedBy(SortItems(filtered, field, Asc, sortConfig, columns), cmp)
    ensures LevelWith(SortItems(filtered, field, Asc, sortConfig, columns), y, cmp) == LevelWith(filtered, y, cmp)
  {
    StableSortSorted(filtered, cmp);
    StableSortStable(filtered, y, cmp);
  }

  /** Descending order is exactly the ascending order reversed, so no comparator pair is inverted. */
  lemma SortDescendingIsReverse<T(!new)>(filtered: seq<T>, field: string, sortConfig: Option<SortConfig<T>>,
                                         columns: seq<ColumnConfig<T>>, cmp: (T, T) -> int)
    requires field != "" && LookupComparator(field, sortConfig, columns) == Some(cmp)
    requires TotalPreorder(cmp)
    ensures SortItems(filtered, field, Desc, sortConfig, columns)
         == Reverse(SortItems(filtered, field, Asc, sortConfig, columns))
    ensures var r := SortItems(filtered, field, Desc, sortConfig, columns);
            forall i, j :: 0 <= i < j < |r| ==> cmp(r[j], r[i]) <= 0
  {
    var asc := StableSort(filtered, cmp);
    assert SortItems(filtered, field, Asc, sortConfig, columns) == asc;
    assert SortItems(filtered, field, Desc, sortConfig, columns) == Reverse(asc);
    StableSortSorted(filtered, cmp);
    ReverseOfSorted(asc, cmp);
  }

  /** Reversing a sorted sequence puts every later element not after every earlier one. */
  lemma ReverseOfSorted<T>(s: seq<T>, cmp: (T, T) -> int)
    requires SortedBy(s, cmp)
    ensures var r := Reverse(s);
            forall i, j :: 0 <= i < j < |r| ==> cmp(r[j], r[i]) <= 0
  {
    var r := Reverse(s);
    forall i, j | 0 <= i < j < |r| ensures cmp(r[j], r[i]) <= 0 {
      assert r[j] == s[|s| - 1 - j] && r[i] == s[|s| - 1 - i];
    }
  }

  // ---------------------------------------------------------------- state

  /** The sort part of the state. */
  datatype SortState = SortState(field: string, direction: SortDirection)

  /** `handleSort`: a new field sorts ascending, then descending, then the sort is cleared. */
  function SortClick(s: SortState, field: string): SortState {
    if s.field == field then
      if s.direction == Asc then SortState(field, Desc) else SortState("", Asc)
    else SortState(field, Asc)
  }

  /** From unsorted, three clicks on the same header come back to unsorted. */
  lemma ThreeClicksCycle(field: string)
    requires field != ""
    ensures SortClick(SortState("", Asc), field) == SortState(field, Asc)
    ensures SortClick(SortClick(SortState("", Asc), field), field) == SortState(field, Desc)
    ensures SortClick(SortClick(SortClick(SortState("", Asc), field), field), field) == SortState("", Asc)
  {
  }

  /** `hasActiveFilters`: a search term, or some facet with a selected value. */
  predicate HasActiveFilters(term: string, sel: Selection) {
    term != "" || exists k :: k in sel && |sel[k]| > 0
  }

  /** Sum of selection lengths over a set of keys. */
  ghost function SumLengths(sel: Selection, keys: set<string>): nat
    decreases keys
  {
    if keys == {} then 0
    else
      var k :| k in keys;
      |SelectedFor(sel, k)| + SumLengths(sel, keys - {k})
  }

  /** The filter button's badge: the number of selected values over all facets. */
  ghost function SelectionTotal(sel: Selection): nat {
    SumLengths(sel, sel.Keys)
  }

  /** The sum does not depend on the order the keys are visited in. */
  lemma {:induction false} SumLengthsRemove(sel: Selection, keys: set<string>, k: string)
    requires k in keys
    ensures SumLengths(sel, keys) == |SelectedFor(sel, k)| + SumLengths(sel, keys - {k})
    decreases keys
  {
    var k' :| k' in keys && SumLengths(sel, keys) == |SelectedFor(sel, k')| + SumLengths(sel, keys - {k'});
    if k' != k {
      SumLengthsRemove(sel, keys - {k'}, k);
      SumLengthsRemove(sel, keys - {k}, k');
      assert keys - {k'} - {k} == keys - {k} - {k'};
    }
  }

  lemma {:induction false} SumLengthsZero(sel: Selection, keys: set<string>)
    ensures SumLengths(sel, keys) == 0 <==> forall k :: k in keys ==> |SelectedFor(sel, k)| == 0
    decreases keys
  {
    if keys != {} {
      var k :| k in keys && SumLengths(sel, keys) == |SelectedFor(sel, k)| + SumLengths(sel, keys - {k});
      SumLengthsZero(sel, keys - {k});
    }
  }

  lemma {:induction false} SumLengthsSameOn(sel1: Selection, sel2: Selection, keys: set<string>)
    requires forall k :: k in keys ==> SelectedFor(sel1, k) == SelectedFor(sel2, k)
    ensures SumLengths(sel1, keys) == SumLengths(sel2, keys)
    decreases keys
  {
    if keys != {} {
      var k :| k in keys && SumLengths(sel1, keys) == |SelectedFor(sel1, k)| + SumLengths(sel1, keys - {k});
      SumLengthsRemove(sel2, keys, k);
      SumLengthsSameOn(sel1, sel2, keys - {k});
    }
  }

  /** The badge is zero exactly when the filters other than search are inactive. */
  lemma ActiveFiltersAndBadge(term: string, sel: Selection)
    ensures SelectionTotal(sel) == 0 <==> forall k :: k in sel ==> |sel[k]| == 0
    ensures HasActiveFilters(term, sel) <==> term != "" || SelectionTotal(sel) > 0
  {
    SumLengthsZero(sel, sel.Keys);
  }

  /** Replacing one facet's values changes the badge by exactly that facet's share. */
  lemma SelectionTotalAfterChange(sel: Selection, key: string, values: seq<string>)
    ensures SelectionTotal(sel[key := values]) == SelectionTotal(sel - {key}) + |values|
  {
    var sel' := sel[key := values];
    SumLengthsRemove(sel', sel'.Keys, key);
    assert sel'.Keys - {key} == (sel - {key}).Keys;
    SumLengthsSameOn(sel', sel - {key}, (sel - {key}).Keys);
  }

  function ModeName(m: ViewMode): string {
    match m
    case Grid => "grid"
    case Table => "table"
  }

  /** A stored view mode counts only if it is exactly "grid" or "table". */
  function ParseViewMode(saved: Option<string>): (r: Option<ViewMode>)
    ensures r.Some? <==> saved == Some("grid") || saved == Some("table")
    ensures r.Some? ==> saved == Some(ModeName(r.value))
  {
    if saved == Some("grid") then Some(Grid)
    else if saved == Some("table") then Some(Table)
    else None
  }

  lemma ViewModeRoundTrip(m: ViewMode)
    ensures ParseViewMode(Some(ModeName(m))) == Some(m)
  {
  }

  /** The browser's key-value storage, injected. */
  class KeyValueStore {
    var entries: map<string, string>

    constructor (initial: map<string, string>)
      ensures entries == initial
    {
      entries := initial;
    }

    function GetItem(key: string): (r: Option<string>)
      reads this
      ensures r.Some? <==> key in entries
      ensures r.Some? ==> r.value == entries[key]
    {
      if key in entries then Some(entries[key]) else None
    }

    method SetItem(key: string, value: string)
      modifies this
      ensures entries == old(entries)[key := value]
    {
      entries := entries[key := value];
    }
  }

  /** The list component: its configuration (fixed for a mount) and its state. */
  class ListView<T(!new)> {
    const items: seq<T>
    const searchConfig: Option<SearchConfig<T>>
    const filterConfig: seq<FilterConfig<T>>
    const sortConfig: Option<SortConfig<T>>
    const columns: seq<ColumnConfig<T>>
    const viewModeConfig: ViewModeConfig
    const storageKey: Option<string>

    var viewMode: ViewMode
    var searchTerm: string
    var selectedFilters: Selection
    var sortField: string
    var sortDirection: SortDirection

    /** Mounting: `viewModeConfig` defaults to grid with a toggle, the sort to the config's defaults. */
    constructor (items: seq<T>, searchConfig: Option<SearchConfig<T>>, filterConfig: seq<FilterConfig<T>>,
                 sortConfig: Option<SortConfig<T>>, columns: seq<ColumnConfig<T>>,
                 viewModeConfig: Option<ViewModeConfig>, storageKey: Option<string>)
      ensures this.items == items && this.searchConfig == searchConfig && this.filterConfig == filterConfig
      ensures this.sortConfig == sortConfig && this.columns == columns && this.storageKey == storageKey
      ensures this.viewModeConfig == viewModeConfig.GetOr(ViewModeConfig(Grid, true))
      ensures viewMode == this.viewModeConfig.defaultMode
      ensures searchTerm == "" && selectedFilters == map[]
      ensures sortField == (if sortConfig.Some? then sortConfig.value.defaultField else "")
      ensures sortDirection == (if sortConfig.Some? then sortConfig.value.defaultDirection else Asc)
    {
      this.items := items;
      this.searchConfig := searchConfig;
      this.filterConfig := filterConfig;
      this.sortConfig := sortConfig;
      this.columns := columns;
      this.storageKey := storageKey;
      this.viewModeConfig := viewModeConfig.GetOr(ViewModeConfig(Grid, true));
      viewMode := viewModeConfig.GetOr(ViewModeConfig(Grid, true)).defaultMode;
      searchTerm := "";
      selectedFilters := map[];
      sortField := if sortConfig.Some? then sortConfig.value.defaultField else "";
      sortDirection := if sortConfig.Some? then sortConfig.value.defaultDirection else Asc;
    }

    /** `if (storageKey)`: the key is given and not empty. */
    predicate Persists() {
      storageKey.Some? && storageKey.value != ""
    }

    function FilteredItems(): seq<T>
      reads this
    {
      FilterItems(items, searchTerm, searchConfig, filterConfig, selectedFilters)
    }

    /** `sortedItems`: what the list displays, the filtered items in the chosen order. */
    function SortedItems(): seq<T>
      reads this
    {
      SortItems(FilteredItems(), sortField, sortDirection, sortConfig, columns)
    }

    predicate ActiveFilters()
      reads this
    {
      HasActiveFilters(searchTerm, selectedFilters)
    }

    ghost function BadgeTotal(): nat
      reads this
    {
      SelectionTotal(selectedFilters)
    }

    /** The mount effect: adopt a valid stored mode, otherwise keep the current one. */
    method RestoreViewMode(store: KeyValueStore)
      modifies this`viewMode
      ensures Persists() && ParseViewMode(store.GetItem(storageKey.value)).Some? ==>
                viewMode == ParseViewMode(store.GetItem(storageKey.value)).value
      ensures !(Persists() && ParseViewMode(store.GetItem(storageKey.value)).Some?) ==>
                viewMode == old(viewMode)
    {
      if Persists() {
        var saved := store.GetItem(storageKey.value);
        var parsed := ParseViewMode(saved);
        if parsed.Some? {
          viewMode := parsed.value;
        }
      }
    }

    /** `handleViewModeChange`: set the mode and write it under the storage key when there is one. */
    method HandleViewModeChange(mode: ViewMode, store: KeyValueStore)
      modifies this`viewMode, store
      ensures viewMode == mode
      ensures store.entries ==
        if Persists() then old(store.entries)[storageKey.value := ModeName(mode)] else old(store.entries)
    {
      viewMode := mode;
      if Persists() {
        store.SetItem(storageKey.value, ModeName(mode));
      }
    }

    /** The search bar's `onChange`. */
    method SetSearchTerm(term: string)
      modifies this`searchTerm
      ensures searchTerm == term
    {
      searchTerm := term;
    }

    method HandleSort(field: string)
      modifies this`sortField, this`sortDirection
      ensures SortState(sortField, sortDirection) == SortClick(SortState(old(sortField), old(sortDirection)), field)
      ensures old(sortField) != field ==> sortField == field && sortDirection == Asc
      ensures old(sortField) == field && old(sortDirection) == Asc ==> sortField == field && sortDirection == Desc
      ensures old(sortField) == field && old(sortDirection) == Desc ==> sortField == "" && sortDirection == Asc
    {
      if sortField == field {
        if sortDirection == Asc {
          sortDirection := Desc;
        } else {
          sortField := "";
          sortDirection := Asc;
        }
      } else {
        sortField := field;
        sortDirection := Asc;
      }
    }

    /** `handleFilterChange`: replace one facet's values, keep every other key's. */
    method HandleFilterChange(key: string, values: seq<string>)
      modifies this`selectedFilters
      ensures selectedFilters == old(selectedFilters)[key := values]
      ensures forall k :: k != key ==> SelectedFor(selectedFilters, k) == SelectedFor(old(selectedFilters), k)
      ensures BadgeTotal() == SelectionTotal(old(selectedFilters) - {key}) + |values|
    {
      selectedFilters := selectedFilters[key := values];
      SelectionTotalAfterChange(old(selectedFilters), key, values);
    }

    /** `clearAllFilters`: no search, no selection, so every item is shown and the badge is zero. */
    method ClearAllFilters()
      modifies this`searchTerm, this`selectedFilters
      ensures searchTerm == "" && selectedFilters == map[]
      ensures !ActiveFilters()
      ensures FilteredItems() == items
      ensures SortedItems() == SortItems(items, sortField, sortDirection, sortConfig, columns)
      ensures BadgeTotal() == 0
    {
      searchTerm := "";
      selectedFilters := map[];
      NothingSelectedKeepsAll(items, searchConfig, filterConfig);
      ActiveFiltersAndBadge(searchTerm, selectedFilters);
    }
  }

  /** Choosing a mode and mounting again with the same storage key brings the mode back. */
  method ReloadRestoresViewMode<T(!new)>(first: ListView<T>, second: ListView<T>, store: KeyValueStore, mode: ViewMode)
    requires first.Persists() && second.storageKey == first.storageKey
    requires first != second
    modifies first`viewMode, second`viewMode, store
    ensures second.viewMode == mode
  {
    first.HandleViewModeChange(mode, store);
    second.RestoreViewMode(store);
  }
}
