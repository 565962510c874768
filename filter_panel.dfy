/**
 * The filter panel's per-option counts: how many items would be shown if this option alone
 * were selected for its facet, with the search term and every other facet's selection kept.
 */
module FilterPanel {
  import opened Options
  import opened DataView

  /** `filters.findIndex(f => f.key === key)`, as an optional index. The same search as
      `DataView.FindColumn`, but over facets: the two record types share no common type to
      read a `key` field through, so each list has its own lookup. */
  function FindFilter<T>(filters: seq<FilterConfig<T>>, key: string): (r: Option<nat>)
    ensures r.None? <==> forall j :: 0 <= j < |filters| ==> filters[j].key != key
    ensures r.Some? ==> r.value < |filters| && filters[r.value].key == key
                        && forall j :: 0 <= j < r.value ==> filters[j].key != key
  {
    if filters == [] then None
    else if filters[0].key == key then Some(0)
    else
      match FindFilter(filters[1..], key)
      case None => None
      case Some(j) => Some(j + 1)
  }

  /** Every selection entry other than this facet's, when non-empty, is accepted by the first
      facet with that key; entries no facet has are skipped. */
  predicate OtherFiltersPass<T>(item: T, facet: FilterConfig<T>, filters: seq<FilterConfig<T>>, sel: Selection) {
    forall k :: k in sel && k != facet.key && |sel[k]| > 0 ==>
      match FindFilter(filters, k)
      case None => true
      case Some(j) => filters[j].filterFn(item, sel[k])
  }

  predicate CountsItem<T>(item: T, facet: FilterConfig<T>, option: string, filters: seq<FilterConfig<T>>,
                          term: string, search: Option<SearchConfig<T>>, sel: Selection) {
    && MatchesSearch(item, term, search)
    && OtherFiltersPass(item, facet, filters, sel)
    && facet.filterFn(item, [option])
  }

  /** The default count: items passing search, the other facets, and this facet set to [option]. */
  function CountMatching<T>(items: seq<T>, facet: FilterConfig<T>, option: string, filters: seq<FilterConfig<T>>,
                            term: string, search: Option<SearchConfig<T>>, sel: Selection): (n: nat)
    ensures n <= |items|
    ensures n == 0 <==> forall i :: 0 <= i < |items| ==> !CountsItem(items[i], facet, option, filters, term, search, sel)
  {
    if items == [] then 0
    else
      var rest := CountMatching(items[1..], facet, option, filters, term, search, sel);
      assert forall i :: 1 <= i < |items| ==> items[i] == items[1..][i - 1];
      (if CountsItem(items[0], facet, option, filters, term, search, sel) then 1 else 0) + rest
  }

  /** `getFilterCount`: the facet's own `getCount` when it has one, else the default count. */
  function FilterCount<T>(facet: FilterConfig<T>, option: string, filters: seq<FilterConfig<T>>, items: seq<T>,
                          term: string, search: Option<SearchConfig<T>>, sel: Selection): (n: int)
    ensures facet.getCount.Some? ==> n == facet.getCount.value(option, items, term, sel)
    ensures facet.getCount.None? ==> 0 <= n <= |items|
  {
    if facet.getCount.Some? then facet.getCount.value(option, items, term, sel)
    else CountMatching(items, facet, option, filters, term, search, sel)
  }

  lemma {:induction false} CountCongruent<T>(items: seq<T>, facet: FilterConfig<T>, option: string,
      filters: seq<FilterConfig<T>>, term1: string, search1: Option<SearchConfig<T>>, sel1: Selection,
      term2: string, search2: Option<SearchConfig<T>>, sel2: Selection)
    requires forall i :: 0 <= i < |items| ==>
      (CountsItem(items[i], facet, option, filters, term1, search1, sel1) <==>
       CountsItem(items[i], facet, option, filters, term2, search2, sel2))
    ensures CountMatching(items, facet, option, filters, term1, search1, sel1)
         == CountMatching(items, facet, option, filters, term2, search2, sel2)
  {
    if items != [] {
      assert forall i :: 1 <= i < |items| ==> items[i] == items[1..][i - 1];
      CountCongruent(items[1..], facet, option, filters, term1, search1, sel1, term2, search2, sel2);
    }
  }

  /** The count of an option does not depend on what is currently selected in its own facet. */
  lemma CountIgnoresOwnSelection<T>(facet: FilterConfig<T>, option: string, filters: seq<FilterConfig<T>>,
                                    items: seq<T>, term: string, search: Option<SearchConfig<T>>,
                                    sel: Selection, values: seq<string>)
    requires facet.getCount.None?
    ensures FilterCount(facet, option, filters, items, term, search, sel[facet.key := values])
         == FilterCount(facet, option, filters, items, term, search, sel - {facet.key})
  {
    var sel1 := sel[facet.key := values];
    var sel2 := sel - {facet.key};
    forall i | 0 <= i < |items|
      ensures CountsItem(items[i], facet, option, filters, term, search, sel1)
          <==> CountsItem(items[i], facet, option, filters, term, search, sel2)
    {
      assert forall k :: k != facet.key ==> (k in sel1 <==> k in sel2);
      assert forall k :: k in sel2 ==> sel1[k] == sel2[k];
    }
    CountCongruent(items, facet, option, filters, term, search, sel1, term, search, sel2);
  }

  /** A selection under a key no facet has is skipped, not treated as excluding items. */
  lemma CountIgnoresUnknownKeys<T>(facet: FilterConfig<T>, option: string, filters: seq<FilterConfig<T>>,
                                   items: seq<T>, term: string, search: Option<SearchConfig<T>>,
                                   sel: Selection, key: string, values: seq<string>)
    requires facet.getCount.None?
    requires forall j :: 0 <= j < |filters| ==> filters[j].key != key
    ensures FilterCount(facet, option, filters, items, term, search, sel[key := values])
         == FilterCount(facet, option, filters, items, term, search, sel - {key})
  {
    var sel1 := sel[key := values];
    var sel2 := sel - {key};
    forall i | 0 <= i < |items|
      ensures CountsItem(items[i], facet, option, filters, term, search, sel1)
          <==> CountsItem(items[i], facet, option, filters, term, search, sel2)
    {
      assert FindFilter(filters, key).None?;
      assert forall k :: k != key ==> (k in sel1 <==> k in sel2);
      assert forall k :: k in sel2 ==> sel1[k] == sel2[k];
    }
    CountCongruent(items, facet, option, filters, term, search, sel1, term, search, sel2);
  }

  /** Without a search configuration a search term does not narrow the counts. */
  lemma CountWithoutSearchConfig<T>(facet: FilterConfig<T>, option: string, filters: seq<FilterConfig<T>>,
                                    items: seq<T>, term: string, sel: Selection)
    requires facet.getCount.None?
    ensures FilterCount(facet, option, filters, items, term, None, sel)
         == FilterCount(facet, option, filters, items, "", None, sel)
  {
    CountCongruent(items, facet, option, filters, term, None, sel, "", None, sel);
  }

  predicate DistinctKeys<T>(filters: seq<FilterConfig<T>>) {
    forall i, j :: 0 <= i < j < |filters| ==> filters[i].key != filters[j].key
  }

  lemma {:induction false} CountIsFilteredLength<T(!new)>(items: seq<T>, term: string, search: Option<SearchConfig<T>>,
      filters: seq<FilterConfig<T>>, sel: Selection, fi: nat, option: string)
    requires fi < |filters| && DistinctKeys(filters)
    requires forall i :: 0 <= i < |items| ==>
      (CountsItem(items[i], filters[fi], option, filters, term, search, sel) <==>
       Keeps(items[i], term, search, filters, sel[filters[fi].key := [option]]))
    ensures CountMatching(items, filters[fi], option, filters, term, search, sel)
         == |FilterItems(items, term, search, filters, sel[filters[fi].key := [option]])|
  {
    if items != [] {
      assert forall i :: 1 <= i < |items| ==> items[i] == items[1..][i - 1];
      CountIsFilteredLength(items[1..], term, search, filters, sel, fi, option);
    }
  }

  /**
   * The meaning of a count: with distinct facet keys and no `getCount`, the count of option v
   * in facet F is the number of items the list would show with F's selection replaced by [v].
   */
  lemma CountIsFilteredWithOverride<T(!new)>(items: seq<T>, term: string, search: Option<SearchConfig<T>>,
                                             filters: seq<FilterConfig<T>>, sel: Selection, fi: nat, option: string)
    requires fi < |filters| && DistinctKeys(filters) && filters[fi].getCount.None?
    ensures FilterCount(filters[fi], option, filters, items, term, search, sel)
         == |FilterItems(items, term, search, filters, sel[filters[fi].key := [option]])|
  {
    var facet := filters[fi];
    var sel' := sel[facet.key := [option]];
    forall i | 0 <= i < |items|
      ensures CountsItem(items[i], facet, option, filters, term, search, sel)
          <==> Keeps(items[i], term, search, filters, sel')
    {
      var x := items[i];
      if CountsItem(x, facet, option, filters, term, search, sel) {
        forall j | 0 <= j < |filters| && |SelectedFor(sel', filters[j].key)| > 0
          ensures filters[j].filterFn(x, SelectedFor(sel', filters[j].key))
        {
          if j != fi {
            var k := filters[j].key;
            assert k != facet.key;
            assert FindFilter(filters, k) == Some(j);
          }
        }
      }
      if Keeps(x, term, search, filters, sel') {
        assert SelectedFor(sel', filters[fi].key) == [option];
        forall k | k in sel && k != facet.key && |sel[k]| > 0
          ensures match FindFilter(filters, k)
                  case None => true
                  case Some(j) => filters[j].filterFn(x, sel[k])
        {
          match FindFilter(filters, k)
          case None =>
          case Some(j) =>
            assert SelectedFor(sel', filters[j].key) == sel[k];
        }
      }
    }
    CountIsFilteredLength(items, term, search, filters, sel, fi, option);
  }

  /** The "Clear all filters" button: `Object.values(selectedFilters).some(v => v.length > 0)`. */
  predicate ShowsClearAll(term: string, sel: Selection) {
    term != "" || exists vals :: vals in sel.Values && |vals| > 0
  }

  /** The panel shows "clear all" under the same condition as the list shows its result count. */
  lemma ClearAllShownIffActive(term: string, sel: Selection)
    ensures ShowsClearAll(term, sel) <==> HasActiveFilters(term, sel)
  {
    if exists vals :: vals in sel.Values && |vals| > 0 {
      var vals :| vals in sel.Values && |vals| > 0;
      var k :| k in sel && sel[k] == vals;
    }
    if exists k :: k in sel && |sel[k]| > 0 {
      var k :| k in sel && |sel[k]| > 0;
      assert sel[k] in sel.Values;
    }
  }
}
