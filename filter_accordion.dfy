/** One facet's section of the filter panel: checking and unchecking options, clearing the
    facet, the initial open state and what each option row shows. */
module FilterAccordion {
  import opened Options
  import opened Text
  import opened Sequences
  import opened DataView

  /** `selected.filter(v => v !== value)`. */
  function RemoveAll(selected: seq<string>, value: string): (r: seq<string>)
    ensures value !in r
    ensures forall w :: w != value ==> (w in r <==> w in selected)
    ensures IsSubsequence(r, selected)
    ensures value !in selected ==> r == selected
    ensures value in selected ==> |r| < |selected|
    ensures multiset(r) == multiset(selected)[value := 0]
  {
    if selected == [] then []
    else
      var rest := RemoveAll(selected[1..], value);
      assert selected == [selected[0]] + selected[1..];
      if selected[0] == value then rest
      else [selected[0]] + rest
  }

  /** `toggleFilter`: a selected value is removed everywhere, another is appended at the end. */
  function Toggle(selected: seq<string>, value: string): (r: seq<string>)
    ensures value in r <==> value !in selected
    ensures forall w :: w != value ==> (w in r <==> w in selected)
    ensures value !in selected ==> r == selected + [value]
    ensures value in selected ==> IsSubsequence(r, selected) && |r| < |selected|
    ensures value in selected ==> multiset(r) == multiset(selected)[value := 0]
  {
    if value in selected then RemoveAll(selected, value) else selected + [value]
  }

  /** Checking an unchecked option and unchecking it again gives back the same list. */
  lemma {:induction false} ToggleTwiceRestores(selected: seq<string>, value: string)
    requires value !in selected
    ensures Toggle(Toggle(selected, value), value) == selected
  {
    RemoveAppended(selected, value);
  }

  lemma {:induction false} RemoveAppended(s: seq<string>, value: string)
    requires value !in s
    ensures RemoveAll(s + [value], value) == s
  {
    if s != [] {
      assert (s + [value])[1..] == s[1..] + [value];
      RemoveAppended(s[1..], value);
      assert s == [s[0]] + s[1..];
    }
  }

  /** Toggling keeps a facet's values free of duplicates. */
  lemma {:induction false} ToggleKeepsDistinct(selected: seq<string>, value: string)
    requires Distinct(selected)
    ensures Distinct(Toggle(selected, value))
  {
    if value in selected {
      RemoveKeepsDistinct(selected, value);
    }
  }

  /** Removal keeps each remaining value's count, so no count exceeds one afterwards. */
  lemma RemoveKeepsDistinct(s: seq<string>, value: string)
    requires Distinct(s)
    ensures Distinct(RemoveAll(s, value))
  {
    DistinctMultiplicity(s);
    DistinctMultiplicity(RemoveAll(s, value));
  }

  /** `clearFilter`: the facet's new list is empty. */
  function ClearFilter(): seq<string> {
    []
  }

  /** Clearing one facet restores the items that only that facet excluded: the result is as if
      the facet had never been selected, everything else unchanged. */
  lemma ClearFilterRestores<T(!new)>(items: seq<T>, term: string, search: Option<SearchConfig<T>>,
                                     filters: seq<FilterConfig<T>>, sel: Selection, key: string)
    ensures FilterItems(items, term, search, filters, sel[key := ClearFilter()])
         == FilterItems(items, term, search, filters, sel - {key})
    ensures forall x :: x in FilterItems(items, term, search, filters, sel) ==>
              x in FilterItems(items, term, search, filters, sel[key := ClearFilter()])
  {
    EmptySelectionIsNoOp(items, term, search, filters, sel, key);
    forall x | x in FilterItems(items, term, search, filters, sel)
      ensures Keeps(x, term, search, filters, sel[key := []])
    {
      forall j | 0 <= j < |filters| && |SelectedFor(sel[key := []], filters[j].key)| > 0
        ensures filters[j].filterFn(x, SelectedFor(sel[key := []], filters[j].key))
      {
        assert SelectedFor(sel[key := []], filters[j].key) == SelectedFor(sel, filters[j].key);
      }
    }
  }

  /** The section starts open exactly when some value of the facet is selected. */
  function InitiallyOpen(selected: seq<string>): (open: bool)
    ensures open <==> exists v :: v in selected
  {
    assert |selected| > 0 ==> selected[0] in selected;
    |selected| > 0
  }

  /** The header: the facet's caption, followed by the number of selected values in
      parentheses when there are any. */
  function Title(caption: string, selected: seq<string>): (t: string)
    ensures t == caption <==> |selected| == 0
    ensures StartsWith(t, caption)
    ensures |selected| > 0 ==> t[|caption|..] == " (" + NatToString(|selected|) + ")"
  {
    if |selected| > 0 then
      var t := caption + " (" + NatToString(|selected|) + ")";
      assert t[..|caption|] == caption;
      t
    else caption
  }

  /** The section's Clear button is shown exactly when the facet has a selection. */
  predicate ShowsClear(selected: seq<string>) {
    |selected| > 0
  }

  /** The Clear button is shown exactly when the section starts open; clearing the facet hides
      it, checking an unchecked option shows it, and unchecking the only selected value hides it. */
  lemma ClearButtonShown(selected: seq<string>, value: string)
    ensures ShowsClear(selected) <==> InitiallyOpen(selected)
    ensures !ShowsClear(ClearFilter())
    ensures value !in selected ==> ShowsClear(Toggle(selected, value))
    ensures value in selected && (forall w :: w in selected ==> w == value) ==>
              !ShowsClear(Toggle(selected, value))
  {
    if value in selected && (forall w :: w in selected ==> w == value) {
      var r := Toggle(selected, value);
      forall w ensures multiset(r)[w] == 0 {
        if w != value {
          assert w !in selected;
        }
      }
      assert multiset(r) == multiset{};
    }
  }

  /** What one option row shows: its text, whether it is checked, and its count. */
  datatype OptionRow = OptionRow(text: string, checked: bool, count: int)

  function RowFor<T>(facet: FilterConfig<T>, selected: seq<string>, option: FilterOption, count: int): OptionRow {
    OptionRow(
      if facet.formatValue.Some? then facet.formatValue.value(option.value) else option.caption,
      option.value in selected,
      count)
  }

  /** Clicking an option's checkbox flips that row's check and no other row's. */
  lemma ToggleFlipsOnlyThatRow<T>(facet: FilterConfig<T>, selected: seq<string>, option: FilterOption,
                                  other: FilterOption, count: int)
    requires other.value != option.value
    ensures RowFor(facet, Toggle(selected, option.value), option, count).checked
        == !RowFor(facet, selected, option, count).checked
    ensures RowFor(facet, Toggle(selected, option.value), other, count)
         == RowFor(facet, selected, other, count)
  {
  }
}
