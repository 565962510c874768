/** What the option extractors of both list pages share: collecting a Set in insertion order
    and turning it into sorted filter options. */
module Facets {
  import opened Text
  import opened Sequences
  import opened Sorting
  import opened DataView

  /** `.map(value => ({ value, label: value }))`. */
  function ToOptions(values: seq<string>): (r: seq<FilterOption>)
    ensures |r| == |values|
    ensures forall i :: 0 <= i < |r| ==> r[i] == FilterOption(values[i], values[i])
  {
    if values == [] then [] else [FilterOption(values[0], values[0])] + ToOptions(values[1..])
  }

  function Values(options: seq<FilterOption>): (r: seq<string>)
    ensures |r| == |options|
    ensures forall i :: 0 <= i < |r| ==> r[i] == options[i].value
  {
    if options == [] then [] else [options[0].value] + Values(options[1..])
  }

  /** The options every extractor returns: strictly ascending, each shown under its value. */
  predicate WellOrdered(options: seq<FilterOption>) {
    (forall i, j :: 0 <= i < j < |options| ==> Less(options[i].value, options[j].value)) &&
    (forall i :: 0 <= i < |options| ==> options[i].caption == options[i].value)
  }

  /** `Array.from(set).sort().map(...)` on a Set without duplicates. */
  function SortedOptions(seen: seq<string>): (r: seq<FilterOption>)
    requires Distinct(seen)
    ensures WellOrdered(r)
    ensures forall v :: v in Values(r) <==> v in seen
  {
    SortDistinctStrings(seen);
    var sorted := SortStrings(seen);
    var r := ToOptions(sorted);
    assert Values(r) == sorted;
    r
  }
}
