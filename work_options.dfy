/** The facet options of the Work page, gathered from the projects: categories with a
    readable caption, years newest first, clients in string order. */
module WorkOptions {
  import opened Options
  import opened Text
  import opened Sequences
  import opened Sorting
  import opened Sanity
  import opened DataView
  import opened Facets

  /** `value.charAt(0).toUpperCase() + value.slice(1).replace(/-/g, " ")`. */
  function CategoryLabel(value: string): (r: string)
    ensures |r| == |value|
    ensures |value| > 0 ==> r[0] == UpperChar(value[0])
    ensures forall i :: 1 <= i < |r| ==> r[i] == if value[i] == '-' then ' ' else value[i]
  {
    if value == [] then "" else [UpperChar(value[0])] + ReplaceChar(value[1..], '-', ' ')
  }

  /** The caption the page shows for the `web-design` category. */
  lemma WebDesignLabel(value: string)
    requires value == "web-design"
    ensures CategoryLabel(value) == "Web design"
  {
    var r := CategoryLabel(value);
    assert r[0] == UpperChar('w') == 'W';
    assert r[1] == 'e' && r[2] == 'b' && r[3] == ' ' && r[4] == 'd';
    assert r[5] == 'e' && r[6] == 's' && r[7] == 'i' && r[8] == 'g' && r[9] == 'n';
  }

  /** Some project has the category; `if (project.category)` skips a missing or empty one. */
  predicate HasCategory(projects: seq<Project>, v: string) {
    v != "" && exists i :: 0 <= i < |projects| && projects[i].category == Some(v)
  }

  function LabelledOptions(values: seq<string>): (r: seq<FilterOption>)
    ensures |r| == |values|
    ensures forall i :: 0 <= i < |r| ==> r[i] == FilterOption(values[i], CategoryLabel(values[i]))
  {
    if values == [] then [] else [FilterOption(values[0], CategoryLabel(values[0]))] + LabelledOptions(values[1..])
  }

  /** `extractUniqueCategories`. */
  method ExtractUniqueCategories(projects: seq<Project>) returns (options: seq<FilterOption>)
    ensures forall i, j :: 0 <= i < j < |options| ==> Less(options[i].value, options[j].value)
    ensures forall i :: 0 <= i < |options| ==> options[i].caption == CategoryLabel(options[i].value)
    ensures forall v :: v in Values(options) <==> HasCategory(projects, v)
  {
    var seen := [];
    for i := 0 to |projects|
      invariant Distinct(seen)
      invariant forall v :: v in seen <==> HasCategory(projects[..i], v)
    {
      var category := projects[i].category;
      if category.Some? && category.value != "" {
        seen := SetAdd(seen, category.value);
      }
      forall v ensures HasCategory(projects[..i + 1], v) <==>
                       HasCategory(projects[..i], v) || (v != "" && category == Some(v)) {
        if HasCategory(projects[..i + 1], v) {
          var j :| 0 <= j < i + 1 && projects[..i + 1][j].category == Some(v);
          if j < i {
            assert projects[..i][j] == projects[..i + 1][j];
          }
        }
        if HasCategory(projects[..i], v) {
          var j :| 0 <= j < i && projects[..i][j].category == Some(v);
          assert projects[..i + 1][j] == projects[..i][j];
        }
        if v != "" && category == Some(v) {
          assert projects[..i + 1][i] == projects[i];
        }
      }
    }
    assert projects[..|projects|] == projects;
    SortDistinctStrings(seen);
    var sorted := SortStrings(seen);
    options := LabelledOptions(sorted);
    assert Values(options) == sorted;
  }

  /** Some project was completed in the year. */
  predicate HasYear(projects: seq<Project>, y: int) {
    exists i :: 0 <= i < |projects| && projects[i].yearCompleted == y
  }

  /** The comparator `(a, b) => b - a`. */
  function NewestFirst(a: int, b: int): int {
    b - a
  }

  lemma NewestFirstIsTotalPreorder()
    ensures TotalPreorder(NewestFirst)
  {
  }

  /** `.map(value => ({ value: value.toString(), label: value.toString() }))`. */
  function YearOptions(years: seq<int>): (r: seq<FilterOption>)
    ensures |r| == |years|
    ensures forall i :: 0 <= i < |r| ==> r[i] == FilterOption(IntToString(years[i]), IntToString(years[i]))
  {
    if years == [] then [] else [FilterOption(IntToString(years[0]), IntToString(years[0]))] + YearOptions(years[1..])
  }

  /** `extractUniqueYears`: every completion year once, most recent first, written in decimal;
      `years` are the numbers behind the options. */
  method ExtractUniqueYears(projects: seq<Project>) returns (options: seq<FilterOption>, years: seq<int>)
    ensures forall i, j :: 0 <= i < j < |years| ==> years[i] > years[j]
    ensures forall y :: y in years <==> HasYear(projects, y)
    ensures options == YearOptions(years)
  {
    var seen := CollectYears(projects);
    years := StableSort(seen, NewestFirst);
    SortNewestFirst(seen, years);
    options := YearOptions(years);
  }

  lemma SortedNewestFirst(seen: seq<int>)
    ensures SortedBy(StableSort(seen, NewestFirst), NewestFirst)
  {
    NewestFirstIsTotalPreorder();
    StableSortSorted(seen, NewestFirst);
  }

  /** Sorting distinct years with `(a, b) => b - a` puts them in strictly decreasing order. */
  lemma SortNewestFirst(seen: seq<int>, years: seq<int>)
    requires Distinct(seen) && years == StableSort(seen, NewestFirst)
    ensures forall i, j :: 0 <= i < j < |years| ==> years[i] > years[j]
    ensures forall y :: y in years <==> y in seen
  {
    SortedNewestFirst(seen);
    DistinctPermutation(seen, years);
    StrictlyDecreasing(years);
    forall y ensures y in years <==> y in seen {
      assert y in years <==> y in multiset(years);
      assert y in seen <==> y in multiset(seen);
    }
  }

  lemma StrictlyDecreasing(years: seq<int>)
    requires Distinct(years) && SortedBy(years, NewestFirst)
    ensures forall i, j :: 0 <= i < j < |years| ==> years[i] > years[j]
  {
    forall i, j | 0 <= i < j < |years| ensures years[i] > years[j] {
      assert NewestFirst(years[i], years[j]) <= 0;
    }
  }

  /** The Set of years built by the `forEach`. */
  method CollectYears(projects: seq<Project>) returns (seen: seq<int>)
    ensures Distinct(seen)
    ensures forall y :: y in seen <==> HasYear(projects, y)
  {
    seen := [];
    for i := 0 to |projects|
      invariant Distinct(seen)
      invariant forall y :: y in seen <==> HasYear(projects[..i], y)
    {
      seen := SetAdd(seen, projects[i].yearCompleted);
      forall y ensures HasYear(projects[..i + 1], y) <==> HasYear(projects[..i], y) || y == projects[i].yearCompleted {
        if HasYear(projects[..i + 1], y) {
          var j :| 0 <= j < i + 1 && projects[..i + 1][j].yearCompleted == y;
          if j < i {
            assert projects[..i][j] == projects[..i + 1][j];
          }
        }
        if HasYear(projects[..i], y) {
          var j :| 0 <= j < i && projects[..i][j].yearCompleted == y;
          assert projects[..i + 1][j] == projects[..i][j];
        }
        if y == projects[i].yearCompleted {
          assert projects[..i + 1][i] == projects[i];
        }
      }
    }
    assert projects[..|projects|] == projects;
  }

  /** Each year option names exactly one year. */
  lemma YearOptionsDistinct(years: seq<int>, i: int, j: int)
    requires 0 <= i < j < |years| && Distinct(years)
    ensures YearOptions(years)[i].value != YearOptions(years)[j].value
  {
    if IntToString(years[i]) == IntToString(years[j]) {
      IntToStringInjective(years[i], years[j]);
    }
  }

  /** Some project has the client; unlike the category every value counts, the empty one too. */
  predicate HasClient(projects: seq<Project>, v: string) {
    exists i :: 0 <= i < |projects| && projects[i].client == v
  }

  /** `extractUniqueClients`. */
  method ExtractUniqueClients(projects: seq<Project>) returns (options: seq<FilterOption>)
    ensures WellOrdered(options)
    ensures forall v :: v in Values(options) <==> HasClient(projects, v)
  {
    var seen := [];
    for i := 0 to |projects|
      invariant Distinct(seen)
      invariant forall v :: v in seen <==> HasClient(projects[..i], v)
    {
      seen := SetAdd(seen, projects[i].client);
      forall v ensures HasClient(projects[..i + 1], v) <==> HasClient(projects[..i], v) || v == projects[i].client {
        if HasClient(projects[..i + 1], v) {
          var j :| 0 <= j < i + 1 && projects[..i + 1][j].client == v;
          if j < i {
            assert projects[..i][j] == projects[..i + 1][j];
          }
        }
        if HasClient(projects[..i], v) {
          var j :| 0 <= j < i && projects[..i][j].client == v;
          assert projects[..i + 1][j] == projects[..i][j];
        }
        if v == projects[i].client {
          assert projects[..i + 1][i] == projects[i];
        }
      }
    }
    assert projects[..|projects|] == projects;
    options := SortedOptions(seen);
  }
}
