/**
 * The Work page's configuration of the list engine: projects searched by title and client,
 * three facets, three sortable columns and a default order by completion year, newest first.
 * `localeCompare` is a parameter: its collation is not part of this model.
 */
module Work {
  import opened Options
  import opened Text
  import opened Sorting
  import opened Sequences
  import opened Sanity
  import opened DataView
  import opened Facets
  import opened WorkOptions

  /** The page's `searchFn`: the lower-cased term occurs in the lower-cased title or client. */
  predicate SearchProject(p: Project, term: string) {
    Includes(Lower(p.title), Lower(term)) || Includes(Lower(p.client), Lower(term))
  }

  /** The search does not depend on the case the term is typed in. */
  lemma SearchIgnoresCase(p: Project, term: string)
    ensures SearchProject(p, Upper(term)) == SearchProject(p, term)
    ensures SearchProject(p, Lower(term)) == SearchProject(p, term)
  {
    LowerOfUpper(term);
    LowerIdempotent(term);
  }

  /** A project is found by any piece of its title or client, whatever its case. */
  lemma SearchFindsTitleOrClient(p: Project, term: string, i: int)
    requires OccursAt(Lower(p.title), Lower(term), i) || OccursAt(Lower(p.client), Lower(term), i)
    ensures SearchProject(p, term)
  {
    IncludesAt(Lower(p.title), Lower(term));
    IncludesAt(Lower(p.client), Lower(term));
  }

  /** A project whose title and client both lack the term is not found. */
  lemma SearchMissesOthers(p: Project, term: string)
    requires forall i :: !OccursAt(Lower(p.title), Lower(term), i)
    requires forall i :: !OccursAt(Lower(p.client), Lower(term), i)
    ensures !SearchProject(p, term)
  {
    IncludesAt(Lower(p.title), Lower(term));
    IncludesAt(Lower(p.client), Lower(term));
  }

  // ---------------------------------------------------------------- facets

  predicate CategoryFilter(p: Project, selected: seq<string>) {
    |selected| == 0 || p.category.GetOr("") in selected
  }

  /** The year facet compares the year written in decimal. */
  predicate YearFilter(p: Project, selected: seq<string>) {
    |selected| == 0 || IntToString(p.yearCompleted) in selected
  }

  predicate ClientFilter(p: Project, selected: seq<string>) {
    |selected| == 0 || p.client in selected
  }

  function WorkFilters(categories: seq<FilterOption>, years: seq<FilterOption>, clients: seq<FilterOption>)
    : seq<FilterConfig<Project>>
  {
    [FilterConfig("category", "Category", categories, CategoryFilter, None, None),
     FilterConfig("year", "Year", years, YearFilter, None, None),
     FilterConfig("client", "Client", clients, ClientFilter, None, None)]
  }

  function WorkSearch(): SearchConfig<Project> {
    SearchConfig("Search projects by title or client...", SearchProject)
  }

  /** Ticking one year's option alone shows exactly the projects completed that year. */
  lemma YearFacetAlone(projects: seq<Project>, categories: seq<FilterOption>, years: seq<FilterOption>,
                       clients: seq<FilterOption>, year: int)
    ensures var shown := FilterItems(projects, "", Some(WorkSearch()), WorkFilters(categories, years, clients),
                                     map["year" := [IntToString(year)]]);
            forall p :: p in shown <==> p in projects && p.yearCompleted == year
  {
    var filters := WorkFilters(categories, years, clients);
    var sel := map["year" := [IntToString(year)]];
    forall p ensures Keeps(p, "", Some(WorkSearch()), filters, sel) <==> p.yearCompleted == year {
      assert SelectedFor(sel, filters[1].key) == [IntToString(year)];
      assert SelectedFor(sel, filters[0].key) == [] && SelectedFor(sel, filters[2].key) == [];
      if IntToString(p.yearCompleted) == IntToString(year) {
        IntToStringInjective(p.yearCompleted, year);
      }
    }
  }

  // ---------------------------------------------------------------- sorting

  /** The year column's `sortFn`. */
  function CompareYear(a: Project, b: Project): int {
    a.yearCompleted - b.yearCompleted
  }

  lemma CompareYearIsTotalPreorder()
    ensures TotalPreorder(CompareYear)
  {
  }

  /** The sort config has no table of its own: every field is looked up among the columns. */
  function WorkSortConfig(): SortConfig<Project> {
    SortConfig("year", Desc, map[])
  }

  function WorkColumns(localeCompare: (string, string) -> int): seq<ColumnConfig<Project>> {
    [ColumnConfig("title", "Title", true, Some((a: Project, b: Project) => localeCompare(a.title, b.title))),
     ColumnConfig("client", "Client", true, Some((a: Project, b: Project) => localeCompare(a.client, b.client))),
     ColumnConfig("year", "Year", true, Some(CompareYear))]
  }

  /** On first display the projects run from the most recent year to the oldest, and
      projects of one year appear in the reverse of their original order. */
  lemma DefaultOrderNewestFirst(projects: seq<Project>, localeCompare: (string, string) -> int)
    ensures var r := SortItems(projects, "year", Desc, Some(WorkSortConfig()), WorkColumns(localeCompare));
            multiset(r) == multiset(projects) &&
            (forall i, j :: 0 <= i < j < |r| ==> r[i].yearCompleted >= r[j].yearCompleted) &&
            r == Reverse(SortItems(projects, "year", Asc, Some(WorkSortConfig()), WorkColumns(localeCompare)))
  {
    var columns := WorkColumns(localeCompare);
    assert columns[0].key != "year" && columns[1].key != "year" by {
      assert columns[0].key[0] == 't' && columns[1].key[0] == 'c';
    }
    assert columns[2].key == "year";
    var found := FindColumn(columns, "year");
    assert found.Some?;
    assert found.value < 3;
    assert found == Some(2);
    CompareYearIsTotalPreorder();
    SortDescendingIsReverse(projects, "year", Some(WorkSortConfig()), columns, CompareYear);
    var r := SortItems(projects, "year", Desc, Some(WorkSortConfig()), columns);
    forall i, j | 0 <= i < j < |r| ensures r[i].yearCompleted >= r[j].yearCompleted {
      assert CompareYear(r[j], r[i]) <= 0;
    }
  }

  /** The year options name exactly the years some project was completed in. */
  lemma YearOptionsNameProjectYears(projects: seq<Project>, years: seq<FilterOption>, numbers: seq<int>)
    requires forall y :: y in numbers <==> HasYear(projects, y)
    requires years == YearOptions(numbers)
    ensures forall y :: y in Values(years) <==> exists p :: p in projects && IntToString(p.yearCompleted) == y
  {
    forall y ensures y in Values(years) <==> exists p :: p in projects && IntToString(p.yearCompleted) == y {
      if y in Values(years) {
        var k :| 0 <= k < |years| && years[k].value == y;
        assert HasYear(projects, numbers[k]);
      }
      if exists p :: p in projects && IntToString(p.yearCompleted) == y {
        var p :| p in projects && IntToString(p.yearCompleted) == y;
        assert HasYear(projects, p.yearCompleted);
        var k :| 0 <= k < |numbers| && numbers[k] == p.yearCompleted;
        assert Values(years)[k] == y;
      }
    }
  }

  /** The three option lists the page gathers from the projects: categories ascending with
      their labels, years newest first, clients ascending, each holding exactly the projects'
      values. */
  ghost predicate GatheredOptions(projects: seq<Project>, categories: seq<FilterOption>,
                            years: seq<FilterOption>, clients: seq<FilterOption>) {
    (forall i, j :: 0 <= i < j < |categories| ==> Less(categories[i].value, categories[j].value)) &&
    (forall i :: 0 <= i < |categories| ==> categories[i].caption == CategoryLabel(categories[i].value)) &&
    (forall v :: v in Values(categories) <==> HasCategory(projects, v)) &&
    (exists numbers :: years == YearOptions(numbers) &&
       (forall i, j :: 0 <= i < j < |numbers| ==> numbers[i] > numbers[j]) &&
       (forall y :: y in numbers <==> HasYear(projects, y))) &&
    WellOrdered(clients) &&
    (forall v :: v in Values(clients) <==> HasClient(projects, v))
  }

  /** Mounting the Work page. */
  method WorkView(projects: seq<Project>, localeCompare: (string, string) -> int) returns (view: ListView<Project>)
    ensures fresh(view)
    ensures view.items == projects && view.columns == WorkColumns(localeCompare)
    ensures view.searchConfig == Some(WorkSearch())
    ensures |view.filterConfig| == 3
    ensures forall y :: y in Values(view.filterConfig[1].options) <==> exists p :: p in projects && IntToString(p.yearCompleted) == y
    ensures exists c, y, cl :: view.filterConfig == WorkFilters(c, y, cl) && GatheredOptions(projects, c, y, cl)
    ensures view.sortConfig == Some(WorkSortConfig())
    ensures view.sortField == "year" && view.sortDirection == Desc
    ensures view.viewMode == Grid && view.viewModeConfig.showToggle
    ensures view.Persists() && view.storageKey == Some("workViewMode")
  {
    var categories := ExtractUniqueCategories(projects);
    var years, numbers := ExtractUniqueYears(projects);
    var clients := ExtractUniqueClients(projects);
    YearOptionsNameProjectYears(projects, years, numbers);
    view := new ListView(projects, Some(WorkSearch()), WorkFilters(categories, years, clients),
                         Some(WorkSortConfig()), WorkColumns(localeCompare),
                         Some(ViewModeConfig(Grid, true)), Some("workViewMode"));
    assert GatheredOptions(projects, categories, years, clients);
  }
}
