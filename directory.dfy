/**
 * The Directory page's configuration of the list engine: members searched by name, program
 * and specialty, five facets, three sortable columns and a default order by member number.
 * `localeCompare` is a parameter: its collation is not part of this model.
 */
module Directory {
  import opened Options
  import opened Text
  import opened Sorting
  import opened Sanity
  import opened TermCodes
  import opened DataView
  import opened DirectoryOptions
  import opened Facets
  import opened FilterAccordion

  function FullName(m: Member): string {
    m.firstName + " " + m.lastName
  }

  /** `value || ""` for an optional string. */
  function OrEmpty(v: Option<string>): string {
    v.GetOr("")
  }

  /** The page's `searchFn`: the lower-cased term occurs in the lower-cased full name, program
      or space-joined specialties. */
  predicate SearchMember(m: Member, term: string) {
    var q := Lower(term);
    Includes(Lower(FullName(m)), q) ||
    Includes(Lower(OrEmpty(m.program)), q) ||
    Includes(Lower(Join(m.specialties.GetOr([]), " ")), q)
  }

  /** The search does not depend on the case the term is typed in. */
  lemma SearchIgnoresCase(m: Member, term: string)
    ensures SearchMember(m, Upper(term)) == SearchMember(m, term)
    ensures SearchMember(m, Lower(term)) == SearchMember(m, term)
  {
    LowerOfUpper(term);
    LowerIdempotent(term);
  }

  /** A member is found by any piece of their name, whatever its case. */
  lemma SearchFindsName(m: Member, term: string, i: int)
    requires OccursAt(Lower(FullName(m)), Lower(term), i)
    ensures SearchMember(m, term)
  {
    IncludesAt(Lower(FullName(m)), Lower(term));
  }

  /** A member is found by any piece of their program, whatever its case. */
  lemma SearchFindsProgram(m: Member, term: string, i: int)
    requires OccursAt(Lower(OrEmpty(m.program)), Lower(term), i)
    ensures SearchMember(m, term)
  {
    IncludesAt(Lower(OrEmpty(m.program)), Lower(term));
  }

  /** A member is found by any piece of their specialties joined with spaces, whatever its case. */
  lemma SearchFindsSpecialty(m: Member, term: string, i: int)
    requires OccursAt(Lower(Join(m.specialties.GetOr([]), " ")), Lower(term), i)
    ensures SearchMember(m, term)
  {
    IncludesAt(Lower(Join(m.specialties.GetOr([]), " ")), Lower(term));
  }

  /** A member with no name, program or specialty text containing the term is not found. */
  lemma SearchMissesOthers(m: Member, term: string)
    requires forall i :: !OccursAt(Lower(FullName(m)), Lower(term), i)
    requires forall i :: !OccursAt(Lower(OrEmpty(m.program)), Lower(term), i)
    requires forall i :: !OccursAt(Lower(Join(m.specialties.GetOr([]), " ")), Lower(term), i)
    ensures !SearchMember(m, term)
  {
    IncludesAt(Lower(FullName(m)), Lower(term));
    IncludesAt(Lower(OrEmpty(m.program)), Lower(term));
    IncludesAt(Lower(Join(m.specialties.GetOr([]), " ")), Lower(term));
  }

  // ---------------------------------------------------------------- facets

  /** The single-valued facets: a missing value is compared as "". */
  predicate ClassFilter(m: Member, selected: seq<string>) {
    |selected| == 0 || OrEmpty(m.graduatingClass) in selected
  }

  predicate ProgramFilter(m: Member, selected: seq<string>) {
    |selected| == 0 || OrEmpty(m.program) in selected
  }

  predicate SchoolFilter(m: Member, selected: seq<string>) {
    |selected| == 0 || OrEmpty(m.school) in selected
  }

  /** The list facets: some selected value is in the member's list; a missing list matches nothing. */
  predicate SpecialtyFilter(m: Member, selected: seq<string>) {
    |selected| == 0 || (m.specialties.Some? && exists s :: s in selected && s in m.specialties.value)
  }

  predicate AvailabilityFilter(m: Member, selected: seq<string>) {
    |selected| == 0 || (m.workSchedule.Some? && exists a :: a in selected && a in m.workSchedule.value)
  }

  function DirectoryFilters(classes: seq<FilterOption>, programs: seq<FilterOption>, schools: seq<FilterOption>,
                            specialties: seq<FilterOption>, availability: seq<FilterOption>): seq<FilterConfig<Member>>
  {
    [FilterConfig("class", "Graduating Class", classes, ClassFilter, None, None),
     FilterConfig("program", "Program", programs, ProgramFilter, None, None),
     FilterConfig("school", "School", schools, SchoolFilter, None, None),
     FilterConfig("specialty", "Specialties", specialties, SpecialtyFilter, None, None),
     FilterConfig("availability", "Availability", availability, AvailabilityFilter, None, Some(DecodeTermCode))]
  }

  function DirectorySearch(): SearchConfig<Member> {
    SearchConfig("Search by name, program, or specialty...", SearchMember)
  }

  /** With only the class facet set, the directory shows exactly the members whose class is
      selected, in their original order. */
  lemma ClassFacetAlone(members: seq<Member>, classes: seq<FilterOption>, programs: seq<FilterOption>,
                        schools: seq<FilterOption>, specialties: seq<FilterOption>,
                        availability: seq<FilterOption>, selected: seq<string>)
    ensures var shown := FilterItems(members, "", Some(DirectorySearch()),
                                     DirectoryFilters(classes, programs, schools, specialties, availability),
                                     map["class" := selected]);
            forall m :: m in shown <==> m in members && (|selected| == 0 || OrEmpty(m.graduatingClass) in selected)
  {
    var filters := DirectoryFilters(classes, programs, schools, specialties, availability);
    var sel := map["class" := selected];
    forall m ensures Keeps(m, "", Some(DirectorySearch()), filters, sel) <==>
                     (|selected| == 0 || OrEmpty(m.graduatingClass) in selected) {
      assert SelectedFor(sel, filters[0].key) == selected;
      assert forall j :: 1 <= j < |filters| ==> SelectedFor(sel, filters[j].key) == [];
    }
  }

  /** Every directory facet lets every member through while nothing is selected in it. */
  lemma EmptySelectionAcceptsAll(m: Member, classes: seq<FilterOption>, programs: seq<FilterOption>,
                                 schools: seq<FilterOption>, specialties: seq<FilterOption>,
                                 availability: seq<FilterOption>)
    ensures var filters := DirectoryFilters(classes, programs, schools, specialties, availability);
            forall j :: 0 <= j < |filters| ==> filters[j].filterFn(m, [])
  {
  }

  /** A member without a specialty or schedule list fails any selection in that facet. */
  lemma MissingListFails(m: Member, selected: seq<string>)
    requires |selected| > 0
    ensures m.specialties.None? ==> !SpecialtyFilter(m, selected)
    ensures m.workSchedule.None? ==> !AvailabilityFilter(m, selected)
  {
  }

  /** The availability facet lists each term code under its decoded name; the other facets
      show their options' own captions. */
  lemma AvailabilityShowsTermNames(classes: seq<FilterOption>, programs: seq<FilterOption>,
                                   schools: seq<FilterOption>, specialties: seq<FilterOption>,
                                   availability: seq<FilterOption>, selected: seq<string>,
                                   option: FilterOption, count: int)
    ensures var filters := DirectoryFilters(classes, programs, schools, specialties, availability);
            RowFor(filters[4], selected, option, count).text == DecodeTermCode(option.value) &&
            forall j :: 0 <= j < 4 ==> RowFor(filters[j], selected, option, count).text == option.caption
  {
  }

  // ---------------------------------------------------------------- sorting

  /** `memberId ?? 999999`. */
  function MemberNumber(m: Member): int {
    m.memberId.GetOr(999999)
  }

  /** The `memberId` sort field. */
  function CompareMemberId(a: Member, b: Member): int {
    MemberNumber(a) - MemberNumber(b)
  }

  lemma MemberIdIsTotalPreorder()
    ensures TotalPreorder(CompareMemberId)
  {
  }

  function DirectorySortConfig(): SortConfig<Member> {
    SortConfig("memberId", Asc, map["memberId" := CompareMemberId])
  }

  function DirectoryColumns(localeCompare: (string, string) -> int): seq<ColumnConfig<Member>> {
    [ColumnConfig("name", "Name", true, Some((a: Member, b: Member) => localeCompare(FullName(a), FullName(b)))),
     ColumnConfig("program", "Program", true,
                  Some((a: Member, b: Member) => localeCompare(OrEmpty(a.program), OrEmpty(b.program)))),
     ColumnConfig("class", "Class", true,
                  Some((a: Member, b: Member) => localeCompare(OrEmpty(a.graduatingClass), OrEmpty(b.graduatingClass))))]
  }

  /** On first display the members are in ascending member number, members without a number
      after every numbered member below 999999, and members with equal numbers keep their order. */
  lemma DefaultOrder(members: seq<Member>, localeCompare: (string, string) -> int, y: Member)
    ensures var r := SortItems(members, "memberId", Asc, Some(DirectorySortConfig()), DirectoryColumns(localeCompare));
            (forall i, j :: 0 <= i < j < |r| ==> MemberNumber(r[i]) <= MemberNumber(r[j])) &&
            (forall i, j :: 0 <= i < j < |r| && r[i].memberId.None? ==> r[j].memberId.None? || r[j].memberId.value >= 999999) &&
            LevelWith(r, y, CompareMemberId) == LevelWith(members, y, CompareMemberId)
  {
    MemberIdIsTotalPreorder();
    SortAscending(members, "memberId", Some(DirectorySortConfig()), DirectoryColumns(localeCompare), CompareMemberId, y);
  }

  /** Sorting by a column header uses the column's `localeCompare` order, because the sort
      config's own table has only `memberId`. */
  lemma NameColumnOrder(members: seq<Member>, localeCompare: (string, string) -> int)
    requires TotalPreorder(localeCompare)
    ensures var r := SortItems(members, "name", Asc, Some(DirectorySortConfig()), DirectoryColumns(localeCompare));
            forall i, j :: 0 <= i < j < |r| ==> localeCompare(FullName(r[i]), FullName(r[j])) <= 0
  {
    var columns := DirectoryColumns(localeCompare);
    assert FindColumn(columns, "name") == Some(0);
    var cmp := columns[0].sortFn.value;
    assert TotalPreorder(cmp) by {
      forall a, b ensures cmp(a, b) <= 0 || cmp(b, a) <= 0 {
        assert cmp(a, b) == localeCompare(FullName(a), FullName(b));
      }
      forall a, b, c | cmp(a, b) <= 0 && cmp(b, c) <= 0 ensures cmp(a, c) <= 0 {
        assert cmp(a, b) == localeCompare(FullName(a), FullName(b));
        assert cmp(b, c) == localeCompare(FullName(b), FullName(c));
        assert cmp(a, c) == localeCompare(FullName(a), FullName(c));
      }
    }
    StableSortSorted(members, cmp);
  }

  /** The five option lists the page gathers from the members at date `now`: each in ascending
      order and holding exactly the values the members have. */
  ghost predicate GatheredOptions(members: seq<Member>, now: Date, classes: seq<FilterOption>,
                            programs: seq<FilterOption>, schools: seq<FilterOption>,
                            specialties: seq<FilterOption>, availability: seq<FilterOption>) {
    WellOrdered(classes) && WellOrdered(programs) && WellOrdered(schools) &&
    WellOrdered(specialties) && WellOrdered(availability) &&
    (forall v :: v in Values(classes) <==>
       v != "" && exists i :: 0 <= i < |members| && members[i].graduatingClass == Some(v)) &&
    (forall v :: v in Values(programs) <==>
       v != "" && exists i :: 0 <= i < |members| && members[i].program == Some(v)) &&
    (forall v :: v in Values(schools) <==>
       v != "" && exists i :: 0 <= i < |members| && members[i].school == Some(v)) &&
    (forall v :: v in Values(specialties) <==> HasSpecialty(members, v)) &&
    (forall v :: v in Values(availability) <==> HasUpcomingTerm(members, v, now))
  }

  /** Mounting the Directory page: the options are gathered from the members at date `now`. */
  method DirectoryView(members: seq<Member>, now: Date, localeCompare: (string, string) -> int)
    returns (view: ListView<Member>)
    ensures fresh(view)
    ensures view.items == members && view.columns == DirectoryColumns(localeCompare)
    ensures view.searchConfig == Some(DirectorySearch())
    ensures |view.filterConfig| == 5
    ensures forall v :: v in Values(view.filterConfig[4].options) <==> HasUpcomingTerm(members, v, now)
    ensures exists c, p, s, sp, a :: view.filterConfig == DirectoryFilters(c, p, s, sp, a) &&
              GatheredOptions(members, now, c, p, s, sp, a)
    ensures view.sortConfig == Some(DirectorySortConfig())
    ensures view.sortField == "memberId" && view.sortDirection == Asc
    ensures view.viewMode == Grid && view.viewModeConfig.showToggle
    ensures view.Persists() && view.storageKey == Some("directoryViewMode")
  {
    var classes := ExtractUniqueClasses(members);
    var programs := ExtractUniquePrograms(members);
    var schools := ExtractUniqueSchools(members);
    var specialties := ExtractUniqueSpecialties(members);
    var availability := ExtractAvailabilityTerms(members, now);
    view := new ListView(members, Some(DirectorySearch()),
                         DirectoryFilters(classes, programs, schools, specialties, availability),
                         Some(DirectorySortConfig()), DirectoryColumns(localeCompare),
                         Some(ViewModeConfig(Grid, true)), Some("directoryViewMode"));
    assert GatheredOptions(members, now, classes, programs, schools, specialties, availability);
  }
}
