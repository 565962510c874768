/** The facet options of the Directory page, gathered from the members: each distinct value
    once, in string order, shown under its own name. */
module DirectoryOptions {
  import opened Options
  import opened Text
  import opened Sequences
  import opened Sorting
  import opened Sanity
  import opened TermCodes
  import opened DataView
  import opened Facets

  /** The single-valued member fields that have a facet. */
  datatype MemberField = ClassField | ProgramField | SchoolField

  function FieldOf(m: Member, f: MemberField): Option<string> {
    match f
    case ClassField => m.graduatingClass
    case ProgramField => m.program
    case SchoolField => m.school
  }

  /** Some member has the value in the field; `if (member.graduatingClass)` skips a missing or
      empty value. */
  predicate HasValue(members: seq<Member>, f: MemberField, v: string) {
    v != "" && exists i :: 0 <= i < |members| && FieldOf(members[i], f) == Some(v)
  }

  /** The Set built by the `forEach` over the members, for one field. */
  method CollectField(members: seq<Member>, f: MemberField) returns (seen: seq<string>)
    ensures Distinct(seen)
    ensures forall v :: v in seen <==> HasValue(members, f, v)
  {
    seen := [];
    for i := 0 to |members|
      invariant Distinct(seen)
      invariant forall v :: v in seen <==> HasValue(members[..i], f, v)
    {
      var value := FieldOf(members[i], f);
      if value.Some? && value.value != "" {
        seen := SetAdd(seen, value.value);
      }
      assert forall v :: HasValue(members[..i + 1], f, v) <==>
                         HasValue(members[..i], f, v) || (v != "" && value == Some(v)) by {
        forall v ensures HasValue(members[..i + 1], f, v) <==>
                         HasValue(members[..i], f, v) || (v != "" && value == Some(v)) {
          if HasValue(members[..i + 1], f, v) {
            var j :| 0 <= j < i + 1 && FieldOf(members[..i + 1][j], f) == Some(v);
            if j < i {
              assert members[..i][j] == members[..i + 1][j];
            }
          }
          if HasValue(members[..i], f, v) {
            var j :| 0 <= j < i && FieldOf(members[..i][j], f) == Some(v);
            assert members[..i + 1][j] == members[..i][j];
          }
          if v != "" && value == Some(v) {
            assert members[..i + 1][i] == members[i];
          }
        }
      }
    }
    assert members[..|members|] == members;
  }

  method ExtractUniqueField(members: seq<Member>, f: MemberField) returns (options: seq<FilterOption>)
    ensures WellOrdered(options)
    ensures forall v :: v in Values(options) <==> HasValue(members, f, v)
  {
    var seen := CollectField(members, f);
    options := SortedOptions(seen);
  }

  /** `extractUniqueClasses`. */
  method ExtractUniqueClasses(members: seq<Member>) returns (options: seq<FilterOption>)
    ensures WellOrdered(options)
    ensures forall v :: v in Values(options) <==>
              v != "" && exists i :: 0 <= i < |members| && members[i].graduatingClass == Some(v)
  {
    options := ExtractUniqueField(members, ClassField);
  }

  /** `extractUniquePrograms`. */
  method ExtractUniquePrograms(members: seq<Member>) returns (options: seq<FilterOption>)
    ensures WellOrdered(options)
    ensures forall v :: v in Values(options) <==>
              v != "" && exists i :: 0 <= i < |members| && members[i].program == Some(v)
  {
    options := ExtractUniqueField(members, ProgramField);
  }

  /** `extractUniqueSchools`. */
  method ExtractUniqueSchools(members: seq<Member>) returns (options: seq<FilterOption>)
    ensures WellOrdered(options)
    ensures forall v :: v in Values(options) <==>
              v != "" && exists i :: 0 <= i < |members| && members[i].school == Some(v)
  {
    options := ExtractUniqueField(members, SchoolField);
  }

  /** Some member lists the specialty; unlike the single-valued fields an empty entry counts. */
  predicate HasSpecialty(members: seq<Member>, v: string) {
    exists i :: 0 <= i < |members| && members[i].specialties.Some? && v in members[i].specialties.value
  }

  /** Some member's work schedule holds the code and the code is not a past term. */
  predicate HasUpcomingTerm(members: seq<Member>, v: string, now: Date) {
    !IsTermPast(v, now) &&
    exists i :: 0 <= i < |members| && members[i].workSchedule.Some? && v in members[i].workSchedule.value
  }

  /** Adds every value of `list` to the Set. */
  method AddAll(seen: seq<string>, list: seq<string>) returns (r: seq<string>)
    requires Distinct(seen)
    ensures Distinct(r)
    ensures forall v :: v in r <==> v in seen || v in list
  {
    r := seen;
    for k := 0 to |list|
      invariant Distinct(r)
      invariant forall v :: v in r <==> v in seen || v in list[..k]
    {
      r := SetAdd(r, list[k]);
      assert list[..k + 1] == list[..k] + [list[k]];
    }
    assert list[..|list|] == list;
  }

  /** `extractUniqueSpecialties`. */
  method ExtractUniqueSpecialties(members: seq<Member>) returns (options: seq<FilterOption>)
    ensures WellOrdered(options)
    ensures forall v :: v in Values(options) <==> HasSpecialty(members, v)
  {
    var seen := [];
    for i := 0 to |members|
      invariant Distinct(seen)
      invariant forall v :: v in seen <==> HasSpecialty(members[..i], v)
    {
      if members[i].specialties.Some? {
        seen := AddAll(seen, members[i].specialties.value);
      }
      forall v ensures HasSpecialty(members[..i + 1], v) <==>
                       HasSpecialty(members[..i], v) || (members[i].specialties.Some? && v in members[i].specialties.value) {
        if HasSpecialty(members[..i + 1], v) {
          var j :| 0 <= j < i + 1 && members[..i + 1][j].specialties.Some? && v in members[..i + 1][j].specialties.value;
          if j < i {
            assert members[..i][j] == members[..i + 1][j];
          }
        }
        if HasSpecialty(members[..i], v) {
          var j :| 0 <= j < i && members[..i][j].specialties.Some? && v in members[..i][j].specialties.value;
          assert members[..i + 1][j] == members[..i][j];
        }
        if members[i].specialties.Some? && v in members[i].specialties.value {
          assert members[..i + 1][i] == members[i];
        }
      }
    }
    assert members[..|members|] == members;
    options := SortedOptions(seen);
  }

  /** `extractAvailabilityTerms`: the work-schedule codes that are not past, at date `now`. */
  method ExtractAvailabilityTerms(members: seq<Member>, now: Date) returns (options: seq<FilterOption>)
    ensures WellOrdered(options)
    ensures forall v :: v in Values(options) <==> HasUpcomingTerm(members, v, now)
  {
    var seen := [];
    for i := 0 to |members|
      invariant Distinct(seen)
      invariant forall v :: v in seen <==> HasUpcomingTerm(members[..i], v, now)
    {
      var upcoming := [];
      if members[i].workSchedule.Some? {
        upcoming := FutureTerms(members[i].workSchedule.value, now);
        seen := AddAll(seen, upcoming);
      }
      UpcomingStep(members, i, now, upcoming);
    }
    assert members[..|members|] == members;
    options := SortedOptions(seen);
  }

  /** One more member adds exactly that member's upcoming codes. */
  lemma UpcomingStep(members: seq<Member>, i: int, now: Date, upcoming: seq<string>)
    requires 0 <= i < |members|
    requires forall v :: v in upcoming <==>
               members[i].workSchedule.Some? && v in members[i].workSchedule.value && !IsTermPast(v, now)
    ensures forall v :: HasUpcomingTerm(members[..i + 1], v, now) <==>
              HasUpcomingTerm(members[..i], v, now) || v in upcoming
  {
    forall v ensures HasUpcomingTerm(members[..i + 1], v, now) <==>
                     HasUpcomingTerm(members[..i], v, now) || v in upcoming {
      if HasUpcomingTerm(members[..i + 1], v, now) {
        var j :| 0 <= j < i + 1 && members[..i + 1][j].workSchedule.Some? && v in members[..i + 1][j].workSchedule.value;
        if j < i {
          assert members[..i][j] == members[..i + 1][j];
        }
      }
      if HasUpcomingTerm(members[..i], v, now) {
        var j :| 0 <= j < i && members[..i][j].workSchedule.Some? && v in members[..i][j].workSchedule.value;
        assert members[..i + 1][j] == members[..i][j];
      }
      if v in upcoming {
        assert members[..i + 1][i] == members[i];
      }
    }
  }

  /** `.filter(code => !isTermPast(code))`, keeping the order. */
  function FutureTerms(codes: seq<string>, now: Date): (r: seq<string>)
    ensures forall v :: v in r <==> v in codes && !IsTermPast(v, now)
    ensures IsSubsequence(r, codes)
    ensures forall v :: multiset(r)[v] == if IsTermPast(v, now) then 0 else multiset(codes)[v]
  {
    if codes == [] then []
    else
      var rest := FutureTerms(codes[1..], now);
      assert codes == [codes[0]] + codes[1..];
      if IsTermPast(codes[0], now) then rest else [codes[0]] + rest
  }
}
