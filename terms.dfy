/**
 * University of Waterloo term codes: a four-character code `1yyM` names a term, where `yy`
 * are the last two digits of the year and `M` is the month the term starts (1 Winter,
 * 5 Spring, 9 Fall). The current term depends on today's date, which is a parameter here.
 */
module TermCodes {
  import opened Options
  import opened Text
  import opened Sorting

  /** `seasonMap`, looked up by the month character. */
  function Season(month: char): Option<string> {
    if month == '1' then Some("Winter")
    else if month == '5' then Some("Spring")
    else if month == '9' then Some("Fall")
    else None
  }

  /** A code `decodeTermCode` turns into a season and year. */
  predicate WellFormed(code: string) {
    |code| == 4 && Season(code[3]).Some?
  }

  /** `decodeTermCode`: "Season 20yy" for a well-formed code, the code itself otherwise. */
  function DecodeTermCode(code: string): (r: string)
    ensures WellFormed(code) ==> r == Season(code[3]).value + " 20" + code[1..3]
    ensures !WellFormed(code) ==> r == code
    ensures r == code <==> !WellFormed(code)
  {
    if code == "" || |code| != 4 then code
    else
      var season := Season(code[3]);
      if season.Some? then season.value + " " + ("20" + code[1..3]) else code
  }

  /** The example in the function's documentation. */
  lemma DecodeExample()
    ensures DecodeTermCode("1261") == "Winter 2026"
    ensures DecodeTermCode("1255") == "Spring 2025"
    ensures DecodeTermCode("1259") == "Fall 2025"
    ensures DecodeTermCode("1263") == "1263"
    ensures DecodeTermCode("126") == "126"
  {
  }

  /** The leading character takes no part in the decoded name. */
  lemma DecodeIgnoresFirstChar(a: string, b: string)
    requires |a| == 4 && |b| == 4 && a[1..] == b[1..]
    ensures WellFormed(a) ==> DecodeTermCode(a) == DecodeTermCode(b)
  {
    assert a[3] == a[1..][2] && b[3] == b[1..][2];
    assert a[1..3] == a[1..][..2] && b[1..3] == b[1..][..2];
  }

  /** `new Date()` as the calendar year and the 1-based month. */
  datatype Date = Date(year: int, month: int)

  /** The month character of the current or approaching term. */
  function TermMonth(month: int): (c: char)
    ensures Season(c) == Some(if month >= 9 then "Fall" else if month >= 5 then "Spring" else "Winter")
  {
    if month >= 9 then '9' else if month >= 5 then '5' else '1'
  }

  /** `s.slice(-2)`. */
  function LastTwo(s: string): (r: string)
    ensures |r| == if |s| < 2 then |s| else 2
    ensures |s| >= 2 ==> r == s[|s| - 2..]
  {
    if |s| < 2 then s else s[|s| - 2..]
  }

  /** `getCurrentTermCode`. */
  function CurrentTermCode(now: Date): (code: string)
    ensures |code| >= 2 && code[0] == '1'
    ensures Season(code[|code| - 1]).Some?
  {
    "1" + LastTwo(IntToString(now.year)) + [TermMonth(now.month)]
  }

  /** Decimal notation of a four-digit number, digit by digit. */
  lemma FourDigits(n: nat)
    requires 1000 <= n < 10000
    ensures NatToString(n) == [DigitChar(n / 1000), DigitChar(n / 100 % 10), DigitChar(n / 10 % 10), DigitChar(n % 10)]
  {
    assert n / 10 / 10 == n / 100 && n / 100 / 10 == n / 1000;
    assert NatToString(n) == NatToString(n / 10) + [DigitChar(n % 10)];
    assert NatToString(n / 10) == NatToString(n / 100) + [DigitChar(n / 10 % 10)];
    assert NatToString(n / 100) == NatToString(n / 1000) + [DigitChar(n / 100 % 10)];
    assert NatToString(n / 1000) == [DigitChar(n / 1000)];
  }

  /** In the years 2000 to 2099 the current term code is well formed and decodes to the
      season starting in the current or approaching term of the current year. */
  lemma CurrentTermDecodes(now: Date)
    requires 2000 <= now.year <= 2099
    ensures WellFormed(CurrentTermCode(now))
    ensures DecodeTermCode(CurrentTermCode(now)) == Season(TermMonth(now.month)).value + " " + IntToString(now.year)
  {
    var y := now.year;
    FourDigits(y);
    assert y / 1000 == 2 && y / 100 % 10 == 0;
    var s := IntToString(y);
    assert s == NatToString(y);
    assert s == "20" + s[2..];
    var code := CurrentTermCode(now);
    assert code == "1" + s[2..] + [TermMonth(now.month)];
    assert code[1..3] == s[2..];
  }

  /** `isTermPast`: the code sorts before the current term's code. */
  predicate IsTermPast(code: string, now: Date) {
    Less(code, CurrentTermCode(now))
  }

  /** The index of the first code that sorts after `current`, if any. */
  function FirstAfter(codes: seq<string>, current: string): (r: Option<nat>)
    ensures r.None? <==> forall i :: 0 <= i < |codes| ==> !Less(current, codes[i])
    ensures r.Some? ==> r.value < |codes| && Less(current, codes[r.value])
                        && forall i :: 0 <= i < r.value ==> !Less(current, codes[i])
  {
    if codes == [] then None
    else if Less(current, codes[0]) then Some(0)
    else
      match FirstAfter(codes[1..], current)
      case None => None
      case Some(i) => Some(i + 1)
  }

  /** `getNextAvailableTerm`: the decoded name of the first code, in string order, after the
      current term; None for a missing or empty list or when every code is current or past. */
  function GetNextAvailableTerm(codes: Option<seq<string>>, now: Date): (r: Option<string>)
    ensures r.Some? <==> codes.Some? && exists c :: c in codes.value && Less(CurrentTermCode(now), c)
    ensures r.Some? ==>
              exists c :: c in codes.value && Less(CurrentTermCode(now), c) && r.value == DecodeTermCode(c) &&
                          forall d :: d in codes.value && Less(CurrentTermCode(now), d) ==> LessEq(c, d)
  {
    if codes.None? || |codes.value| == 0 then None
    else
      var current := CurrentTermCode(now);
      var sorted := SortStrings(codes.value);
      var next := FirstAfter(sorted, current);
      NextIsLeast(codes.value, sorted, current);
      if next.Some? && sorted[next.value] != "" then Some(DecodeTermCode(sorted[next.value])) else None
  }

  /** The facts about `FirstAfter` on the sorted list that `GetNextAvailableTerm` relies on. */
  lemma NextIsLeast(codes: seq<string>, sorted: seq<string>, current: string)
    requires sorted == SortStrings(codes)
    ensures FirstAfter(sorted, current).None? <==> forall c :: c in codes ==> !Less(current, c)
    ensures FirstAfter(sorted, current).Some? ==>
              var c := sorted[FirstAfter(sorted, current).value];
              c in codes && c != "" &&
              forall d :: d in codes && Less(current, d) ==> LessEq(c, d)
  {
    SortStringsMembers(codes);
    var next := FirstAfter(sorted, current);
    if next.None? {
      NoneMeansNoneAfter(codes, sorted, current);
    } else {
      var k := next.value;
      assert sorted[k] in codes;
      LeastAfter(codes, sorted, current, k);
    }
  }

  lemma NoneMeansNoneAfter(codes: seq<string>, sorted: seq<string>, current: string)
    requires forall x :: x in sorted <==> x in codes
    requires forall i :: 0 <= i < |sorted| ==> !Less(current, sorted[i])
    ensures forall c :: c in codes ==> !Less(current, c)
  {
    forall c | c in codes ensures !Less(current, c) {
      var i :| 0 <= i < |sorted| && sorted[i] == c;
    }
  }

  lemma LeastAfter(codes: seq<string>, sorted: seq<string>, current: string, k: nat)
    requires forall x :: x in sorted <==> x in codes
    requires forall i, j :: 0 <= i < j < |sorted| ==> LessEq(sorted[i], sorted[j])
    requires k < |sorted| && Less(current, sorted[k])
    requires forall i :: 0 <= i < k ==> !Less(current, sorted[i])
    ensures sorted[k] != ""
    ensures forall d :: d in codes && Less(current, d) ==> LessEq(sorted[k], d)
  {
    forall d | d in codes && Less(current, d) ensures LessEq(sorted[k], d) {
      var i :| 0 <= i < |sorted| && sorted[i] == d;
      assert i >= k;
      if i > k {
        assert LessEq(sorted[k], sorted[i]);
      }
    }
  }

  /** The next available term is neither past nor the current term. */
  lemma NextIsFuture(codes: Option<seq<string>>, now: Date)
    requires GetNextAvailableTerm(codes, now).Some?
    ensures exists c :: c in codes.value && !IsTermPast(c, now) && c != CurrentTermCode(now) &&
                        GetNextAvailableTerm(codes, now).value == DecodeTermCode(c)
  {
    var c :| c in codes.value && Less(CurrentTermCode(now), c) &&
             GetNextAvailableTerm(codes, now).value == DecodeTermCode(c) &&
             forall d :: d in codes.value && Less(CurrentTermCode(now), d) ==> LessEq(c, d);
    LessTrichotomy(c, CurrentTermCode(now));
  }

  /** One row of `getTermsWithStatus`. */
  datatype TermStatus = TermStatus(code: string, displayName: string, isPast: bool)

  /** The codes of a status list, in order. */
  function Codes(rows: seq<TermStatus>): (r: seq<string>)
    ensures |r| == |rows|
    ensures forall i :: 0 <= i < |rows| ==> r[i] == rows[i].code
  {
    if rows == [] then [] else [rows[0].code] + Codes(rows[1..])
  }

  function StatusRows(sorted: seq<string>, now: Date): (r: seq<TermStatus>)
    ensures Codes(r) == sorted
    ensures forall i :: 0 <= i < |r| ==>
              r[i] == TermStatus(sorted[i], DecodeTermCode(sorted[i]), IsTermPast(sorted[i], now))
  {
    if sorted == [] then [] else [TermStatus(sorted[0], DecodeTermCode(sorted[0]), IsTermPast(sorted[0], now))] + StatusRows(sorted[1..], now)
  }

  /** `getTermsWithStatus`: every code once per occurrence, in string order, with its decoded
      name and whether it is past. */
  function GetTermsWithStatus(codes: Option<seq<string>>, now: Date): (r: seq<TermStatus>)
    ensures codes.None? ==> r == []
    ensures codes.Some? ==> |r| == |codes.value|
    ensures codes.Some? ==> multiset(Codes(r)) == multiset(codes.value)
    ensures forall i, j :: 0 <= i < j < |r| ==> LessEq(r[i].code, r[j].code)
    ensures forall i :: 0 <= i < |r| ==>
              r[i].displayName == DecodeTermCode(r[i].code) && r[i].isPast == IsTermPast(r[i].code, now)
  {
    if codes.None? || |codes.value| == 0 then []
    else
      var sorted := SortStrings(codes.value);
      assert |sorted| == |multiset(sorted)| == |multiset(codes.value)| == |codes.value|;
      StatusRows(sorted, now)
  }

  /** In the status list the past terms come first, the current and future ones after. */
  lemma PastTermsFirst(codes: Option<seq<string>>, now: Date, i: int, j: int)
    requires 0 <= i < j < |GetTermsWithStatus(codes, now)|
    requires GetTermsWithStatus(codes, now)[j].isPast
    ensures GetTermsWithStatus(codes, now)[i].isPast
  {
    var r := GetTermsWithStatus(codes, now);
    if r[i].code != r[j].code {
      LessTransitive(r[i].code, r[j].code, CurrentTermCode(now));
    }
  }
}
