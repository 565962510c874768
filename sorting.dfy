/**
 * `Array.prototype.sort` with a comparator, on a copy. The language requires the sort to be
 * stable, and for a consistent comparator (a total preorder) the stable sorted permutation of
 * a sequence is unique, so insertion sort is a faithful reference: a sorted permutation
 * that keeps elements the comparator calls equal in their original order.
 */
module Sorting {
  import opened Text
  import opened Sequences

  /** The comparator is consistent: "a not after b" is total and transitive. */
  ghost predicate TotalPreorder<T(!new)>(cmp: (T, T) -> int) {
    && (forall a, b :: cmp(a, b) <= 0 || cmp(b, a) <= 0)
    && (forall a, b, c :: cmp(a, b) <= 0 && cmp(b, c) <= 0 ==> cmp(a, c) <= 0)
  }

  ghost predicate SortedBy<T>(s: seq<T>, cmp: (T, T) -> int) {
    forall i, j :: 0 <= i < j < |s| ==> cmp(s[i], s[j]) <= 0
  }

  /** Puts x in front of the first element it is not after. */
  function Insert<T>(x: T, s: seq<T>, cmp: (T, T) -> int): (r: seq<T>)
    ensures multiset(r) == multiset(s) + multiset{x}
    ensures |r| == |s| + 1
  {
    if s == [] then [x]
    else if cmp(x, s[0]) <= 0 then [x] + s
    else
      assert s == [s[0]] + s[1..];
      [s[0]] + Insert(x, s[1..], cmp)
  }

  /** The stable sort of s under cmp, ascending. */
  function StableSort<T>(s: seq<T>, cmp: (T, T) -> int): (r: seq<T>)
    ensures multiset(r) == multiset(s)
    ensures |r| == |s|
  {
    if s == [] then []
    else
      assert s == [s[0]] + s[1..];
      Insert(s[0], StableSort(s[1..], cmp), cmp)
  }

  /** Every element of Insert(x, s) is not before y when x and all of s are not before y. */
  lemma {:induction false} InsertLowerBound<T>(x: T, s: seq<T>, cmp: (T, T) -> int, y: T)
    requires cmp(y, x) <= 0 && forall k :: 0 <= k < |s| ==> cmp(y, s[k]) <= 0
    ensures forall k :: 0 <= k < |Insert(x, s, cmp)| ==> cmp(y, Insert(x, s, cmp)[k]) <= 0
  {
    if s != [] && cmp(x, s[0]) > 0 {
      assert forall k :: 0 <= k < |s[1..]| ==> s[1..][k] == s[k + 1];
      InsertLowerBound(x, s[1..], cmp, y);
      var t := Insert(x, s[1..], cmp);
      assert forall k :: 0 < k < |t| + 1 ==> ([s[0]] + t)[k] == t[k - 1];
    }
  }

  /** Putting an element that is not after any element of a sorted sequence in front keeps it sorted. */
  lemma SortedCons<T>(y: T, t: seq<T>, cmp: (T, T) -> int)
    requires SortedBy(t, cmp) && forall k :: 0 <= k < |t| ==> cmp(y, t[k]) <= 0
    ensures SortedBy([y] + t, cmp)
  {
    var r := [y] + t;
    forall i, j | 0 <= i < j < |r| ensures cmp(r[i], r[j]) <= 0 {
      if i == 0 {
        assert r[j] == t[j - 1];
      } else {
        assert r[i] == t[i - 1] && r[j] == t[j - 1];
      }
    }
  }

  lemma SortedTail<T>(s: seq<T>, cmp: (T, T) -> int)
    requires s != [] && SortedBy(s, cmp)
    ensures SortedBy(s[1..], cmp)
    ensures forall k :: 0 <= k < |s[1..]| ==> cmp(s[0], s[1..][k]) <= 0
  {
    forall i, j | 0 <= i < j < |s[1..]| ensures cmp(s[1..][i], s[1..][j]) <= 0 {
      assert s[1..][i] == s[i + 1] && s[1..][j] == s[j + 1];
    }
    forall k | 0 <= k < |s[1..]| ensures cmp(s[0], s[1..][k]) <= 0 {
      assert s[1..][k] == s[k + 1];
    }
  }

  lemma {:induction false} InsertSorted<T(!new)>(x: T, s: seq<T>, cmp: (T, T) -> int)
    requires TotalPreorder(cmp) && SortedBy(s, cmp)
    ensures SortedBy(Insert(x, s, cmp), cmp)
  {
    if s == [] {
    } else if cmp(x, s[0]) <= 0 {
      forall k | 0 <= k < |s| ensures cmp(x, s[k]) <= 0 {
        if k > 0 {
          assert cmp(s[0], s[k]) <= 0;
        }
      }
      SortedCons(x, s, cmp);
    } else {
      assert Insert(x, s, cmp) == [s[0]] + Insert(x, s[1..], cmp);
      SortedTail(s, cmp);
      InsertSorted(x, s[1..], cmp);
      assert cmp(s[0], x) <= 0;
      InsertLowerBound(x, s[1..], cmp, s[0]);
      SortedCons(s[0], Insert(x, s[1..], cmp), cmp);
    }
  }

  /** The sort puts the elements in comparator order. */
  lemma {:induction false} StableSortSorted<T(!new)>(s: seq<T>, cmp: (T, T) -> int)
    requires TotalPreorder(cmp)
    ensures SortedBy(StableSort(s, cmp), cmp)
  {
    if s != [] {
      StableSortSorted(s[1..], cmp);
      InsertSorted(s[0], StableSort(s[1..], cmp), cmp);
    }
  }

  /** The comparator puts a level with y: neither comes after the other. */
  predicate Level<T>(a: T, y: T, cmp: (T, T) -> int) {
    cmp(a, y) <= 0 && cmp(y, a) <= 0
  }

  /** The elements of s the comparator puts level with y, in their order in s. */
  function LevelWith<T>(s: seq<T>, y: T, cmp: (T, T) -> int): seq<T> {
    if s == [] then []
    else (if Level(s[0], y, cmp) then [s[0]] else []) + LevelWith(s[1..], y, cmp)
  }

  /** Inserting x moves it only past elements it comes after, and none of those is level with
      y when x is, so the elements level with y keep their order. */
  lemma {:induction false} InsertStable<T>(x: T, s: seq<T>, y: T, cmp: (T, T) -> int)
    requires Level(x, y, cmp) ==> forall z :: Level(z, y, cmp) ==> cmp(x, z) <= 0
    ensures LevelWith(Insert(x, s, cmp), y, cmp) == LevelWith([x] + s, y, cmp)
  {
    if s != [] && cmp(x, s[0]) > 0 {
      InsertStable(x, s[1..], y, cmp);
      var t := Insert(x, s[1..], cmp);
      assert Insert(x, s, cmp) == [s[0]] + t;
      assert s == [s[0]] + s[1..];
      PassingKeepsLevelOrder(x, s[0], s[1..], t, y, cmp);
    }
  }

  /** The step of `InsertStable`: x moves past z, which is not level with y when x is. */
  lemma PassingKeepsLevelOrder<T>(x: T, z: T, rest: seq<T>, t: seq<T>, y: T, cmp: (T, T) -> int)
    requires Level(x, y, cmp) ==> !Level(z, y, cmp)
    requires LevelWith(t, y, cmp) == LevelWith([x] + rest, y, cmp)
    ensures LevelWith([z] + t, y, cmp) == LevelWith([x] + ([z] + rest), y, cmp)
  {
    LevelWithCons(z, t, y, cmp);
    LevelWithCons(x, rest, y, cmp);
    LevelWithCons(x, [z] + rest, y, cmp);
    LevelWithCons(z, rest, y, cmp);
  }

  lemma LevelWithCons<T>(a: T, t: seq<T>, y: T, cmp: (T, T) -> int)
    ensures LevelWith([a] + t, y, cmp) == (if Level(a, y, cmp) then [a] else []) + LevelWith(t, y, cmp)
  {
    assert ([a] + t)[1..] == t;
  }

  /** Under a consistent comparator, whatever is level with y is not after anything level with y. */
  lemma LevelPeers<T(!new)>(x: T, y: T, cmp: (T, T) -> int)
    requires TotalPreorder(cmp)
    ensures Level(x, y, cmp) ==> forall z :: Level(z, y, cmp) ==> cmp(x, z) <= 0
  {
  }

  /** Stability: elements that compare equal keep their relative order. */
  lemma {:induction false} StableSortStable<T(!new)>(s: seq<T>, y: T, cmp: (T, T) -> int)
    requires TotalPreorder(cmp)
    ensures LevelWith(StableSort(s, cmp), y, cmp) == LevelWith(s, y, cmp)
  {
    if s != [] {
      StableSortStable(s[1..], y, cmp);
      LevelPeers(s[0], y, cmp);
      InsertStable(s[0], StableSort(s[1..], cmp), y, cmp);
      var t := StableSort(s[1..], cmp);
      assert ([s[0]] + t)[1..] == t;
    }
  }

  /** `strings.sort()`: ascending in string order. */
  function SortStrings(s: seq<string>): (r: seq<string>)
    ensures multiset(r) == multiset(s)
    ensures forall i, j :: 0 <= i < j < |r| ==> LessEq(r[i], r[j])
  {
    CompareIsTotalPreorder();
    StableSortSorted(s, Compare);
    var r := StableSort(s, Compare);
    forall i, j | 0 <= i < j < |r| ensures LessEq(r[i], r[j]) {
      CompareAgreesWithOrder(r[i], r[j]);
    }
    r
  }

  lemma CompareIsTotalPreorder()
    ensures TotalPreorder(Compare)
  {
    forall a, b ensures Compare(a, b) <= 0 || Compare(b, a) <= 0 {
      CompareAgreesWithOrder(a, b);
      CompareAgreesWithOrder(b, a);
      LessTrichotomy(a, b);
    }
    forall a, b, c | Compare(a, b) <= 0 && Compare(b, c) <= 0 ensures Compare(a, c) <= 0 {
      CompareAgreesWithOrder(a, b);
      CompareAgreesWithOrder(b, c);
      CompareAgreesWithOrder(a, c);
      if Less(a, b) && Less(b, c) {
        LessTransitive(a, b, c);
      }
    }
  }

  /** Sorting strings without duplicates gives a strictly ascending sequence with the same elements. */
  lemma SortDistinctStrings(s: seq<string>)
    requires Distinct(s)
    ensures forall i, j :: 0 <= i < j < |SortStrings(s)| ==> Less(SortStrings(s)[i], SortStrings(s)[j])
    ensures forall x :: x in SortStrings(s) <==> x in s
  {
    var r := SortStrings(s);
    DistinctPermutation(s, r);
    forall x ensures x in r <==> x in s {
      assert x in r <==> x in multiset(r);
      assert x in s <==> x in multiset(s);
    }
  }

  /** Sorting strings keeps exactly the strings it was given. */
  lemma SortStringsMembers(s: seq<string>)
    ensures forall x :: x in SortStrings(s) <==> x in s
  {
    var r := SortStrings(s);
    forall x ensures x in r <==> x in s {
      assert x in r <==> x in multiset(r);
      assert x in s <==> x in multiset(s);
    }
  }
}
