/**
 * The inline style the grid view puts on its container: the item aspect ratio and, when a page
 * gives its own column counts, one column count per container-width breakpoint, a breakpoint
 * without its own count taking the count of the nearest lower one.
 */
module GridView {
  import opened Options

  /** The container widths at which the column count may change. */
  const Breakpoints: seq<int> := [0, 500, 800, 1100, 1400]

  /** The custom property set for each breakpoint, in the same order. */
  const VarNames: seq<string> := ["--grid-cols-base", "--grid-cols-500", "--grid-cols-800", "--grid-cols-1100", "--grid-cols-1400"]

  const AspectRatioVar: string := "--aspect-ratio"

  /** A style value is a string or a number. */
  datatype StyleValue = Str(s: string) | Num(n: int)

  /** The column count at breakpoint i: the page's own count there, else the count at the
      breakpoint below, else 1. */
  function Inherited(cols: map<int, int>, i: nat): int
    requires i < |Breakpoints|
  {
    if Breakpoints[i] in cols then cols[Breakpoints[i]]
    else if i == 0 then 1
    else Inherited(cols, i - 1)
  }

  /** The count at a breakpoint is the one given at the nearest breakpoint at or below it,
      and 1 when none is given there or below. */
  lemma {:induction false} InheritedIsNearestBelow(cols: map<int, int>, i: nat)
    requires i < |Breakpoints|
    ensures (forall k :: 0 <= k <= i ==> Breakpoints[k] !in cols) ==> Inherited(cols, i) == 1
    ensures forall k :: 0 <= k <= i && Breakpoints[k] in cols && (forall m :: k < m <= i ==> Breakpoints[m] !in cols) ==>
              Inherited(cols, i) == cols[Breakpoints[k]]
  {
    if i > 0 {
      InheritedIsNearestBelow(cols, i - 1);
    }
  }

  /** Keys of the page's map that are not breakpoints have no effect. */
  lemma {:induction false} OtherKeysIgnored(cols: map<int, int>, other: map<int, int>, i: nat)
    requires i < |Breakpoints|
    requires forall k :: 0 <= k < |Breakpoints| ==> (Breakpoints[k] in cols <==> Breakpoints[k] in other)
    requires forall k :: 0 <= k < |Breakpoints| && Breakpoints[k] in cols ==> cols[Breakpoints[k]] == other[Breakpoints[k]]
    ensures Inherited(cols, i) == Inherited(other, i)
  {
    if i > 0 {
      OtherKeysIgnored(cols, other, i - 1);
    }
  }

  /** The Work page's counts `{ 0: 1, 500: 2, 1100: 3, 1400: 4 }` give 1, 2, 2, 3, 4 columns;
      the documented `{ 0: 1, 500: 2, 1100: 3 }` gives 1, 2, 2, 3, 3; an empty map gives 1 everywhere. */
  lemma ColumnExamples()
    ensures var work := map[0 := 1, 500 := 2, 1100 := 3, 1400 := 4];
            [Inherited(work, 0), Inherited(work, 1), Inherited(work, 2), Inherited(work, 3), Inherited(work, 4)] == [1, 2, 2, 3, 4]
    ensures var doc := map[0 := 1, 500 := 2, 1100 := 3];
            [Inherited(doc, 0), Inherited(doc, 1), Inherited(doc, 2), Inherited(doc, 3), Inherited(doc, 4)] == [1, 2, 2, 3, 3]
    ensures forall i :: 0 <= i < |Breakpoints| ==> Inherited(map[], i) == 1
  {
    InheritedIsNearestBelow(map[], 4);
    forall i | 0 <= i < |Breakpoints| ensures Inherited(map[], i) == 1 {
      InheritedIsNearestBelow(map[], i);
    }
  }

  /** The style object built before rendering. */
  method BuildGridStyle(aspectRatio: Option<string>, gridColumns: Option<map<int, int>>)
    returns (style: map<string, StyleValue>)
    ensures AspectRatioVar in style <==> aspectRatio.Some? && aspectRatio.value != ""
    ensures AspectRatioVar in style ==> style[AspectRatioVar] == Str(aspectRatio.value)
    ensures gridColumns.None? ==> forall k :: k in style ==> k == AspectRatioVar
    ensures gridColumns.Some? ==>
              forall i :: 0 <= i < |Breakpoints| ==>
                VarNames[i] in style && style[VarNames[i]] == Num(Inherited(gridColumns.value, i))
    ensures forall k :: k in style ==> k == AspectRatioVar || k in VarNames
  {
    assert forall i :: 0 <= i < |VarNames| ==> VarNames[i] != AspectRatioVar by {
      forall i | 0 <= i < |VarNames| ensures VarNames[i] != AspectRatioVar {
        assert VarNames[i][2] == 'g' && AspectRatioVar[2] == 'a';
      }
    }
    style := map[];
    if aspectRatio.Some? && aspectRatio.value != "" {
      style := style[AspectRatioVar := Str(aspectRatio.value)];
    }
    if gridColumns.Some? {
      var cols := gridColumns.value;
      var lastValue := 1;
      for i := 0 to |Breakpoints|
        invariant lastValue == if i == 0 then 1 else Inherited(cols, i - 1)
        invariant forall k :: 0 <= k < i ==> VarNames[k] in style && style[VarNames[k]] == Num(Inherited(cols, k))
        invariant AspectRatioVar in style <==> aspectRatio.Some? && aspectRatio.value != ""
        invariant AspectRatioVar in style ==> style[AspectRatioVar] == Str(aspectRatio.value)
        invariant forall k :: k in style ==> k == AspectRatioVar || k in VarNames
      {
        var bp := Breakpoints[i];
        if bp in cols {
          lastValue := cols[bp];
        }
        style := style[VarNames[i] := Num(lastValue)];
      }
    }
  }
}
