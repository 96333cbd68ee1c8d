/** Range selections over a column, and the operators that read through them. */
module Columns {
  import opened Options
  import opened Vectors

  const INT_MAX := 0x7fff_ffff
  const INT_MIN := -0x8000_0000

  /** A range as the query gives it; either end may be open. */
  datatype Filter = Filter(low: Option<int>, high: Option<int>) {
    predicate Admits(x: int) {
      (low.Some? ==> low.value <= x) && (high.Some? ==> x < high.value)
    }
  }

  /** The range the loops compare with. */
  datatype FullFilter = FullFilter(low: int, high: int) {
    predicate Passes(x: int) {
      low <= x < high
    }
  }

  function ConvertFilter(f: Filter): FullFilter {
    FullFilter(if f.low.Some? then f.low.value else -INT_MAX, if f.high.Some? then f.high.value else INT_MAX)
  }

  /** Filling in an open end loses one value: the largest int above, the smallest int below. */
  lemma OpenEndsLoseTheExtremes(f: Filter, x: int)
    requires INT_MIN <= x <= INT_MAX
    ensures ConvertFilter(f).Passes(x)
       <==> f.Admits(x) && !(f.low.None? && x == INT_MIN) && !(f.high.None? && x == INT_MAX)
  {
  }

  predicate Chosen(x: int, f: FullFilter, inverse: bool) {
    f.Passes(x) != inverse
  }

  /** The positions of [start, end) that are selected, in ascending order. */
  function Selected(data: seq<int>, start: nat, end: nat, f: FullFilter, inverse: bool): seq<int>
    requires start <= end <= |data|
    decreases end
  {
    if start == end then []
    else
      var before := Selected(data, start, end - 1, f, inverse);
      if Chosen(data[end - 1], f, inverse) then before + [end - 1] else before
  }

  predicate Ascending(s: seq<int>) {
    forall i, j :: 0 <= i < j < |s| ==> s[i] < s[j]
  }

  /** A selection lists exactly the chosen positions, each once, in order. */
  lemma {:induction false} SelectedExactly(data: seq<int>, start: nat, end: nat, f: FullFilter, inverse: bool)
    requires start <= end <= |data|
    ensures Ascending(Selected(data, start, end, f, inverse))
    ensures forall p: int ::
      p in Selected(data, start, end, f, inverse) <==> start <= p < end && Chosen(data[p], f, inverse)
    decreases end
  {
    if start < end {
      SelectedExactly(data, start, end - 1, f, inverse);
      var before := Selected(data, start, end - 1, f, inverse);
      assert forall i :: 0 <= i < |before| ==> before[i] in before;
    }
  }

  /** The inverse selection is the complement. */
  lemma SelectedComplement(data: seq<int>, start: nat, end: nat, f: FullFilter, p: int)
    requires start <= p < end <= |data|
    ensures (p in Selected(data, start, end, f, true)) != (p in Selected(data, start, end, f, false))
  {
    SelectedExactly(data, start, end, f, true);
    SelectedExactly(data, start, end, f, false);
  }

  /** Selecting piece by piece is selecting the whole. */
  lemma {:induction false} SelectedSplit(data: seq<int>, start: nat, mid: nat, end: nat, f: FullFilter, inverse: bool)
    requires start <= mid <= end <= |data|
    ensures Selected(data, start, end, f, inverse)
         == Selected(data, start, mid, f, inverse) + Selected(data, mid, end, f, inverse)
    decreases end
  {
    if mid < end {
      SelectedSplit(data, start, mid, end - 1, f, inverse);
    }
  }

  /** internal_select on [start, end). */
  method InternalSelect(data: seq<int>, start: nat, end: nat, f: FullFilter, select: IndexVector, inverse: bool)
    requires start <= end <= |data|
    modifies select
    ensures select.data == old(select.data) + Selected(data, start, end, f, inverse)
  {
    if inverse {
      for i := start to end
        invariant select.data == old(select.data) + Selected(data, start, i, f, inverse)
      {
        var x := data[i];
        if x < f.low || x >= f.high {
          select.Push(i);
        }
      }
    } else {
      for i := start to end
        invariant select.data == old(select.data) + Selected(data, start, i, f, inverse)
      {
        var x := data[i];
        if x >= f.low && x < f.high {
          select.Push(i);
        }
      }
    }
  }

  /** select_range over the whole column. */
  method SelectRange(data: seq<int>, result: IndexVector, filter: Filter)
    modifies result
    ensures result.data == old(result.data) + Selected(data, 0, |data|, ConvertFilter(filter), false)
  {
    var low := if filter.low.Some? then filter.low.value else -INT_MAX;
    var high := if filter.high.Some? then filter.high.value else INT_MAX;
    for i := 0 to |data|
      invariant result.data == old(result.data) + Selected(data, 0, i, ConvertFilter(filter), false)
    {
      var current := data[i];
      if current >= low && current < high {
        result.Push(i);
      }
    }
  }

  predicate Within(sel: seq<int>, n: nat) {
    forall i :: 0 <= i < |sel| ==> 0 <= sel[i] < n
  }

  /** data read through a selection. */
  function Fetched(data: seq<int>, sel: seq<int>): (r: seq<int>)
    requires Within(sel, |data|)
    ensures |r| == |sel| && forall i :: 0 <= i < |sel| ==> r[i] == data[sel[i]]
  {
    if sel == [] then [] else Fetched(data, sel[..|sel| - 1]) + [data[sel[|sel| - 1]]]
  }

  /** Those entries of `original` whose fetched value passes. */
  function Reselected(data: seq<int>, original: seq<int>, f: FullFilter): seq<int>
    requires |data| == |original|
  {
    SelectedWithin(data, 0, |data|, f);
    Fetched(original, Selected(data, 0, |data|, f, false))
  }

  lemma SelectedWithin(data: seq<int>, start: nat, end: nat, f: FullFilter)
    requires start <= end <= |data|
    ensures Within(Selected(data, start, end, f, false), |data|)
  {
    SelectedExactly(data, start, end, f, false);
    var s := Selected(data, start, end, f, false);
    assert forall i :: 0 <= i < |s| ==> s[i] in s;
  }

  /** Selecting a fetched column again is selecting with both conditions at once. */
  lemma {:induction false} ReselectIntersects(a: seq<int>, b: seq<int>, f: FullFilter, g: FullFilter, n: nat)
    requires n <= |a| == |b|
    ensures
      var sel := Selected(a, 0, n, f, false);
      Within(sel, |b|) && Reselected(Fetched(b, sel), sel, g) == SelectedBoth(a, b, f, g, n)
    decreases n
  {
    SelectedWithin(a, 0, n, f);
    if n > 0 {
      ReselectIntersects(a, b, f, g, n - 1);
      SelectedWithin(a, 0, n - 1, f);
      var before, sel := Selected(a, 0, n - 1, f, false), Selected(a, 0, n, f, false);
      if f.Passes(a[n - 1]) {
        assert sel[..|sel| - 1] == before;
        ReselectNext(Fetched(b, before), before, b[n - 1], n - 1, g);
      } else {
        assert sel == before;
      }
    }
  }

  function SelectedBoth(a: seq<int>, b: seq<int>, f: FullFilter, g: FullFilter, n: nat): seq<int>
    requires n <= |a| == |b|
  {
    if n == 0 then []
    else SelectedBoth(a, b, f, g, n - 1) + if f.Passes(a[n - 1]) && g.Passes(b[n - 1]) then [n - 1] else []
  }

  lemma ReselectNext(data: seq<int>, original: seq<int>, x: int, p: int, g: FullFilter)
    requires |data| == |original|
    ensures Reselected(data + [x], original + [p], g)
         == Reselected(data, original, g) + if g.Passes(x) then [p] else []
  {
    SelectedWithin(data, 0, |data|, g);
    SelectedWithin(data + [x], 0, |data| + 1, g);
    SelectedOfPrefix(data, x, |data|, g);
    FetchedOfPrefix(original, p, Selected(data, 0, |data|, g, false));
    var sel := Selected(data + [x], 0, |data| + 1, g, false);
    if g.Passes(x) {
      assert sel[..|sel| - 1] == Selected(data, 0, |data|, g, false);
    }
  }

  lemma {:induction false} SelectedOfPrefix(data: seq<int>, x: int, n: nat, g: FullFilter)
    requires n <= |data|
    ensures Selected(data + [x], 0, n, g, false) == Selected(data, 0, n, g, false)
  {
    if n > 0 {
      SelectedOfPrefix(data, x, n - 1, g);
    }
  }

  lemma {:induction false} FetchedOfPrefix(data: seq<int>, x: int, sel: seq<int>)
    requires Within(sel, |data|)
    ensures Fetched(data + [x], sel) == Fetched(data, sel)
    decreases |sel|
  {
    if sel != [] {
      FetchedOfPrefix(data, x, sel[..|sel| - 1]);
    }
  }

  method Fetch(data: seq<int>, select: seq<int>) returns (fetch: seq<int>)
    requires Within(select, |data|)
    ensures fetch == Fetched(data, select)
  {
    fetch := [];
    for i := 0 to |select|
      invariant fetch == Fetched(data, select[..i])
    {
      fetch := fetch + [data[select[i]]];
      assert select[..i + 1][..i] == select[..i];
    }
    assert select[..|select|] == select;
  }

  method Reselect(data: seq<int>, original: seq<int>, result: IndexVector, filter: Filter)
    requires |data| == |original|
    modifies result
    ensures result.data == old(result.data) + Reselected(data, original, ConvertFilter(filter))
  {
    var selection := new IndexVector();
    SelectRange(data, selection, filter);
    SelectedWithin(data, 0, |data|, ConvertFilter(filter));
    var sel := selection.data;
    for i := 0 to |sel|
      invariant result.data == old(result.data) + Fetched(original, sel[..i])
    {
      result.Push(original[sel[i]]);
      assert sel[..i + 1][..i] == sel[..i];
    }
    assert sel[..|sel|] == sel;
  }
}
