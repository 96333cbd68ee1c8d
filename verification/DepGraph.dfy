/** Batched queries: operators become links of a dependency graph whose variables know their depth. */
module DepGraph {
  import opened Options
  import opened Columns

  datatype CombineType = Add | Sub
  datatype AggregateType = Avg | Min | Max | Sum

  datatype Kind =
    | Select(filter: Filter)
    | Reselect(filter: Filter)
    | Fetch
    | Aggregate(aggregate: AggregateType)
    | Combine(combine: CombineType)
  {
    function Arity(): (n: nat)
      ensures 1 <= n <= 2
    {
      if Select? || Aggregate? then 1 else 2
    }
  }

  /** What a column or variable holds: numbers, with what stands in the memory between their count and the capacity;
      positions; one number; an average as sum and count; nothing yet; or the mark of a failed assertion. */
  datatype Value =
    | Ints(data: seq<int>, slack: seq<int>)
    | Positions(sel: seq<int>)
    | Number(n: int)
    | Average(sum: int, count: nat)
    | Unset
    | Failed

  function Total(data: seq<int>): int {
    if data == [] then 0 else Total(data[..|data| - 1]) + data[|data| - 1]
  }

  function Least(data: seq<int>): int {
    if data == [] then INT_MAX
    else
      var m := Least(data[..|data| - 1]);
      if data[|data| - 1] < m then data[|data| - 1] else m
  }

  function Greatest(data: seq<int>): int {
    if data == [] then -INT_MAX
    else
      var m := Greatest(data[..|data| - 1]);
      if data[|data| - 1] > m then data[|data| - 1] else m
  }

  /** A 64-bit sum stored in a 32-bit int keeps its low 32 bits. */
  function ToInt(n: int): (r: int)
    ensures INT_MIN <= r <= INT_MAX
  {
    (n + 0x8000_0000) % 0x1_0000_0000 - 0x8000_0000
  }

  /** The stored sum is the sum exactly when that fits. */
  lemma StoredSum(n: int)
    ensures ToInt(n) == n <==> -0x8000_0000 <= n <= 0x7fff_ffff
    ensures (n - ToInt(n)) % 0x1_0000_0000 == 0
  {
  }

  /** What execute_full_link leaves in the output for these operands. */
  function Evaluate(kind: Kind, args: seq<Value>): Value
    requires |args| == kind.Arity()
  {
    if !args[0].Ints? then Failed
    else
      var data := args[0].data;
      match kind
      case Select(f) => Positions(Selected(data, 0, |data|, ConvertFilter(f), false))
      case Reselect(f) =>
        if args[1].Positions? && |data| == |args[1].sel| then Positions(Reselected(data, args[1].sel, ConvertFilter(f)))
        else Failed
      case Fetch =>
        var memory := data + args[0].slack;
        if args[1].Positions? && Within(args[1].sel, |memory|) then Ints(Fetched(memory, args[1].sel), []) else Failed
      case Aggregate(a) =>
        (match a
         case Avg => Average(Total(data), |data|)
         case Min => Number(Least(data))
         case Max => Number(Greatest(data))
         case Sum => Number(ToInt(Total(data))))
      case Combine(c) =>
        if args[1].Ints? && |data| == |args[1].data| then
          Ints(seq(|data|, i requires 0 <= i < |data| =>
            if c == Add then data[i] + args[1].data[i] else data[i] - args[1].data[i]), [])
        else Failed
  }

  // ----- what the operators leave, without their definitions -----

  /** s is the last of the partial sums of data, which start at 0. */
  ghost predicate SumsTo(data: seq<int>, s: int) {
    exists sums: seq<int> :: PartialSums(data, sums) && sums[|data|] == s
  }

  predicate PartialSums(data: seq<int>, sums: seq<int>) {
    |sums| == |data| + 1 && sums[0] == 0 && forall i :: 0 <= i < |data| ==> sums[i + 1] == sums[i] + data[i]
  }

  /** The range of a filter, with an open end at the largest or smallest int and its negative. */
  predicate Keeps(f: Filter, x: int) {
    && (match f.low case Some(low) => low <= x case None => -0x7fff_ffff <= x)
    && (match f.high case Some(high) => x < high case None => x < 0x7fff_ffff)
  }

  /** The positions whose values the filter keeps, in ascending order. */
  ghost predicate KeptPositions(data: seq<int>, f: Filter, r: seq<int>) {
    && (forall i, j :: 0 <= i < j < |r| ==> r[i] < r[j])
    && (forall p :: p in r <==> 0 <= p < |data| && Keeps(f, data[p]))
  }

  ghost predicate ReadThrough(data: seq<int>, sel: seq<int>, r: seq<int>) {
    |r| == |sel| && forall i :: 0 <= i < |sel| ==> 0 <= sel[i] < |data| && r[i] == data[sel[i]]
  }

  ghost predicate Aggregates(a: AggregateType, data: seq<int>, out: Value) {
    match a
    case Avg => out.Average? && SumsTo(data, out.sum) && out.count == |data|
    case Sum =>
      && out.Number? && -0x8000_0000 <= out.n <= 0x7fff_ffff
      && exists s :: SumsTo(data, s) && (s - out.n) % 0x1_0000_0000 == 0
    case Min =>
      && out.Number? && (out.n in data || out.n == 0x7fff_ffff) && out.n <= 0x7fff_ffff
      && forall i :: 0 <= i < |data| ==> out.n <= data[i]
    case Max =>
      && out.Number? && (out.n in data || out.n == -0x7fff_ffff) && out.n >= -0x7fff_ffff
      && forall i :: 0 <= i < |data| ==> out.n >= data[i]
  }

  /** What a link of this kind leaves: positions, values, sums and bounds, and a failure in exactly the cases in which
      an assertion of the operator fails. */
  ghost predicate Does(kind: Kind, args: seq<Value>, out: Value)
    requires |args| == kind.Arity()
  {
    if !args[0].Ints? then out == Failed
    else
      var data := args[0].data;
      match kind
      case Select(f) => out.Positions? && KeptPositions(data, f, out.sel)
      case Reselect(f) =>
        if !args[1].Positions? || |args[1].sel| != |data| then out == Failed
        else out.Positions? && exists kept :: KeptPositions(data, f, kept) && ReadThrough(args[1].sel, kept, out.sel)
      case Fetch =>
        var memory := data + args[0].slack;
        if args[1].Positions? && forall i :: 0 <= i < |args[1].sel| ==> 0 <= args[1].sel[i] < |memory| then
          out.Ints? && out.slack == [] && ReadThrough(memory, args[1].sel, out.data)
        else out == Failed
      case Aggregate(a) => Aggregates(a, data, out)
      case Combine(c) =>
        if !args[1].Ints? || |args[1].data| != |data| then out == Failed
        else
          && out.Ints? && out.slack == [] && |out.data| == |data|
          && forall i :: 0 <= i < |data| ==>
               out.data[i] == match c case Add => data[i] + args[1].data[i] case Sub => data[i] - args[1].data[i]
  }

  lemma {:induction false} TotalSums(data: seq<int>) returns (sums: seq<int>)
    ensures PartialSums(data, sums) && sums[|data|] == Total(data)
  {
    if data == [] {
      sums := [0];
    } else {
      var before := TotalSums(data[..|data| - 1]);
      sums := before + [Total(data)];
    }
  }

  /** Total is the sum: 0 for no number, the number for one, and additive. */
  lemma {:induction false} TotalIsSum(a: seq<int>, b: seq<int>, x: int)
    ensures Total([]) == 0 && Total([x]) == x && Total(a + b) == Total(a) + Total(b)
    decreases |b|
  {
    assert Total([x]) == Total([]) + x;
    if b == [] {
      assert a + b == a;
    } else {
      TotalIsSum(a, b[..|b| - 1], x);
      assert (a + b)[..|a + b| - 1] == a + b[..|b| - 1];
    }
  }

  lemma {:induction false} LeastIs(data: seq<int>)
    ensures (Least(data) in data || Least(data) == INT_MAX) && Least(data) <= INT_MAX
    ensures forall i :: 0 <= i < |data| ==> Least(data) <= data[i]
  {
    if data != [] {
      LeastIs(data[..|data| - 1]);
    }
  }

  lemma {:induction false} GreatestIs(data: seq<int>)
    ensures (Greatest(data) in data || Greatest(data) == -INT_MAX) && Greatest(data) >= -INT_MAX
    ensures forall i :: 0 <= i < |data| ==> Greatest(data) >= data[i]
  {
    if data != [] {
      GreatestIs(data[..|data| - 1]);
    }
  }

  lemma SelectedAreKept(data: seq<int>, f: Filter)
    ensures KeptPositions(data, f, Selected(data, 0, |data|, ConvertFilter(f), false))
  {
    SelectedExactly(data, 0, |data|, ConvertFilter(f), false);
  }

  lemma EvaluateAggregates(a: AggregateType, args: seq<Value>)
    requires |args| == 1 && args[0].Ints?
    ensures Aggregates(a, args[0].data, Evaluate(Aggregate(a), args))
  {
    var sums := TotalSums(args[0].data);
    assert SumsTo(args[0].data, Total(args[0].data));
    StoredSum(Total(args[0].data));
    LeastIs(args[0].data);
    GreatestIs(args[0].data);
  }

  /** Evaluate says what Does says. */
  lemma EvaluateDoes(kind: Kind, args: seq<Value>)
    requires |args| == kind.Arity()
    ensures Does(kind, args, Evaluate(kind, args))
  {
    if args[0].Ints? {
      match kind
      case Select(f) =>
        SelectedAreKept(args[0].data, f);
      case Reselect(f) =>
        SelectedAreKept(args[0].data, f);
        SelectedWithin(args[0].data, 0, |args[0].data|, ConvertFilter(f));
      case Aggregate(a) =>
        EvaluateAggregates(a, args);
      case _ =>
    }
  }

  /** How a variable is made from the variables before it. */
  datatype Link = Link(kind: Kind, inputs: seq<nat>)

  /** A member of the graph, a column or a variable: a link fills it, or it held `given` before the batch. */
  datatype GenVar = GenVar(name: string, column: bool, parent: Option<Link>, given: Value)

  /** Every operand stands earlier in the list than the variable made from it. */
  predicate WellFormed(g: seq<GenVar>) {
    forall i :: 0 <= i < |g| && g[i].parent.Some? ==> LinkBelow(g[i].parent.value, i)
  }

  predicate LinkBelow(l: Link, n: nat) {
    |l.inputs| == l.kind.Arity() && forall k :: 0 <= k < |l.inputs| ==> l.inputs[k] < n
  }

  /** What variable i is meant to hold: the operators, composed along the dependencies. */
  function Meaning(g: seq<GenVar>, i: nat): Value
    requires WellFormed(g) && i < |g|
    decreases i, 3
  {
    match g[i].parent
    case None => g[i].given
    case Some(l) =>
      Evaluate(l.kind, MeaningOf(g, i, l.inputs, l.kind.Arity()))
  }

  function MeaningOf(g: seq<GenVar>, i: nat, inputs: seq<nat>, k: nat): (r: seq<Value>)
    requires WellFormed(g) && i < |g| && k <= |inputs| && k <= 2
    requires forall j :: 0 <= j < |inputs| ==> inputs[j] < i
    ensures |r| == k && forall j :: 0 <= j < k ==> r[j] == Meaning(g, inputs[j])
    decreases i, k
  {
    if k == 0 then [] else MeaningOf(g, i, inputs, k - 1) + [Meaning(g, inputs[k - 1])]
  }

  /** Adding variables at the end leaves the meaning of the others alone. */
  lemma {:induction false} MeaningKept(g: seq<GenVar>, more: seq<GenVar>, i: nat)
    requires WellFormed(g) && WellFormed(g + more) && i < |g|
    ensures Meaning(g + more, i) == Meaning(g, i)
    decreases i
  {
    if g[i].parent.Some? {
      var l := g[i].parent.value;
      forall k | 0 <= k < |l.inputs|
        ensures Meaning(g + more, l.inputs[k]) == Meaning(g, l.inputs[k])
      {
        MeaningKept(g, more, l.inputs[k]);
      }
      assert MeaningOf(g + more, i, l.inputs, l.kind.Arity()) == MeaningOf(g, i, l.inputs, l.kind.Arity());
    }
  }

  // ----- depth -----

  function Larger(a: nat, b: nat): nat {
    if a > b then a else b
  }

  /** The depth of a variable: one more than its deepest operand. */
  function Depth(g: seq<GenVar>, i: nat): nat
    requires WellFormed(g) && i < |g|
    decreases i
  {
    match g[i].parent
    case None => 0
    case Some(l) =>
      1 + if l.kind.Arity() == 1 then Depth(g, l.inputs[0]) else Larger(Depth(g, l.inputs[0]), Depth(g, l.inputs[1]))
  }

  /** A chain of variables, each an operand of the next, that ends in i. */
  ghost predicate DependencyPath(g: seq<GenVar>, p: seq<nat>, i: nat)
    requires WellFormed(g) && i < |g|
    decreases |p|
  {
    && p != [] && p[|p| - 1] == i
    && (|p| > 1 ==>
          && g[i].parent.Some? && p[|p| - 2] in g[i].parent.value.inputs
          && DependencyPath(g, p[..|p| - 1], p[|p| - 2]))
  }

  /** No dependency path that ends in i has more steps than its depth. */
  lemma {:induction false} NoLongerPath(g: seq<GenVar>, p: seq<nat>, i: nat)
    requires WellFormed(g) && i < |g| && DependencyPath(g, p, i)
    ensures |p| - 1 <= Depth(g, i)
    decreases |p|
  {
    if |p| > 1 {
      NoLongerPath(g, p[..|p| - 1], p[|p| - 2]);
    }
  }

  /** Some dependency path has exactly that many steps. */
  lemma {:induction false} LongestPath(g: seq<GenVar>, i: nat) returns (p: seq<nat>)
    requires WellFormed(g) && i < |g|
    ensures DependencyPath(g, p, i) && |p| - 1 == Depth(g, i)
    decreases i
  {
    match g[i].parent
    case None =>
      p := [i];
    case Some(l) =>
      var k := if l.kind.Arity() == 1 || Depth(g, l.inputs[0]) > Depth(g, l.inputs[1]) then 0 else 1;
      var q := LongestPath(g, l.inputs[k]);
      p := q + [i];
      assert p[..|p| - 1] == q;
  }

  lemma OperandsAreShallower(g: seq<GenVar>, i: nat, k: nat)
    requires WellFormed(g) && i < |g| && g[i].parent.Some? && k < |g[i].parent.value.inputs|
    ensures Depth(g, g[i].parent.value.inputs[k]) < Depth(g, i)
  {
  }

  lemma {:induction false} DepthKept(g: seq<GenVar>, more: seq<GenVar>, i: nat)
    requires WellFormed(g) && WellFormed(g + more) && i < |g|
    ensures Depth(g + more, i) == Depth(g, i)
    decreases i
  {
    if g[i].parent.Some? {
      var l := g[i].parent.value;
      forall k | 0 <= k < |l.inputs|
        ensures Depth(g + more, l.inputs[k]) == Depth(g, l.inputs[k])
      {
        DepthKept(g, more, l.inputs[k]);
      }
    }
  }
}
