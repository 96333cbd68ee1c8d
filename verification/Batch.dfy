/** Building a batch's dependency graph, running it in program order, and sorting it by depth. */
module Batch {
  import opened Options
  import opened Columns
  import opened DepGraph

  datatype Operator = Operator(handle: string, kind: Kind, operands: seq<string>)

  /** Before the batch: what the client's variables and the columns hold, and which names are variables. */
  datatype Context = Context(holds: string -> Value, variable: string -> bool)

  /** What a name stands for after the operators have run in the order they were given. */
  function ValueOf(ops: seq<Operator>, context: Context, name: string): Value
    requires forall op :: op in ops ==> |op.operands| == op.kind.Arity()
    decreases |ops|, 0
  {
    if ops == [] then context.holds(name)
    else
      var op, before := ops[|ops| - 1], ops[..|ops| - 1];
      if op.handle == "" || op.handle != name then ValueOf(before, context, name)
      else Evaluate(op.kind, ValuesOf(before, context, op.operands, op.kind.Arity()))
  }

  function ValuesOf(ops: seq<Operator>, context: Context, names: seq<string>, k: nat): (r: seq<Value>)
    requires forall op :: op in ops ==> |op.operands| == op.kind.Arity()
    requires k <= |names| && k <= 2
    ensures |r| == k && forall j :: 0 <= j < k ==> r[j] == ValueOf(ops, context, names[j])
    decreases |ops|, 1, k
  {
    if k == 0 then [] else ValuesOf(ops, context, names, k - 1) + [ValueOf(ops, context, names[k - 1])]
  }

  lemma {:induction false} Unwritten(ops: seq<Operator>, context: Context, name: string)
    requires forall op :: op in ops ==> |op.operands| == op.kind.Arity()
    requires forall k :: 0 <= k < |ops| && ops[k].handle != "" ==> ops[k].handle != name
    ensures ValueOf(ops, context, name) == context.holds(name)
    decreases |ops|
  {
    if ops != [] {
      Unwritten(ops[..|ops| - 1], context, name);
    }
  }

  /** The last operator that writes a name leaves there what its kind does with what its operands stood for before; a
      name that no operator writes keeps what it held. */
  lemma {:induction false} LastWriterDecides(ops: seq<Operator>, context: Context, name: string, k: nat)
    requires forall op :: op in ops ==> |op.operands| == op.kind.Arity()
    requires k < |ops| && ops[k].handle == name != "" && forall j :: k < j < |ops| ==> ops[j].handle != name
    ensures Does(ops[k].kind, ValuesOf(ops[..k], context, ops[k].operands, ops[k].kind.Arity()),
                 ValueOf(ops, context, name))
    decreases |ops|
  {
    var n := |ops| - 1;
    if k == n {
      EvaluateDoes(ops[k].kind, ValuesOf(ops[..k], context, ops[k].operands, ops[k].kind.Arity()));
    } else {
      LastWriterDecides(ops[..n], context, name, k);
      assert ops[..n][..k] == ops[..k];
    }
  }

  /** Some variable of the graph has the name. */
  predicate HasVariable(g: seq<GenVar>, name: string) {
    exists i :: 0 <= i < |g| && g[i].name == name && !g[i].column
  }

  /** The last of its name: what the name stands for. */
  predicate Latest(g: seq<GenVar>, i: nat) {
    i < |g| && forall j :: i < j < |g| ==> g[j].name != g[i].name
  }

  /** Only a column can be succeeded, by one variable of its name; a variable no link fills is the client's. */
  predicate WellNamed(g: seq<GenVar>, context: Context) {
    && (forall i, j :: 0 <= i < j < |g| && g[i].name == g[j].name ==> g[i].column && !g[j].column)
    && (forall i :: 0 <= i < |g| ==> g[i].column ==> !context.variable(g[i].name))
  }

  /** The graph says of every name it knows what running the operators in order says. */
  ghost predicate Represents(g: seq<GenVar>, ops: seq<Operator>, context: Context) {
    && WellFormed(g) && WellNamed(g, context)
    && (forall op :: op in ops ==> |op.operands| == op.kind.Arity())
    && (forall i :: 0 <= i < |g| && Latest(g, i) ==> Meaning(g, i) == ValueOf(ops, context, g[i].name))
    && (forall k :: 0 <= k < |ops| && ops[k].handle != "" ==> HasVariable(g, ops[k].handle))
  }

  lemma VariablesKept(g: seq<GenVar>, v: GenVar, name: string)
    ensures HasVariable(g + [v], name) <==> HasVariable(g, name) || (v.name == name && !v.column)
  {
    var g' := g + [v];
    if HasVariable(g, name) {
      var i :| 0 <= i < |g| && g[i].name == name && !g[i].column;
      assert g'[i] == g[i];
    }
    assert g'[|g|] == v;
  }

  lemma InputAdded(g: seq<GenVar>, ops: seq<Operator>, context: Context, v: GenVar)
    requires Represents(g, ops, context) && forall i :: 0 <= i < |g| ==> g[i].name != v.name
    requires v.parent == None && v.given == context.holds(v.name) && (v.column ==> !context.variable(v.name))
    ensures Represents(g + [v], ops, context)
  {
    var g' := g + [v];
    assert forall i :: 0 <= i < |g| ==> g'[i] == g[i];
    forall i: nat | Latest(g', i)
      ensures Meaning(g', i) == ValueOf(ops, context, g'[i].name)
    {
      if i < |g| {
        MeaningKept(g, [v], i);
        assert Latest(g, i);
      } else {
        assert forall k :: 0 <= k < |ops| && ops[k].handle != "" ==> HasVariable(g, ops[k].handle);
        Unwritten(ops, context, v.name);
      }
    }
    forall k | 0 <= k < |ops| && ops[k].handle != ""
      ensures HasVariable(g', ops[k].handle)
    {
      VariablesKept(g, v, ops[k].handle);
    }
  }

  ghost predicate OperandsAt(g: seq<GenVar>, op: Operator, inputs: seq<nat>) {
    |inputs| == |op.operands| == op.kind.Arity()
    && forall k :: 0 <= k < |inputs| ==> Latest(g, inputs[k]) && g[inputs[k]].name == op.operands[k]
  }

  lemma OldMeaningsKept(g: seq<GenVar>, ops: seq<Operator>, context: Context, op: Operator, v: GenVar)
    requires Represents(g, ops, context) && WellFormed(g + [v]) && |op.operands| == op.kind.Arity()
    requires op.handle != "" && v.name == op.handle
    ensures forall i: nat :: i < |g| && Latest(g + [v], i) ==>
      Meaning(g + [v], i) == ValueOf(ops + [op], context, g[i].name)
  {
    var g', ops' := g + [v], ops + [op];
    assert ops'[..|ops'| - 1] == ops && g'[|g|] == v;
    forall i: nat | i < |g| && Latest(g', i)
      ensures Meaning(g', i) == ValueOf(ops', context, g[i].name)
    {
      MeaningKept(g, [v], i);
      assert g'[i] == g[i];
      assert forall j :: i < j < |g| ==> g'[j] == g[j];
      assert Latest(g, i) && g[i].name != op.handle;
    }
  }

  lemma NewMeaning(g: seq<GenVar>, ops: seq<Operator>, context: Context, op: Operator, inputs: seq<nat>)
    requires Represents(g, ops, context) && OperandsAt(g, op, inputs) && op.handle != ""
    requires forall o :: o in ops + [op] ==> |o.operands| == o.kind.Arity()
    requires WellFormed(g + [GenVar(op.handle, false, Some(Link(op.kind, inputs)), Unset)])
    ensures Meaning(g + [GenVar(op.handle, false, Some(Link(op.kind, inputs)), Unset)], |g|)
         == ValueOf(ops + [op], context, op.handle)
  {
    var v := GenVar(op.handle, false, Some(Link(op.kind, inputs)), Unset);
    var n := |g|;
    forall k | 0 <= k < |inputs|
      ensures Meaning(g + [v], inputs[k]) == ValueOf(ops, context, op.operands[k])
    {
      MeaningKept(g, [v], inputs[k]);
    }
    assert (ops + [op])[..|ops|] == ops;
    assert MeaningOf(g + [v], n, inputs, op.kind.Arity()) == ValuesOf(ops, context, op.operands, op.kind.Arity());
  }

  lemma LinkAdded(g: seq<GenVar>, ops: seq<Operator>, context: Context, op: Operator, inputs: seq<nat>)
    requires Represents(g, ops, context) && OperandsAt(g, op, inputs)
    requires op.handle != "" && !HasVariable(g, op.handle)
    ensures Represents(g + [GenVar(op.handle, false, Some(Link(op.kind, inputs)), Unset)], ops + [op], context)
  {
    var v := GenVar(op.handle, false, Some(Link(op.kind, inputs)), Unset);
    var g', ops' := g + [v], ops + [op];
    var n := |g|;
    assert forall i :: 0 <= i < n ==> g'[i] == g[i];
    AllMeanings(g, ops, context, op, inputs, g', ops');
    StillNamed(g, context, v);
    HandlesKept(g, v, ops, op);
  }

  lemma AllMeanings(g: seq<GenVar>, ops: seq<Operator>, context: Context, op: Operator, inputs: seq<nat>,
                    g': seq<GenVar>, ops': seq<Operator>)
    requires Represents(g, ops, context) && OperandsAt(g, op, inputs) && op.handle != ""
    requires g' == g + [GenVar(op.handle, false, Some(Link(op.kind, inputs)), Unset)] && WellFormed(g')
    requires ops' == ops + [op] && forall o :: o in ops' ==> |o.operands| == o.kind.Arity()
    ensures forall i :: 0 <= i < |g'| && Latest(g', i) ==> Meaning(g', i) == ValueOf(ops', context, g'[i].name)
  {
    OldMeaningsKept(g, ops, context, op, g'[|g|]);
    NewMeaning(g, ops, context, op, inputs);
    assert forall i :: 0 <= i < |g| ==> g'[i] == g[i];
  }

  lemma StillNamed(g: seq<GenVar>, context: Context, v: GenVar)
    requires WellNamed(g, context) && !v.column && !HasVariable(g, v.name)
    ensures WellNamed(g + [v], context)
  {
  }

  lemma HandlesKept(g: seq<GenVar>, v: GenVar, ops: seq<Operator>, op: Operator)
    requires forall k :: 0 <= k < |ops| && ops[k].handle != "" ==> HasVariable(g, ops[k].handle)
    requires v.name == op.handle && !v.column
    ensures forall k :: 0 <= k < |ops + [op]| && (ops + [op])[k].handle != "" ==>
      HasVariable(g + [v], (ops + [op])[k].handle)
  {
    var ops' := ops + [op];
    forall k | 0 <= k < |ops'|
      ensures HasVariable(g + [v], ops'[k].handle) || ops'[k].handle == ""
    {
      VariablesKept(g, v, ops'[k].handle);
    }
  }

  predicate DepthsKnown(g: seq<GenVar>, depth: seq<int>, n: nat)
    requires WellFormed(g) && n <= |g| && n <= |depth|
  {
    forall i :: 0 <= i < n ==> depth[i] == Depth(g, i)
  }

  lemma DepthsKept(g: seq<GenVar>, v: GenVar, depth: seq<int>, d: int)
    requires WellFormed(g) && WellFormed(g + [v]) && |depth| == |g| && DepthsKnown(g, depth, |g|)
    ensures DepthsKnown(g + [v], depth + [d], |g|)
  {
    forall j: nat | j < |g|
      ensures Depth(g + [v], j) == depth[j]
    {
      DepthKept(g, [v], j);
    }
  }

  class Graph {
    var variables: seq<GenVar>
    var depth: seq<int>
    const context: Context

    /** depth holds -1 where it was not computed yet. */
    ghost predicate Valid()
      reads this
    {
      WellFormed(variables) && |depth| == |variables| && DepthsKnown(variables, depth, |depth|)
    }

    constructor (context: Context)
      ensures Valid() && variables == [] && this.context == context
      ensures Represents(variables, [], context)
    {
      variables, depth := [], [];
      this.context := context;
    }

    /** Fills in the depth of i, and of what it needs, where it is not known yet. */
    method CalculateDepth(i: nat)
      requires WellFormed(variables) && i < |depth| == |variables|
      requires forall j :: 0 <= j <= i ==> depth[j] == -1 || depth[j] == Depth(variables, j)
      modifies this`depth
      ensures |depth| == |variables| && depth[i] == Depth(variables, i)
      ensures forall j :: 0 <= j < i ==> depth[j] == old(depth[j]) || depth[j] == Depth(variables, j)
      ensures forall j :: i < j < |depth| ==> depth[j] == old(depth[j])
      decreases i
    {
      if depth[i] != -1 {
        return;
      }
      depth := depth[i := 0];
      if variables[i].parent.None? {
        return;
      }
      var link := variables[i].parent.value;
      assert LinkBelow(link, i);
      var parents := link.inputs;
      for k := 0 to |parents|
        invariant |depth| == |variables|
        invariant forall j :: 0 <= j < i ==>
          (depth[j] == old(depth[j]) || depth[j] == Depth(variables, j))
        invariant forall j :: i < j < |depth| ==> depth[j] == old(depth[j])
        invariant k == 0 ==> depth[i] == 0
        invariant k == 1 ==> depth[i] == 1 + Depth(variables, parents[0])
        invariant k == 2 ==> depth[i] == 1 + Larger(Depth(variables, parents[0]), Depth(variables, parents[1]))
      {
        CalculateDepth(parents[k]);
        var compare := 1 + depth[parents[k]];
        if compare > depth[i] {
          depth := depth[i := compare];
        }
      }
    }

    /** Whether the client's variables include the name by now. */
    predicate IsVariable(name: string)
      reads this
    {
      context.variable(name) || HasVariable(variables, name)
    }

    /** What the name stands for, added as an input if the graph does not have it. */
    method AddVar(name: string, ghost ops: seq<Operator>) returns (i: nat)
      requires Valid() && Represents(variables, ops, context)
      modifies this
      ensures Valid() && Represents(variables, ops, context)
      ensures Latest(variables, i) && variables[i].name == name && variables[i].column == !old(IsVariable(name))
      ensures old(variables) <= variables
      ensures forall j: nat :: old(Latest(variables, j)) ==> Latest(variables, j)
      ensures forall other: string ::
        HasVariable(variables, other) <==>
          old(HasVariable(variables, other)) || (other == name && context.variable(name))
    {
      var column := !IsVariable(name);
      for k := 0 to |variables|
        invariant forall j :: 0 <= j < k ==> variables[j].name != name || variables[j].column != column
      {
        if variables[k].name == name && variables[k].column == column {
          return k;
        }
      }
      var v := GenVar(name, column, None, context.holds(name));
      InputAdded(variables, ops, context, v);
      DepthsKept(variables, v, depth, 0);
      forall other: string
        ensures HasVariable(variables + [v], other) <==>
          HasVariable(variables, other) || (other == name && context.variable(name))
      {
        VariablesKept(variables, v, other);
      }
      variables, depth := variables + [v], depth + [0];
      return |variables| - 1;
    }

    /** The new variable an operator writes. */
    method AddNewVar(op: Operator, inputs: seq<nat>, ghost ops: seq<Operator>)
      requires Valid() && Represents(variables, ops, context) && OperandsAt(variables, op, inputs)
      requires op.handle != "" && !HasVariable(variables, op.handle)
      modifies this
      ensures Valid() && Represents(variables, ops + [op], context)
      ensures variables == old(variables) + [GenVar(op.handle, false, Some(Link(op.kind, inputs)), Unset)]
    {
      LinkAdded(variables, ops, context, op, inputs);
      Append(GenVar(op.handle, false, Some(Link(op.kind, inputs)), Unset));
    }

    method Append(v: GenVar)
      requires Valid() && WellFormed(variables + [v])
      modifies this
      ensures Valid() && variables == old(variables) + [v]
    {
      DepthsKept(variables, v, depth, -1);
      variables, depth := variables + [v], depth + [-1];
      CalculateDepth(|variables| - 1);
    }

    /** Adds one operator of the batch, unless creating its variable would delete one that the graph uses. */
    method AddOperator(op: Operator, ghost ops: seq<Operator>) returns (ok: bool)
      requires Valid() && Represents(variables, ops, context)
      requires |op.operands| == op.kind.Arity()
      modifies this
      ensures ok <==> op.handle == "" || !old(Deletes(variables, context, op))
      ensures ok ==> Valid() && Represents(variables, ops + [op], context)
      ensures op.handle == "" ==> variables == old(variables)
      ensures ok && op.handle != "" ==> forall name: string ::
        HasVariable(variables, name) <==> old(HasVariable(variables, name)) || Uses(op, context, name)
    {
      if op.handle == "" {
        Skipped(variables, ops, context, op);
        return true;
      }
      var inputs := AddOperands(op, ops);
      if HasVariable(variables, op.handle) {
        return false;
      }
      ghost var g := variables;
      AddNewVar(op, inputs, ops);
      forall name: string
        ensures HasVariable(variables, name) <==> HasVariable(g, name) || name == op.handle
      {
        VariablesKept(g, GenVar(op.handle, false, Some(Link(op.kind, inputs)), Unset), name);
      }
      return true;
    }

    /** The one or two operands of an operator. */
    method AddOperands(op: Operator, ghost ops: seq<Operator>) returns (inputs: seq<nat>)
      requires Valid() && Represents(variables, ops, context)
      requires |op.operands| == op.kind.Arity()
      modifies this
      ensures Valid() && Represents(variables, ops, context) && OperandsAt(variables, op, inputs)
      ensures forall name: string ::
        HasVariable(variables, name) <==>
          old(HasVariable(variables, name)) || (name in op.operands && context.variable(name))
    {
      var first := AddVar(op.operands[0], ops);
      inputs := [first];
      if op.kind.Arity() == 2 {
        var second := AddVar(op.operands[1], ops);
        inputs := [first, second];
      }
    }
  }

  /** The operator writes the name, or reads the client's variable of that name. */
  predicate Uses(op: Operator, context: Context, name: string) {
    op.handle != "" && (op.handle == name || (name in op.operands && context.variable(name)))
  }

  /** The operator's handle names a variable that the graph has, or gets with the operator's operands. */
  predicate Deletes(g: seq<GenVar>, context: Context, op: Operator) {
    HasVariable(g, op.handle) || (op.handle in op.operands && context.variable(op.handle))
  }

  lemma Skipped(g: seq<GenVar>, ops: seq<Operator>, context: Context, op: Operator)
    requires Represents(g, ops, context) && op.handle == "" && |op.operands| == op.kind.Arity()
    ensures Represents(g, ops + [op], context)
  {
    assert (ops + [op])[..|ops|] == ops;
  }

  predicate Used(ops: seq<Operator>, context: Context, name: string) {
    exists k :: 0 <= k < |ops| && Uses(ops[k], context, name)
  }

  /** The operator's handle names a variable that the batch has used: an earlier handle, or a variable of the client
      that an earlier operator or this one reads. */
  predicate Clashes(before: seq<Operator>, op: Operator, context: Context) {
    op.handle != "" && (Used(before, context, op.handle) || (op.handle in op.operands && context.variable(op.handle)))
  }

  predicate SafeHandles(ops: seq<Operator>, context: Context) {
    SafeUpTo(ops, |ops|, context)
  }

  predicate SafeUpTo(ops: seq<Operator>, n: nat, context: Context)
    requires n <= |ops|
  {
    n == 0 || (SafeUpTo(ops, n - 1, context) && !Clashes(ops[..n - 1], ops[n - 1], context))
  }

  lemma {:induction false} SafeLess(ops: seq<Operator>, n: nat, m: nat, context: Context)
    requires n <= m <= |ops| && SafeUpTo(ops, m, context)
    ensures SafeUpTo(ops, n, context)
  {
    if n < m {
      SafeLess(ops, n, m - 1, context);
    }
  }

  lemma UsedMore(ops: seq<Operator>, op: Operator, context: Context, name: string)
    ensures Used(ops + [op], context, name) <==> Used(ops, context, name) || Uses(op, context, name)
  {
    var ops' := ops + [op];
    if Used(ops, context, name) {
      var k :| 0 <= k < |ops| && Uses(ops[k], context, name);
      assert ops'[k] == ops[k];
    }
    assert ops'[|ops|] == op;
  }

  /** The variables of the graph are those the operators have used. */
  ghost predicate HasUsed(g: seq<GenVar>, ops: seq<Operator>, context: Context) {
    forall name: string {:trigger Used(ops, context, name)} :: HasVariable(g, name) <==> Used(ops, context, name)
  }

  /** The graph of a whole batch, or false when some handle would delete a variable that the graph uses. */
  method BuildGraph(ops: seq<Operator>, context: Context) returns (graph: Graph, ok: bool)
    requires forall op :: op in ops ==> |op.operands| == op.kind.Arity()
    ensures ok <==> SafeHandles(ops, context)
    ensures ok ==> graph.Valid() && Represents(graph.variables, ops, context)
  {
    graph := new Graph(context);
    ghost var before := [];
    for k := 0 to |ops|
      invariant before == ops[..k] && graph.Valid() && graph.context == context && fresh(graph)
      invariant Represents(graph.variables, before, context) && HasUsed(graph.variables, before, context)
      invariant SafeUpTo(ops, k, context)
    {
      ok := NextOperator(graph, ops[k], before);
      before := before + [ops[k]];
      if !ok {
        if SafeHandles(ops, context) {
          SafeLess(ops, k + 1, |ops|, context);
        }
        return;
      }
    }
    assert before == ops;
    return graph, true;
  }

  /** Adds one operator to the graph of those before it. */
  method NextOperator(graph: Graph, op: Operator, ghost ops: seq<Operator>) returns (ok: bool)
    requires graph.Valid() && Represents(graph.variables, ops, graph.context) && |op.operands| == op.kind.Arity()
    requires HasUsed(graph.variables, ops, graph.context)
    modifies graph
    ensures ok <==> !Clashes(ops, op, graph.context)
    ensures ok ==> graph.Valid() && Represents(graph.variables, ops + [op], graph.context)
    ensures ok ==> HasUsed(graph.variables, ops + [op], graph.context)
  {
    ok := graph.AddOperator(op, ops);
    if ok {
      forall name: string
        ensures HasVariable(graph.variables, name) <==> Used(ops + [op], graph.context, name)
      {
        UsedMore(ops, op, graph.context, name);
      }
    }
  }

  // ----- program order -----

  /** The variables' contents before the batch runs. */
  function Initial(g: seq<GenVar>): (r: seq<Value>)
    ensures |r| == |g| && forall i :: 0 <= i < |g| ==> r[i] == if g[i].parent.None? then g[i].given else Unset
  {
    if g == [] then []
    else Initial(g[..|g| - 1]) + [if g[|g| - 1].parent.None? then g[|g| - 1].given else Unset]
  }

  /** execute_full_link, all at once. */
  function Executed(g: seq<GenVar>, store: seq<Value>, i: nat): (r: seq<Value>)
    requires WellFormed(g) && i < |g| == |store| && g[i].parent.Some?
    ensures |r| == |g|
  {
    var l := g[i].parent.value;
    assert LinkBelow(l, i);
    store[i := Evaluate(l.kind, seq(l.kind.Arity(), k requires 0 <= k < l.kind.Arity() => store[l.inputs[k]]))]
  }

  lemma ExecutedMeans(g: seq<GenVar>, store: seq<Value>, i: nat)
    requires WellFormed(g) && i < |g| == |store| && g[i].parent.Some?
    requires forall k :: 0 <= k < |g[i].parent.value.inputs| ==>
      g[i].parent.value.inputs[k] < |g| && store[g[i].parent.value.inputs[k]] == Meaning(g, g[i].parent.value.inputs[k])
    ensures Executed(g, store, i)[i] == Meaning(g, i)
  {
    var l := g[i].parent.value;
    assert seq(l.kind.Arity(), k requires 0 <= k < l.kind.Arity() => store[l.inputs[k]])
        == MeaningOf(g, i, l.inputs, l.kind.Arity());
  }

  /** execute_no_heuristic: every link in list order. */
  method ExecuteNoHeuristic(g: seq<GenVar>) returns (store: seq<Value>)
    requires WellFormed(g)
    ensures |store| == |g| && forall i :: 0 <= i < |g| ==> store[i] == Meaning(g, i)
  {
    store := Initial(g);
    for i := 0 to |g|
      invariant |store| == |g|
      invariant forall j :: 0 <= j < i ==> store[j] == Meaning(g, j)
      invariant forall j :: i <= j < |g| && g[j].parent.None? ==> store[j] == g[j].given
    {
      if g[i].parent.Some? {
        assert LinkBelow(g[i].parent.value, i);
        ExecutedMeans(g, store, i);
        store := Executed(g, store, i);
      }
    }
  }

  // ----- sorting by depth -----

  /** The variables of depth d, in list order. */
  function AtDepth(vars: seq<nat>, depth: seq<int>, d: int): seq<nat> {
    if vars == [] then []
    else
      var v, before := vars[|vars| - 1], AtDepth(vars[..|vars| - 1], depth, d);
      if v < |depth| && depth[v] == d then before + [v] else before
  }

  lemma {:induction false} AtDepthOfSum(a: seq<nat>, b: seq<nat>, depth: seq<int>, d: int)
    ensures AtDepth(a + b, depth, d) == AtDepth(a, depth, d) + AtDepth(b, depth, d)
    decreases |b|
  {
    if b == [] {
      assert a + b == a;
    } else {
      AtDepthOfSum(a, b[..|b| - 1], depth, d);
      assert (a + b)[..|a + b| - 1] == a + b[..|b| - 1];
    }
  }

  predicate SortedTo(vars: seq<nat>, depth: seq<int>, n: nat)
    requires n <= |vars| && forall k :: 0 <= k < n ==> vars[k] < |depth|
  {
    forall j, k :: 0 <= j < k < n ==> depth[vars[j]] <= depth[vars[k]]
  }

  predicate InGraph(vars: seq<nat>, depth: seq<int>) {
    forall k :: 0 <= k < |vars| ==> vars[k] < |depth|
  }

  ghost predicate SameAtDepths(vars: seq<nat>, vars': seq<nat>, depth: seq<int>) {
    forall d :: AtDepth(vars, depth, d) == AtDepth(vars', depth, d)
  }

  lemma SameTwice(a: seq<nat>, b: seq<nat>, c: seq<nat>, depth: seq<int>)
    requires SameAtDepths(a, b, depth) && SameAtDepths(b, c, depth)
    ensures SameAtDepths(a, c, depth)
  {
    forall d
      ensures AtDepth(a, depth, d) == AtDepth(c, depth, d)
    {
      assert AtDepth(a, depth, d) == AtDepth(b, depth, d);
    }
  }

  /** Variable i moved down to place t, with those from t on moved up by one. */
  function Inserted(vars: seq<nat>, t: nat, i: nat): (r: seq<nat>)
    requires t <= i < |vars|
    ensures |r| == |vars|
    ensures forall k {:trigger r[k]} :: 0 <= k < |vars| ==>
      r[k] == (if k < t || k > i then vars[k] else if k == t then vars[i] else vars[k - 1])
  {
    vars[..t] + ([vars[i]] + vars[t..i]) + vars[i + 1..]
  }

  /** t is where variable i belongs: the variables from t on are deeper, the one before t is not. */
  predicate Place(vars: seq<nat>, depth: seq<int>, t: nat, i: nat) {
    && t <= i < |vars| && InGraph(vars, depth)
    && (forall k :: t <= k < i ==> depth[vars[k]] > depth[vars[i]])
    && (t > 0 ==> depth[vars[t - 1]] <= depth[vars[i]])
  }

  lemma {:induction false} NoneAt(vars: seq<nat>, depth: seq<int>, d: int)
    requires forall k :: 0 <= k < |vars| ==> vars[k] < |depth| && depth[vars[k]] != d
    ensures AtDepth(vars, depth, d) == []
    decreases |vars|
  {
    if vars != [] {
      NoneAt(vars[..|vars| - 1], depth, d);
    }
  }

  /** A variable and deeper ones after it, in either order, show the same at every depth. */
  lemma DeeperCommute(v: nat, deeper: seq<nat>, depth: seq<int>, d: int)
    requires v < |depth| && forall k :: 0 <= k < |deeper| ==> deeper[k] < |depth| && depth[deeper[k]] > depth[v]
    ensures AtDepth([v] + deeper, depth, d) == AtDepth(deeper + [v], depth, d)
  {
    AtDepthOfSum([v], deeper, depth, d);
    AtDepthOfSum(deeper, [v], depth, d);
    if d == depth[v] {
      NoneAt(deeper, depth, d);
    } else {
      NoneAt([v], depth, d);
    }
  }

  lemma MiddleReplaced(a: seq<nat>, mid: seq<nat>, mid': seq<nat>, b: seq<nat>, depth: seq<int>, d: int)
    requires AtDepth(mid, depth, d) == AtDepth(mid', depth, d)
    ensures AtDepth(a + mid + b, depth, d) == AtDepth(a + mid' + b, depth, d)
  {
    AtDepthOfSum(a + mid, b, depth, d);
    AtDepthOfSum(a, mid, depth, d);
    AtDepthOfSum(a + mid', b, depth, d);
    AtDepthOfSum(a, mid', depth, d);
  }

  lemma InsertionUnseen(vars: seq<nat>, depth: seq<int>, t: nat, i: nat)
    requires Place(vars, depth, t, i)
    ensures SameAtDepths(Inserted(vars, t, i), vars, depth)
  {
    var a, mid, v, b := vars[..t], vars[t..i], vars[i], vars[i + 1..];
    assert vars == a + (mid + [v]) + b;
    forall d
      ensures AtDepth(Inserted(vars, t, i), depth, d) == AtDepth(vars, depth, d)
    {
      DeeperCommute(v, mid, depth, d);
      MiddleReplaced(a, [v] + mid, mid + [v], b, depth, d);
    }
  }

  lemma InsertionSorts(vars: seq<nat>, depth: seq<int>, t: nat, i: nat)
    requires Place(vars, depth, t, i) && SortedTo(vars, depth, i)
    ensures InGraph(Inserted(vars, t, i), depth) && SortedTo(Inserted(vars, t, i), depth, i + 1)
  {
    assert forall k :: 0 <= k < t ==> depth[vars[k]] <= depth[vars[i]];
  }

  /** The inner loop: moves vars[i] down past the deeper variables before it. */
  method Insert(vars: array<nat>, depth: seq<int>, i: nat) returns (ghost t: nat)
    requires 0 < i < vars.Length && InGraph(vars[..], depth)
    modifies vars
    ensures Place(old(vars[..]), depth, t, i) && vars[..] == Inserted(old(vars[..]), t, i)
  {
    ghost var was := vars[..];
    var gv := vars[i];
    var j := i - 1;
    while j >= 0 && depth[vars[j]] > depth[gv]
      invariant -1 <= j < i
      invariant forall k :: 0 <= k <= j || i < k < vars.Length ==> vars[k] == was[k]
      invariant forall k {:trigger was[k]} :: j < k < i ==> vars[k + 1] == was[k] && depth[was[k]] > depth[gv]
    {
      vars[j + 1] := vars[j];
      j := j - 1;
    }
    vars[j + 1] := gv;
    t := j + 1;
    assert vars[..] == Inserted(was, t, i);
  }

  /** sort_dep_graph with depth_comparison: by depth, and at each depth in the order they had. */
  method SortDepGraph(vars: array<nat>, depth: seq<int>)
    requires InGraph(vars[..], depth)
    modifies vars
    ensures InGraph(vars[..], depth) && SortedTo(vars[..], depth, vars.Length)
    ensures SameAtDepths(vars[..], old(vars[..]), depth)
  {
    var i := 1;
    while i < vars.Length
      invariant 1 <= i && (i <= vars.Length || vars.Length == 0)
      invariant InGraph(vars[..], depth) && (i <= vars.Length ==> SortedTo(vars[..], depth, i))
      invariant SameAtDepths(vars[..], old(vars[..]), depth)
    {
      ghost var before := vars[..];
      ghost var t := Insert(vars, depth, i);
      InsertionUnseen(before, depth, t, i);
      InsertionSorts(before, depth, t, i);
      SameTwice(vars[..], before, old(vars[..]), depth);
      i := i + 1;
    }
  }
}
