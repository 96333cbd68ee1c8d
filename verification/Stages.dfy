/** execute_breadth_heuristic: the graph's variables, sorted by depth, are handed to the thread pool stage by
    stage; within a stage the links run in any interleaving of their reads and writes. */
module Stages {
  import opened Options
  import opened Columns
  import opened DepGraph
  import opened Batch
  import opened Counting

  /** Where a link is: not handed out, in the pool's queue, running with the operands it has read, or finished. */
  datatype Phase = Untouched | Queued | Running(seen: seq<Value>) | Done

  datatype State = State(pos: nat, stage: nat, phase: seq<Phase>, store: seq<Value>)

  datatype Action =
    | Dispatch                       // the main loop takes the next variable
    | Begin(i: nat)                  // a worker starts link i
    | Read(i: nat)                   // link i reads its next operand
    | Scribble(i: nat, part: Value)  // link i writes something unfinished into its output
    | Finish(i: nat)                 // link i completes its output

  predicate Active(p: Phase) {
    p.Queued? || p.Running?
  }

  /** What wait_thread_pool waits for. */
  predicate Idle(st: State) {
    forall i :: 0 <= i < |st.phase| ==> !Active(st.phase[i])
  }

  predicate Finished(g: seq<GenVar>, st: State) {
    st.pos == |g| && Idle(st)
  }

  /** Every variable once, by depth. */
  ghost predicate DepthOrder(g: seq<GenVar>, order: seq<nat>)
    requires WellFormed(g)
  {
    && |order| == |g|
    && (forall p :: 0 <= p < |order| ==> order[p] < |g|)
    && (forall i :: 0 <= i < |g| ==> i in order)
    && (forall p, q :: 0 <= p < q < |order| ==> order[p] != order[q] && Depth(g, order[p]) <= Depth(g, order[q]))
  }

  ghost predicate Fits(g: seq<GenVar>, order: seq<nat>, st: State) {
    WellFormed(g) && DepthOrder(g, order) && |st.phase| == |st.store| == |g| && st.pos <= |g|
  }

  predicate Busy(g: seq<GenVar>, st: State, i: nat) {
    i < |g| && i < |st.phase| && st.phase[i].Running? && g[i].parent.Some?
  }

  ghost predicate Enabled(g: seq<GenVar>, order: seq<nat>, st: State, a: Action)
    requires Fits(g, order, st)
  {
    match a
    case Dispatch => st.pos < |g| && (st.stage == Depth(g, order[st.pos]) || Idle(st))
    case Begin(i) => i < |g| && st.phase[i].Queued?
    case Read(i) => Busy(g, st, i) && |st.phase[i].seen| < |g[i].parent.value.inputs|
    case Scribble(i, _) => Busy(g, st, i)
    case Finish(i) => Busy(g, st, i) && |st.phase[i].seen| == |g[i].parent.value.inputs|
  }

  ghost function Next(g: seq<GenVar>, order: seq<nat>, st: State, a: Action): (st': State)
    requires Fits(g, order, st) && Enabled(g, order, st, a)
    ensures Fits(g, order, st')
  {
    match a
    case Dispatch =>
      var gv := order[st.pos];
      State(st.pos + 1, Depth(g, gv), if Depth(g, gv) != 0 then st.phase[gv := Queued] else st.phase, st.store)
    case Begin(i) => st.(phase := st.phase[i := Running([])])
    case Read(i) =>
      var seen := st.phase[i].seen;
      var l := g[i].parent.value;
      assert LinkBelow(l, i);
      st.(phase := st.phase[i := Running(seen + [st.store[l.inputs[|seen|]]])])
    case Scribble(i, part) => st.(store := st.store[i := part])
    case Finish(i) =>
      assert LinkBelow(g[i].parent.value, i);
      st.(phase := st.phase[i := Done], store := st.store[i := Evaluate(g[i].parent.value.kind, st.phase[i].seen)])
  }

  function Start(g: seq<GenVar>): State {
    State(0, 0, seq(|g|, _ => Untouched), Initial(g))
  }

  // ----- the invariant -----

  ghost predicate LinkInvariant(g: seq<GenVar>, st: State, i: nat)
    requires WellFormed(g) && i < |g| == |st.phase| == |st.store|
  {
    && (g[i].parent.None? ==> st.phase[i] == Untouched && st.store[i] == g[i].given)
    && (st.phase[i].Done? ==> st.store[i] == Meaning(g, i))
    && (Active(st.phase[i]) ==> Depth(g, i) == st.stage)
    && (st.phase[i].Running? && g[i].parent.Some? ==> SeenRightly(g, i, g[i].parent.value, st.phase[i].seen))
  }

  ghost predicate SeenRightly(g: seq<GenVar>, i: nat, l: Link, seen: seq<Value>)
    requires WellFormed(g) && i <= |g|
  {
    LinkBelow(l, i) && |seen| <= |l.inputs| && forall k :: 0 <= k < |seen| ==> seen[k] == Meaning(g, l.inputs[k])
  }

  /** What every state of every run satisfies. */
  ghost predicate Invariant(g: seq<GenVar>, order: seq<nat>, st: State) {
    && Fits(g, order, st)
    && (forall i :: 0 <= i < |g| ==> LinkInvariant(g, st, i))
    && (forall p :: 0 <= p < st.pos ==>
          Depth(g, order[p]) <= st.stage && (g[order[p]].parent.Some? ==> st.phase[order[p]] != Untouched))
    && (forall p :: st.pos <= p < |g| ==> Depth(g, order[p]) >= st.stage && st.phase[order[p]] == Untouched)
  }

  /** A variable shallower than the current stage already holds its final value. */
  lemma ShallowerIsReady(g: seq<GenVar>, order: seq<nat>, st: State, i: nat)
    requires Invariant(g, order, st) && i < |g| && Depth(g, i) < st.stage
    ensures st.store[i] == Meaning(g, i)
  {
    assert i in order;
    var p :| 0 <= p < |order| && order[p] == i;
    assert p < st.pos;
    assert LinkInvariant(g, st, i);
  }

  lemma DispatchKeeps(g: seq<GenVar>, order: seq<nat>, st: State)
    requires Invariant(g, order, st) && Enabled(g, order, st, Dispatch)
    ensures Invariant(g, order, Next(g, order, st, Dispatch))
  {
    var st' := Next(g, order, st, Dispatch);
    var gv := order[st.pos];
    forall i: nat | i < |g|
      ensures LinkInvariant(g, st', i)
    {
      assert LinkInvariant(g, st, i);
    }
  }

  lemma ReadKeeps(g: seq<GenVar>, order: seq<nat>, st: State, i: nat)
    requires Invariant(g, order, st) && Enabled(g, order, st, Read(i))
    ensures Invariant(g, order, Next(g, order, st, Read(i)))
  {
    var st' := Next(g, order, st, Read(i));
    assert LinkInvariant(g, st, i);
    var l, seen := g[i].parent.value, st.phase[i].seen;
    OperandsAreShallower(g, i, |seen|);
    ShallowerIsReady(g, order, st, l.inputs[|seen|]);
    forall j: nat | j < |g|
      ensures LinkInvariant(g, st', j)
    {
      assert LinkInvariant(g, st, j);
    }
  }

  lemma FinishKeeps(g: seq<GenVar>, order: seq<nat>, st: State, i: nat)
    requires Invariant(g, order, st) && Enabled(g, order, st, Finish(i))
    ensures Invariant(g, order, Next(g, order, st, Finish(i)))
  {
    var st' := Next(g, order, st, Finish(i));
    assert LinkInvariant(g, st, i);
    var l := g[i].parent.value;
    assert st.phase[i].seen == MeaningOf(g, i, l.inputs, l.kind.Arity());
    forall j: nat | j < |g|
      ensures LinkInvariant(g, st', j)
    {
      assert LinkInvariant(g, st, j);
    }
  }

  lemma WorkerKeeps(g: seq<GenVar>, order: seq<nat>, st: State, a: Action)
    requires Invariant(g, order, st) && Enabled(g, order, st, a) && (a.Begin? || a.Scribble?)
    ensures Invariant(g, order, Next(g, order, st, a))
  {
    var st' := Next(g, order, st, a);
    forall j: nat | j < |g|
      ensures LinkInvariant(g, st', j)
    {
      assert LinkInvariant(g, st, j);
    }
  }

  lemma StepKeeps(g: seq<GenVar>, order: seq<nat>, st: State, a: Action)
    requires Invariant(g, order, st) && Enabled(g, order, st, a)
    ensures Invariant(g, order, Next(g, order, st, a))
  {
    match a
    case Dispatch => DispatchKeeps(g, order, st);
    case Read(i) => ReadKeeps(g, order, st, i);
    case Finish(i) => FinishKeeps(g, order, st, i);
    case _ => WorkerKeeps(g, order, st, a);
  }

  lemma StartInvariant(g: seq<GenVar>, order: seq<nat>)
    requires WellFormed(g) && DepthOrder(g, order)
    ensures Invariant(g, order, Start(g))
  {
  }

  // ----- whole runs -----

  ghost predicate Run(g: seq<GenVar>, order: seq<nat>, st: State, actions: seq<Action>, last: State)
    requires Fits(g, order, st)
    decreases |actions|
  {
    if actions == [] then last == st
    else Enabled(g, order, st, actions[0]) && Run(g, order, Next(g, order, st, actions[0]), actions[1..], last)
  }

  lemma {:induction false} RunKeeps(g: seq<GenVar>, order: seq<nat>, st: State, actions: seq<Action>, last: State)
    requires Invariant(g, order, st) && Run(g, order, st, actions, last)
    ensures Invariant(g, order, last)
    decreases |actions|
  {
    if actions != [] {
      StepKeeps(g, order, st, actions[0]);
      RunKeeps(g, order, Next(g, order, st, actions[0]), actions[1..], last);
    }
  }

  /** However the links of a stage interleave, a finished run leaves what program order leaves. */
  lemma EveryRunAgreesWithProgramOrder(g: seq<GenVar>, order: seq<nat>, actions: seq<Action>, last: State)
    requires WellFormed(g) && DepthOrder(g, order)
    requires Run(g, order, Start(g), actions, last) && Finished(g, last)
    ensures |last.store| == |g| && forall i :: 0 <= i < |g| ==> last.store[i] == Meaning(g, i)
  {
    StartInvariant(g, order);
    RunKeeps(g, order, Start(g), actions, last);
    forall i: nat | i < |g|
      ensures last.store[i] == Meaning(g, i)
    {
      assert i in order;
      assert LinkInvariant(g, last, i);
    }
  }

  /** What the name stands for in the graph holds v. */
  predicate Holds(g: seq<GenVar>, store: seq<Value>, name: string, v: Value) {
    |store| == |g| && exists i :: 0 <= i < |g| && Latest(g, i) && g[i].name == name && store[i] == v
  }

  lemma {:induction false} LatestOf(g: seq<GenVar>, name: string, n: nat) returns (i: nat)
    requires n <= |g| && (forall j :: n <= j < |g| ==> g[j].name != name) && HasVariable(g, name)
    ensures Latest(g, i) && g[i].name == name
  {
    if g[n - 1].name == name {
      i := n - 1;
    } else {
      i := LatestOf(g, name, n - 1);
    }
  }

  /** Every handle of the batch holds what running the operators in order leaves in it. */
  ghost predicate AllHeld(g: seq<GenVar>, store: seq<Value>, ops: seq<Operator>, context: Context)
    requires forall op :: op in ops ==> |op.operands| == op.kind.Arity()
  {
    forall k :: 0 <= k < |ops| && ops[k].handle != "" ==>
      Holds(g, store, ops[k].handle, ValueOf(ops, context, ops[k].handle))
  }

  /** Name by name: what a finished run leaves is what the operators, run in the order given, would have left. */
  lemma EveryRunComputesTheBatch(g: seq<GenVar>, ops: seq<Operator>, context: Context, order: seq<nat>,
                                 actions: seq<Action>, last: State)
    requires Represents(g, ops, context) && DepthOrder(g, order)
    requires Run(g, order, Start(g), actions, last) && Finished(g, last)
    ensures |last.store| == |g|
    ensures forall i :: 0 <= i < |g| && Latest(g, i) ==> last.store[i] == ValueOf(ops, context, g[i].name)
    ensures AllHeld(g, last.store, ops, context)
  {
    EveryRunAgreesWithProgramOrder(g, order, actions, last);
    forall k | 0 <= k < |ops| && ops[k].handle != ""
      ensures Holds(g, last.store, ops[k].handle, ValueOf(ops, context, ops[k].handle))
    {
      var i := LatestOf(g, ops[k].handle, |g|);
    }
  }

  /** Every finished run leaves in every handle of the batch what running the operators in order means. */
  ghost predicate ComputesBatch(g: seq<GenVar>, order: seq<nat>, ops: seq<Operator>, context: Context)
    requires WellFormed(g) && forall op :: op in ops ==> |op.operands| == op.kind.Arity()
  {
    && DepthOrder(g, order)
    && forall actions, last :: Run(g, order, Start(g), actions, last) && Finished(g, last) ==>
         AllHeld(g, last.store, ops, context)
  }

  /** A whole batch, from the operators to the sorted list of the graph's variables: it is planned exactly when no
      handle would delete a variable that the batch has used, and then every finished run of the stages computes it. */
  method PlanBatch(ops: seq<Operator>, context: Context) returns (graph: Graph, order: array<nat>, ok: bool)
    requires forall op :: op in ops ==> |op.operands| == op.kind.Arity()
    ensures ok <==> SafeHandles(ops, context)
    ensures ok ==> WellFormed(graph.variables) && ComputesBatch(graph.variables, order[..], ops, context)
  {
    graph, ok := BuildGraph(ops, context);
    if !ok {
      order := new nat[0];
      return;
    }
    order := SortedVariables(graph);
    PlannedRight(graph.variables, order[..], ops, context);
  }

  /** sort_dep_graph on the list of a graph. */
  method SortedVariables(graph: Graph) returns (order: array<nat>)
    requires graph.Valid()
    ensures fresh(order) && DepthOrder(graph.variables, order[..])
  {
    ghost var g, n := graph.variables, |graph.variables|;
    order := new nat[|graph.variables|](i => i);
    assert order[..] == Indices(n);
    SortDepGraph(order, graph.depth);
    SortedIsDepthOrder(g, graph.depth, order[..]);
  }

  lemma PlannedRight(g: seq<GenVar>, order: seq<nat>, ops: seq<Operator>, context: Context)
    requires Represents(g, ops, context) && DepthOrder(g, order)
    ensures ComputesBatch(g, order, ops, context)
  {
    forall actions, last | Run(g, order, Start(g), actions, last) && Finished(g, last)
      ensures AllHeld(g, last.store, ops, context)
    {
      EveryRunComputesTheBatch(g, ops, context, order, actions, last);
    }
  }

  // ----- progress -----

  function Left(p: Phase): nat {
    match p
    case Untouched => 5
    case Queued => 4
    case Running(seen) => if |seen| <= 2 then 3 - |seen| else 1
    case Done => 0
  }

  function LeftAll(phase: seq<Phase>): nat {
    if phase == [] then 0 else LeftAll(phase[..|phase| - 1]) + Left(phase[|phase| - 1])
  }

  lemma {:induction false} LeftAfter(phase: seq<Phase>, i: nat, p: Phase)
    requires i < |phase|
    ensures LeftAll(phase[i := p]) == LeftAll(phase) - Left(phase[i]) + Left(p)
    decreases |phase|
  {
    var n := |phase| - 1;
    if i < n {
      LeftAfter(phase[..n], i, p);
      assert phase[i := p][..n] == phase[..n][i := p];
    } else {
      assert phase[i := p][..n] == phase[..n];
    }
  }

  /** Variables still to hand out plus steps the links still have to take. */
  function Remaining(g: seq<GenVar>, st: State): nat
    requires st.pos <= |g|
  {
    |g| - st.pos + LeftAll(st.phase)
  }

  /** Every step but a partial write brings the end closer, and a partial write does not push it away. */
  lemma StepProgresses(g: seq<GenVar>, order: seq<nat>, st: State, a: Action)
    requires Invariant(g, order, st) && Enabled(g, order, st, a)
    ensures a.Scribble? ==> Remaining(g, Next(g, order, st, a)) == Remaining(g, st)
    ensures !a.Scribble? ==> Remaining(g, Next(g, order, st, a)) < Remaining(g, st)
  {
    match a
    case Dispatch =>
      if Depth(g, order[st.pos]) != 0 {
        LeftAfter(st.phase, order[st.pos], Queued);
      }
    case Begin(i) =>
      LeftAfter(st.phase, i, Running([]));
    case Read(i) =>
      assert LinkBelow(g[i].parent.value, i);
      LeftAfter(st.phase, i, Next(g, order, st, a).phase[i]);
    case Scribble(i, part) =>
    case Finish(i) =>
      assert LinkBelow(g[i].parent.value, i);
      LeftAfter(st.phase, i, Done);
  }

  /** No run gets stuck: until it is finished, some step other than a partial write can be taken. */
  lemma NeverStuck(g: seq<GenVar>, order: seq<nat>, st: State) returns (a: Action)
    requires Invariant(g, order, st) && !Finished(g, st)
    ensures Enabled(g, order, st, a) && !a.Scribble?
  {
    if Idle(st) {
      a := Dispatch;
    } else {
      var i: nat :| i < |g| && Active(st.phase[i]);
      assert LinkInvariant(g, st, i);
      if st.phase[i].Queued? {
        a := Begin(i);
      } else if |st.phase[i].seen| < |g[i].parent.value.inputs| {
        a := Read(i);
      } else {
        a := Finish(i);
      }
    }
  }

  // ----- the order the sort leaves -----

  /** How often v stands among the variables shows in the part of its own depth. */
  lemma {:induction false} AtDepthCounts(vars: seq<nat>, depth: seq<int>, v: nat)
    requires v < |depth|
    ensures Times(AtDepth(vars, depth, depth[v]), v) == Times(vars, v)
    decreases |vars|
  {
    if vars != [] {
      var n := |vars| - 1;
      AtDepthCounts(vars[..n], depth, v);
      var w := vars[n];
      if w < |depth| && depth[w] == depth[v] {
        TimesPush(AtDepth(vars[..n], depth, depth[v]), w);
      }
    }
  }

  function Indices(n: nat): (r: seq<nat>)
    ensures |r| == n && forall i :: 0 <= i < n ==> r[i] == i
  {
    seq(n, i => i)
  }

  lemma {:induction false} IndexCounts(n: nat, v: nat)
    ensures Times(Indices(n), v) == One(v < n)
  {
    if n > 0 {
      IndexCounts(n - 1, v);
      assert Indices(n)[..n - 1] == Indices(n - 1);
    }
  }

  /** What SortDepGraph leaves of the list 0, 1, 2, ... is a depth order. */
  lemma SortedIsDepthOrder(g: seq<GenVar>, depth: seq<int>, order: seq<nat>)
    requires WellFormed(g) && |order| == |g| == |depth| && forall i :: 0 <= i < |g| ==> depth[i] == Depth(g, i)
    requires InGraph(order, depth) && SortedTo(order, depth, |order|) && SameAtDepths(order, Indices(|g|), depth)
    ensures DepthOrder(g, order)
  {
    SortedIsPermutation(|g|, depth, order);
    forall p, q | 0 <= p < q < |order|
      ensures Depth(g, order[p]) <= Depth(g, order[q])
    {
      assert depth[order[p]] <= depth[order[q]];
    }
  }

  /** Every variable stands in the sorted list, and none twice. */
  lemma SortedIsPermutation(n: nat, depth: seq<int>, order: seq<nat>)
    requires |order| == n == |depth| && InGraph(order, depth) && SameAtDepths(order, Indices(n), depth)
    ensures forall i :: 0 <= i < n ==> i in order
    ensures forall p, q :: 0 <= p < q < |order| ==> order[p] != order[q]
  {
    forall i: nat | i < n
      ensures i in order
    {
      SortKeepsCounts(n, depth, order, i);
      AbsentNever(order, i);
    }
    forall p, q | 0 <= p < q < |order|
      ensures order[p] != order[q]
    {
      SortKeepsCounts(n, depth, order, order[p]);
      OnceMeansDistinct(order, p, q);
    }
  }

  /** In a depth order no link stands before a variable it uses. */
  lemma OperandsComeFirst(g: seq<GenVar>, order: seq<nat>, p: nat, q: nat)
    requires WellFormed(g) && DepthOrder(g, order)
    requires p < |order| && q < |order| && UsedBy(g, order[p], order[q])
    ensures p < q
  {
    var k :| 0 <= k < |g[order[q]].parent.value.inputs| && g[order[q]].parent.value.inputs[k] == order[p];
    OperandsAreShallower(g, order[q], k);
  }

  lemma SortKeepsCounts(n: nat, depth: seq<int>, order: seq<nat>, v: nat)
    requires v < n == |depth|
    requires SameAtDepths(order, Indices(n), depth)
    ensures Times(order, v) == 1
  {
    AtDepthCounts(order, depth, v);
    AtDepthCounts(Indices(n), depth, v);
    IndexCounts(n, v);
  }

  predicate UsedBy(g: seq<GenVar>, i: nat, j: nat) {
    j < |g| && g[j].parent.Some? && i in g[j].parent.value.inputs
  }
}
