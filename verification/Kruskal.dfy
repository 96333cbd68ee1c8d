/** Kruskal's algorithm over a relabelling union-find. */
module Kruskal {
  import opened Numbers
  import opened SpanningTrees

  /** The largest k with 2^k at most n. */
  function Log2(n: nat): nat {
    if n <= 1 then 0 else 1 + Log2(n / 2)
  }

  lemma {:induction false} Log2Bounds(k: nat, n: nat)
    requires Pow2(k) <= n
    ensures k <= Log2(n)
  {
    if k > 0 {
      Log2Bounds(k - 1, n / 2);
    }
  }

  lemma {:induction false} Log2Is(n: nat)
    requires n > 0
    ensures Pow2(Log2(n)) <= n < Pow2(Log2(n) + 1)
  {
    if n > 1 {
      Log2Is(n / 2);
    }
  }

  function Total(moves: seq<nat>): nat {
    if moves == [] then 0 else Total(moves[..|moves| - 1]) + moves[|moves| - 1]
  }

  lemma {:induction false} TotalUpdate(moves: seq<nat>, x: nat)
    requires x < |moves|
    ensures Total(moves[x := moves[x] + 1]) == Total(moves) + 1
  {
    var m, n := moves[x := moves[x] + 1], |moves| - 1;
    if x < n {
      TotalUpdate(moves[..n], x);
      assert m[..n] == moves[..n][x := moves[x] + 1];
    } else {
      assert m[..n] == moves[..n];
    }
  }

  lemma {:induction false} TotalBound(moves: seq<nat>, b: nat)
    requires forall y :: 0 <= y < |moves| ==> moves[y] <= b
    ensures Total(moves) <= |moves| * b
  {
    if moves != [] {
      TotalBound(moves[..|moves| - 1], b);
      assert |moves| * b == (|moves| - 1) * b + b;
    }
  }

  lemma {:induction false} TotalZero(moves: seq<nat>)
    requires forall y :: 0 <= y < |moves| ==> moves[y] == 0
    ensures Total(moves) == 0
  {
    if moves != [] {
      TotalZero(moves[..|moves| - 1]);
    }
  }

  lemma {:induction false} Lightest(q: multiset<Edge>) returns (e: Edge)
    requires |q| > 0
    ensures e in q && forall g :: g in q ==> e.weight <= g.weight
    decreases |q|
  {
    var x :| x in q;
    var rest := q - multiset{x};
    e := x;
    if |rest| > 0 {
      var g := Lightest(rest);
      if g.weight < e.weight {
        e := g;
      }
    }
    assert q == rest + multiset{x};
    assert forall g :: g in q ==> g == x || g in rest;
  }

  // ----- labellings -----

  ghost predicate IsLabel(ids: seq<nat>, i: nat) {
    i < |ids| && ids[i] == i
  }

  /** The set `s` lists exactly the vertices labelled r. */
  ghost predicate Lists(s: set<nat>, ids: seq<nat>, r: nat) {
    forall x: nat :: x in s <==> x < |ids| && ids[x] == r
  }

  /** Labels describe a partition of the vertices, and `sets` lists each part under its label. */
  ghost predicate Partitioned(ids: seq<nat>, sets: seq<set<nat>>, n: nat) {
    && |ids| == n == |sets|
    && (forall x :: 0 <= x < n ==> IsLabel(ids, ids[x]))
    && (forall r :: 0 <= r < n && IsLabel(ids, r) ==> Lists(sets[r], ids, r))
  }

  /** Each relabelling of a vertex at least doubled its part. */
  ghost predicate Paid(ids: seq<nat>, sets: seq<set<nat>>, moves: seq<nat>, n: nat)
    requires Partitioned(ids, sets, n)
  {
    |moves| == n && forall x :: 0 <= x < n ==> Pow2(moves[x]) <= |sets[ids[x]]|
  }

  /** The members of `done`, and no others, have got label i and one more move. */
  ghost predicate Shifted(ids: seq<nat>, moves: seq<nat>, done: set<nat>, i: nat, ids': seq<nat>, moves': seq<nat>) {
    && |ids'| == |ids| == |moves'| == |moves|
    && (forall x :: 0 <= x < |ids| ==> ids'[x] == if x in done then i else ids[x])
    && (forall x :: 0 <= x < |ids| ==> moves'[x] == moves[x] + if x in done then 1 else 0)
  }

  lemma ShiftedOne(ids: seq<nat>, moves: seq<nat>, done: set<nat>, i: nat, ids': seq<nat>, moves': seq<nat>, node: nat)
    requires Shifted(ids, moves, done, i, ids', moves') && node < |ids| && node !in done
    ensures Shifted(ids, moves, done + {node}, i, ids'[node := i], moves'[node := moves'[node] + 1])
  {
  }

  lemma MovedOver(done: set<nat>, rest: set<nat>, node: nat)
    requires done !! rest && node in rest
    ensures (done + {node}) + (rest - {node}) == done + rest && (done + {node}) !! (rest - {node})
    ensures |done + {node}| == |done| + 1 && |rest - {node}| < |rest|
  {
  }

  /** `ids'` is the labelling after parts i and j have been joined under label r. */
  ghost predicate MergedInto(ids: seq<nat>, i: nat, j: nat, r: nat, ids': seq<nat>) {
    |ids'| == |ids| && forall x :: 0 <= x < |ids| ==> ids'[x] == if ids[x] == i || ids[x] == j then r else ids[x]
  }

  lemma MergeKeepsPartition(ids: seq<nat>, sets: seq<set<nat>>, n: nat, i: nat, j: nat, ids': seq<nat>)
    requires Partitioned(ids, sets, n) && i != j && IsLabel(ids, i) && IsLabel(ids, j) && MergedInto(ids, i, j, i, ids')
    ensures Partitioned(ids', sets[i := sets[i] + sets[j]], n)
  {
    forall r | 0 <= r < n && IsLabel(ids', r)
      ensures Lists(if r == i then sets[i] + sets[j] else sets[r], ids', r)
    {
      assert IsLabel(ids, r);
    }
  }

  ghost function Roots(ids: seq<nat>): set<nat> {
    set r | r in Vertices(|ids|) && IsLabel(ids, r)
  }

  /** Every edge of the forest has joined two parts. */
  ghost predicate Counted(ids: seq<nat>, forest: set<Edge>, n: nat) {
    |forest| + |Roots(ids)| == n
  }

  lemma AllAreRoots(ids: seq<nat>)
    requires forall x :: 0 <= x < |ids| ==> ids[x] == x
    ensures Counted(ids, {}, |ids|)
  {
    assert Roots(ids) == Vertices(|ids|);
  }

  lemma OneRoot(ids: seq<nat>, s: set<nat>, forest: set<Edge>, n: nat, m: nat)
    requires |ids| == n && Lists(s, ids, m) && |s| >= n && IsLabel(ids, m) && Counted(ids, forest, n)
    ensures |forest| == n - 1
  {
    assert s <= Vertices(n);
    SubsetOfAll(s, n);
    assert Roots(ids) == {m};
  }

  lemma JoinCounts(ids: seq<nat>, i: nat, j: nat, r: nat, ids': seq<nat>, forest: set<Edge>, e: Edge)
    requires IsLabel(ids, i) && IsLabel(ids, j) && i != j && (r == i || r == j) && MergedInto(ids, i, j, r, ids')
    requires Counted(ids, forest, |ids|) && e !in forest
    ensures Counted(ids', forest + {e}, |ids'|)
  {
    var other := if r == i then j else i;
    assert Roots(ids') == Roots(ids) - {other};
    assert other in Roots(ids);
  }

  lemma PartsDisjoint(ids: seq<nat>, s: set<nat>, i: nat, t: set<nat>, j: nat)
    requires Lists(s, ids, i) && Lists(t, ids, j) && i != j
    ensures s !! t && |s + t| == |s| + |t|
  {
  }

  lemma ShiftMerges(ids: seq<nat>, s: set<nat>, moves: seq<nat>, i: nat, j: nat, ids': seq<nat>, moves': seq<nat>)
    requires Lists(s, ids, j) && Shifted(ids, moves, s, i, ids', moves')
    ensures MergedInto(ids, i, j, i, ids')
  {
  }

  lemma PaidOne(ids: seq<nat>, sets: seq<set<nat>>, moves: seq<nat>, i: nat, j: nat, x: nat, m: nat)
    requires |ids| == |sets| == |moves| && i < |ids| && j < |ids| && x < |ids| && ids[x] < |ids| && i != j
    requires Lists(sets[i], ids, i) && Lists(sets[j], ids, j) && |sets[j]| <= |sets[i]|
    requires Pow2(moves[x]) <= |sets[ids[x]]| && m == moves[x] + if x in sets[j] then 1 else 0
    ensures ids[x] == i || ids[x] == j ==> Pow2(m) <= |sets[i] + sets[j]|
    ensures ids[x] != i && ids[x] != j ==> Pow2(m) <= |sets[ids[x]]|
  {
    PartsDisjoint(ids, sets[i], i, sets[j], j);
    assert x in sets[j] <==> ids[x] == j;
  }

  lemma MergeKeepsPaid(ids: seq<nat>, sets: seq<set<nat>>, moves: seq<nat>, n: nat, i: nat, j: nat,
                       ids': seq<nat>, moves': seq<nat>)
    requires Partitioned(ids, sets, n) && Paid(ids, sets, moves, n) && i != j && IsLabel(ids, i) && IsLabel(ids, j)
    requires |sets[j]| <= |sets[i]| && Shifted(ids, moves, sets[j], i, ids', moves') && MergedInto(ids, i, j, i, ids')
    requires Partitioned(ids', sets[i := sets[i] + sets[j]], n)
    ensures Paid(ids', sets[i := sets[i] + sets[j]], moves', n)
  {
    forall x | 0 <= x < n
      ensures Pow2(moves'[x]) <= |sets[i := sets[i] + sets[j]][ids'[x]]|
    {
      PaidOne(ids, sets, moves, i, j, x, moves'[x]);
    }
  }

  // ----- the state of a run, between two edges -----

  ghost function EdgesOf(q: multiset<Edge>): set<Edge> {
    set e | e in q
  }

  /** Vertices with the same label cannot be separated without crossing the forest. */
  ghost predicate Linked(ids: seq<nat>, forest: set<Edge>) {
    forall s, x, y :: Closed(forest, s) && 0 <= x < |ids| && 0 <= y < |ids| && ids[x] == ids[y] ==> (x in s <==> y in s)
  }

  /** Edges leave the queue for the forest or because their ends are already in one part; no part is crossed by the
      forest, and every part is held together by it. */
  ghost predicate Grown(ids: seq<nat>, forest: set<Edge>, q: multiset<Edge>, edges: set<Edge>, n: nat) {
    && |ids| == n && InRange(edges, n) && forest <= edges
    && (forall e :: e in forest ==> ids[e.u] == ids[e.v])
    && (forall e :: e in q ==> e in edges)
    && (forall e :: e in edges ==> e in q || ids[e.u] == ids[e.v])
    && Linked(ids, forest)
    && Promising(forest, edges, n)
  }

  lemma Start(ids: seq<nat>, q: multiset<Edge>, n: nat)
    requires |ids| == n && InRange(EdgesOf(q), n) && forall x :: 0 <= x < n ==> ids[x] == x
    ensures Grown(ids, {}, q, EdgesOf(q), n)
  {
    forall t | SpanningTree(t, EdgesOf(q), n)
      ensures Extends({}, EdgesOf(q), n, t)
    {
      assert {} <= t;
    }
  }

  lemma Reject(ids: seq<nat>, forest: set<Edge>, q: multiset<Edge>, edges: set<Edge>, n: nat, e: Edge)
    requires Grown(ids, forest, q, edges, n) && e in q && ids[e.u] == ids[e.v]
    ensures Grown(ids, forest, q - multiset{e}, edges, n)
  {
  }

  lemma LightestJoins(ids: seq<nat>, s: set<nat>, forest: set<Edge>, q: multiset<Edge>, edges: set<Edge>, n: nat,
                      e: Edge)
    requires Grown(ids, forest, q, edges, n) && e in q && ids[e.u] != ids[e.v] && Lists(s, ids, ids[e.u])
    requires forall g :: g in q ==> e.weight <= g.weight
    ensures Promising(forest + {e}, edges, n)
  {
    assert s <= Vertices(n);
    assert Closed(forest, s) && Crosses(e, s);
    forall g | g in edges && Crosses(g, s)
      ensures e.weight <= g.weight
    {
    }
    CutProperty(forest, edges, n, s, e);
  }

  lemma Accept(ids: seq<nat>, s: set<nat>, forest: set<Edge>, q: multiset<Edge>, edges: set<Edge>, n: nat, e: Edge,
               r: nat, ids': seq<nat>)
    requires Grown(ids, forest, q, edges, n) && e in q && ids[e.u] != ids[e.v] && Lists(s, ids, ids[e.u])
    requires forall g :: g in q ==> e.weight <= g.weight
    requires MergedInto(ids, ids[e.u], ids[e.v], r, ids') && (r == ids[e.u] || r == ids[e.v])
    ensures Grown(ids', forest + {e}, q - multiset{e}, edges, n)
    ensures Weight(forest + {e}) == Weight(forest) + e.weight
  {
    LightestJoins(ids, s, forest, q, edges, n, e);
    MergeKeepsLinked(ids, forest, e, r, ids');
    NewWeight(forest, e);
  }

  lemma PartOf(ids: seq<nat>, sets: seq<set<nat>>, n: nat, x: nat)
    requires Partitioned(ids, sets, n) && x < n
    ensures IsLabel(ids, ids[x]) && Lists(sets[ids[x]], ids, ids[x])
  {
  }

  lemma NewWeight(forest: set<Edge>, e: Edge)
    requires e !in forest
    ensures Weight(forest + {e}) == Weight(forest) + e.weight
  {
    WeightSplit(forest + {e}, e);
    assert forest + {e} - {e} == forest;
  }

  lemma MergeKeepsLinked(ids: seq<nat>, forest: set<Edge>, e: Edge, r: nat, ids': seq<nat>)
    requires Linked(ids, forest) && e.u < |ids| && e.v < |ids| && MergedInto(ids, ids[e.u], ids[e.v], r, ids')
    requires r == ids[e.u] || r == ids[e.v]
    ensures Linked(ids', forest + {e})
  {
    forall s, x, y | Closed(forest + {e}, s) && 0 <= x < |ids| && 0 <= y < |ids| && ids'[x] == ids'[y]
      ensures x in s <==> y in s
    {
      assert Closed(forest, s);
      assert e in forest + {e};
    }
  }

  /** While some part is neither empty nor everything, an edge that crosses it is still queued. */
  lemma QueueNotEmpty(ids: seq<nat>, s: set<nat>, forest: set<Edge>, q: multiset<Edge>, edges: set<Edge>, n: nat,
                      m: nat)
    requires Grown(ids, forest, q, edges, n) && Connected(edges, n) && IsLabel(ids, m) && Lists(s, ids, m) && |s| < n
    ensures |q| > 0
  {
    assert m in s && s <= Vertices(n);
    assert Cut(s, n);
    var e :| e in edges && Crosses(e, s);
    assert e in q;
  }

  /** Once one part holds every vertex, the forest connects everything. */
  lemma OnePartConnects(ids: seq<nat>, s: set<nat>, forest: set<Edge>, q: multiset<Edge>, edges: set<Edge>, n: nat,
                        m: nat)
    requires Grown(ids, forest, q, edges, n) && Lists(s, ids, m) && |s| >= n
    ensures Connected(forest, n)
  {
    SubsetOfAll(s, n);
    forall c | Cut(c, n)
      ensures !Closed(forest, c)
    {
      var x :| x in c;
      var y :| y in Vertices(n) && y !in c;
      assert ids[x] == ids[y] == m;
    }
  }

  lemma SubsetOfAll(s: set<nat>, n: nat)
    requires s <= Vertices(n) && |s| >= n
    ensures s == Vertices(n)
  {
    var t := Vertices(n) - s;
    assert s + t == Vertices(n);
    assert |s + t| == |s| + |t|;
  }

  class Graph {
    const V: nat
    var setIds: seq<nat>
    var sets: seq<set<nat>>
    var Q: multiset<Edge>

    /** How often each vertex has been given a new label, and how many label writes the unions made in all. */
    ghost var moves: seq<nat>
    ghost var relabels: nat

    constructor (v: nat)
      ensures V == v && Q == multiset{}
    {
      V := v;
      setIds, sets, Q := [], [], multiset{};
      moves, relabels := [], 0;
    }

    /** Size of set number i; looking up a missing number yields the empty set. */
    function SizeOf(i: nat): nat
      reads this
    {
      if i < |sets| then |sets[i]| else 0
    }

    method Pop() returns (e: Edge)
      requires |Q| > 0
      modifies `Q
      ensures e in old(Q) && (forall g :: g in old(Q) ==> e.weight <= g.weight)
      ensures Q == old(Q) - multiset{e}
    {
      ghost var w := Lightest(Q);
      e :| e in Q && forall g :: g in Q ==> e.weight <= g.weight;
      Q := Q - multiset{e};
    }

    ghost predicate Valid()
      reads this
    {
      Partitioned(setIds, sets, V) && Paid(setIds, sets, moves, V) && relabels == Total(moves)
    }

    /** Relabels the smaller of two parts; equal sizes relabel the second. */
    method Union(i0: nat, j0: nat) returns (i: nat)
      requires Valid() && i0 != j0 && IsLabel(setIds, i0) && IsLabel(setIds, j0)
      modifies `setIds, `sets, `moves, `relabels
      ensures Valid()
      ensures i == i0 || i == j0
      ensures MergedInto(old(setIds), i0, j0, i, setIds)
    {
      var j;
      i, j := i0, j0;
      if SizeOf(i) < SizeOf(j) {
        i, j := j, i;
      }
      ghost var ids0, sets0, moves0 := setIds, sets, moves;
      sets := sets[i := sets[i] + sets[j]];
      Relabel(i, j);
      ShiftMerges(ids0, sets0[j], moves0, i, j, setIds, moves);
      MergeKeepsPartition(ids0, sets0, V, i, j, setIds);
      MergeKeepsPaid(ids0, sets0, moves0, V, i, j, setIds, moves);
    }

    /** The loop of union_: every member of set j gets label i. */
    method Relabel(i: nat, j: nat)
      requires |setIds| == V == |moves| && relabels == Total(moves)
      requires j < |sets| && forall x :: x in sets[j] ==> x < V
      modifies `setIds, `moves, `relabels
      ensures Shifted(old(setIds), old(moves), sets[j], i, setIds, moves)
      ensures relabels == Total(moves) == old(relabels) + |sets[j]|
    {
      var rest := sets[j];
      ghost var ids0, moves0, all, done: set<nat> := setIds, moves, rest, {};
      while rest != {}
        invariant done + rest == all && done !! rest
        invariant Shifted(ids0, moves0, done, i, setIds, moves)
        invariant relabels == Total(moves) == old(relabels) + |done|
        decreases |rest|
      {
        rest, done := RelabelNext(i, rest, ids0, moves0, done);
      }
    }

    /** One round of the loop: some member of the set that has not had its turn. */
    method RelabelNext(i: nat, rest: set<nat>, ghost ids0: seq<nat>, ghost moves0: seq<nat>, ghost done: set<nat>)
      returns (rest': set<nat>, ghost done': set<nat>)
      requires |setIds| == |moves| && relabels == Total(moves) && done !! rest && rest != {}
      requires forall x :: x in rest ==> x < |setIds|
      requires Shifted(ids0, moves0, done, i, setIds, moves)
      modifies `setIds, `moves, `relabels
      ensures Shifted(ids0, moves0, done', i, setIds, moves)
      ensures done' + rest' == done + rest && done' !! rest' && |done'| == |done| + 1 && |rest'| < |rest|
      ensures relabels == Total(moves) == old(relabels) + 1
    {
      var node :| node in rest;
      ShiftedOne(ids0, moves0, done, i, setIds, moves, node);
      MovedOver(done, rest, node);
      RelabelOne(node, i);
      rest', done' := rest - {node}, done + {node};
    }

    method RelabelOne(node: nat, i: nat)
      requires |setIds| == |moves| && node < |setIds| && relabels == Total(moves)
      modifies `setIds, `moves, `relabels
      ensures setIds == old(setIds)[node := i] && moves == old(moves)[node := old(moves)[node] + 1]
      ensures relabels == Total(moves) == old(relabels) + 1
    {
      TotalUpdate(moves, node);
      setIds := setIds[node := i];
      moves, relabels := moves[node := moves[node] + 1], relabels + 1;
    }

    /** Kruskal's algorithm.  The chosen edges form a spanning tree, and no spanning tree is lighter; edges that all
        weigh w make a tree of weight (V - 1) * w; no vertex is relabelled more than Log2(V) times. */
    method Kruskals() returns (sum: real, ghost forest: set<Edge>)
      requires InRange(EdgesOf(Q), V) && Connected(EdgesOf(Q), V)
      modifies this
      ensures SpanningTree(forest, old(EdgesOf(Q)), V) && sum == Weight(forest)
      ensures forall t :: SpanningTree(t, old(EdgesOf(Q)), V) ==> sum <= Weight(t)
      ensures |forest| == if V == 0 then 0 else V - 1
      ensures forall w :: AllWeigh(old(EdgesOf(Q)), w) ==> sum == |forest| as real * w
      ensures V <= 1 ==> sum == 0.0
      ensures |moves| == V && forall x :: 0 <= x < V ==> moves[x] <= Log2(V) && Pow2(moves[x]) <= V
      ensures relabels == Total(moves) <= V * Log2(V)
    {
      ghost var edges := EdgesOf(Q);
      sum, forest := GrowForest();
      PromisingAndConnected(forest, edges, V);
      UniformSum(forest, edges, sum);
      FewMoves();
    }

    /** The loop: until one part holds every vertex. */
    method GrowForest() returns (sum: real, ghost forest: set<Edge>)
      requires InRange(EdgesOf(Q), V) && Connected(EdgesOf(Q), V)
      modifies this
      ensures Valid() && sum == Weight(forest) && |forest| == if V == 0 then 0 else V - 1
      ensures Grown(setIds, forest, Q, old(EdgesOf(Q)), V) && Connected(forest, V)
    {
      ghost var edges := EdgesOf(Q);
      var m: nat := 0;
      sum, forest := 0.0, {};
      Singletons();
      Start(setIds, Q, V);
      AllAreRoots(setIds);
      while SizeOf(m) < V
        invariant Valid() && Grown(setIds, forest, Q, edges, V)
        invariant V > 0 ==> IsLabel(setIds, m)
        invariant sum == Weight(forest) && Counted(setIds, forest, V)
        decreases |Q|
      {
        QueueNotEmpty(setIds, sets[m], forest, Q, edges, V, m);
        m, sum, forest := TakeEdge(m, sum, forest, edges);
      }
      if V > 0 {
        OnePartConnects(setIds, sets[m], forest, Q, edges, V, m);
        OneRoot(setIds, sets[m], forest, V, m);
      }
    }

    lemma UniformSum(forest: set<Edge>, edges: set<Edge>, sum: real)
      requires forest <= edges && sum == Weight(forest) && |forest| == if V == 0 then 0 else V - 1
      ensures forall w :: AllWeigh(edges, w) ==> sum == |forest| as real * w
      ensures V <= 1 ==> sum == 0.0
    {
      forall w | AllWeigh(edges, w)
        ensures sum == |forest| as real * w
      {
        UniformWeight(forest, w);
      }
      if V <= 1 {
        UniformWeight(forest, 0.0);
      }
    }

    /** One round of the loop: skip the lightest queued edge, or join the parts of its ends. */
    method TakeEdge(m: nat, sum: real, ghost forest: set<Edge>, ghost edges: set<Edge>)
      returns (m': nat, sum': real, ghost forest': set<Edge>)
      requires Valid() && Grown(setIds, forest, Q, edges, V) && IsLabel(setIds, m) && |Q| > 0 && sum == Weight(forest)
      requires Counted(setIds, forest, V)
      modifies this
      ensures Valid() && Grown(setIds, forest', Q, edges, V) && IsLabel(setIds, m') && sum' == Weight(forest')
      ensures |Q| == old(|Q|) - 1 && Counted(setIds, forest', V)
    {
      ghost var q := Q;
      var e := Pop();
      if setIds[e.u] == setIds[e.v] {
        Reject(setIds, forest, q, edges, V, e);
        return m, sum, forest;
      }
      m' := Join(e, forest, q, edges);
      sum', forest' := sum + e.weight, forest + {e};
    }

    /** The accepting half of the round: e, just popped from the queue q, joins two parts. */
    method Join(e: Edge, ghost forest: set<Edge>, ghost q: multiset<Edge>, ghost edges: set<Edge>) returns (m: nat)
      requires Valid() && Grown(setIds, forest, q, edges, V) && e in q && setIds[e.u] != setIds[e.v]
      requires (forall g :: g in q ==> e.weight <= g.weight) && Counted(setIds, forest, V)
      modifies `setIds, `sets, `moves, `relabels
      ensures Valid() && Grown(setIds, forest + {e}, q - multiset{e}, edges, V) && IsLabel(setIds, m)
      ensures Weight(forest + {e}) == Weight(forest) + e.weight && Counted(setIds, forest + {e}, V)
    {
      ghost var s, ids := sets[setIds[e.u]], setIds;
      PartOf(setIds, sets, V, e.u);
      PartOf(setIds, sets, V, e.v);
      m := Union(setIds[e.u], setIds[e.v]);
      Accept(ids, s, forest, q, edges, V, e, m, setIds);
      JoinCounts(ids, ids[e.u], ids[e.v], m, setIds, forest, e);
    }

    lemma FewMoves()
      requires Valid()
      ensures forall x :: 0 <= x < V ==> moves[x] <= Log2(V) && Pow2(moves[x]) <= V
      ensures Total(moves) <= V * Log2(V)
    {
      forall x | 0 <= x < V
        ensures moves[x] <= Log2(V) && Pow2(moves[x]) <= V
      {
        SmallPart(sets[setIds[x]], setIds, setIds[x], V);
        Log2Bounds(moves[x], V);
      }
      TotalBound(moves, Log2(V));
    }

    /** Every vertex starts in a part of its own. */
    method Singletons()
      modifies `setIds, `sets, `moves, `relabels
      ensures Valid() && forall x :: 0 <= x < V ==> setIds[x] == x
    {
      setIds, sets := [], [];
      for i := 0 to V
        invariant |setIds| == |sets| == i
        invariant forall x: nat :: x < i ==> setIds[x] == x && sets[x] == {x}
      {
        setIds, sets := setIds + [i], sets + [{i}];
      }
      moves, relabels := seq(V, _ => 0), 0;
      TotalZero(moves);
    }
  }

  lemma SmallPart(s: set<nat>, ids: seq<nat>, r: nat, n: nat)
    requires Lists(s, ids, r) && |ids| == n
    ensures |s| <= n
  {
    var t := Vertices(n) - s;
    assert s + t == Vertices(n);
    assert |s + t| == |s| + |t|;
  }
}
