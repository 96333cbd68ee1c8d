/** Bulk loading: the leaves of a B+tree over a sorted array, and the levels of internal nodes above them. */
module BTreeLevels {
  import opened Numbers
  import opened Options

  datatype Node =
    | Leaf(start: nat, end: nat, low: int, high: int)
    | Internal(keys: seq<int>, children: seq<Node>, low: int, high: int)

  function First(t: Node): nat {
    match t
    case Leaf(start, _, _, _) => start
    case Internal(_, cs, _, _) => if cs == [] then 0 else First(cs[0])
  }

  function Last(t: Node): nat {
    match t
    case Leaf(_, end, _, _) => end
    case Internal(_, cs, _, _) => if cs == [] then 0 else Last(cs[|cs| - 1])
  }

  /** How many entries a leaf holds, and how many keys an internal node. */
  datatype Fanouts = Fanouts(leaf: nat, internal: nat) {
    ghost predicate Valid() {
      leaf > 1 && internal > 0
    }
  }

  /** Leaves start at multiples of their fanout, and are full but for the last. */
  predicate Aligned(start: nat, end: nat, n: nat, leafFanout: nat)
    requires leafFanout > 0
  {
    start % leafFanout == 0 && end == Min(start + leafFanout, n)
  }

  /** At most fanout + 1 children, and as keys their recorded largest keys (the last may be missing). */
  predicate Holds(t: Node, children: seq<Node>, f: Fanouts) {
    && t.Internal? && t.children == children && |children| <= f.internal + 1
    && |t.keys| == Min(|children|, f.internal)
    && (forall k :: 0 <= k < |t.keys| ==> t.keys[k] == children[k].high)
  }

  /** a > b once both have been made unsigned: every negative number is above every other. */
  predicate Above(a: int, b: int) {
    if (a < 0) == (b < 0) then a > b else a < 0
  }

  /** min and max on size_t, which the smallest and largest keys of a node go through. */
  function UnsignedMin(a: int, b: int): int {
    if Above(b, a) then a else b
  }

  function UnsignedMax(a: int, b: int): int {
    if Above(a, b) then a else b
  }

  /** n / w, rounded up. */
  function Groups(n: nat, w: nat): nat
    requires w > 0
  {
    (n + w - 1) / w
  }

  lemma DivUnique(a: int, w: int, q: int, r: int)
    requires w > 0 && a == q * w + r && 0 <= r < w
    ensures a / w == q && a % w == r
  {
    var d := a / w - q;
    assert a == w * (a / w) + a % w;
    assert d * w == r - a % w;
    assert d >= 1 ==> d * w >= w;
    assert d <= -1 ==> d * w <= -w;
  }

  lemma OneGroupMore(q: nat, w: nat)
    ensures q * w + w == (q + 1) * w
  {
  }

  /** q full groups of w and a last one of r. */
  lemma GroupsGrow(q: nat, r: nat, w: nat)
    requires 1 <= r <= w && w > 1
    ensures Groups(q * w + r, w) == q + 1
    ensures (q * w + r) % w == 1 <==> r == 1
  {
    DivUnique(q * w + r + w - 1, w, q + 1, r - 1);
    if r < w {
      DivUnique(q * w + r, w, q, r);
    } else {
      DivUnique(q * w + r, w, q + 1, 0);
    }
  }

  /** No level above a single node leaves one child over. */
  predicate LevelsFit(n: nat, w: nat)
    requires w > 1
    decreases n
  {
    n <= 1 || (n % w != 1 && (FewerGroups(n, w); LevelsFit(Groups(n, w), w)))
  }

  lemma FewerGroups(n: nat, w: nat)
    requires n > 1 && w > 1
    ensures 0 < Groups(n, w) < n
  {
    DivBounds(n + w - 1, w);
    FewerThan(Groups(n, w), n, w);
  }

  lemma DivBounds(a: nat, w: nat)
    requires w > 0
    ensures (a / w) * w <= a < (a / w) * w + w
  {
    assert a == w * (a / w) + a % w;
  }

  lemma Monotone(x: int, y: int, w: nat)
    ensures x <= y ==> x * w <= y * w
  {
  }

  lemma {:induction false} ProductExceeds(n: nat, w: nat)
    requires n > 1 && w > 1
    ensures n * w > n + w - 1
    decreases n
  {
    if n > 2 {
      ProductExceeds(n - 1, w);
      OneGroupMore(n - 1, w);
    }
  }

  lemma FewerThan(k: int, n: nat, w: nat)
    requires k * w <= n + w - 1 < k * w + w && n > 1 && w > 1
    ensures 0 < k < n
  {
    ProductExceeds(n, w);
    Monotone(n, k, w);
    Monotone(k, 0, w);
  }

  lemma CeilBelow(j: nat, c: nat, w: nat)
    requires w > 0
    ensures j * w < c <==> j < Groups(c, w)
    ensures c % w == 0 ==> Groups(c, w) * w == c
    ensures c % w != 0 ==> Groups(c, w) * w > c
  {
    var g := Groups(c, w);
    DivBounds(c + w - 1, w);
    assert g * w < c + w && c <= g * w;
    Monotone(g, j, w);
    Monotone(j, g - 1, w);
    OneGroupMore(g, w);
    assert (g - 1) * w == g * w - w;
    if c % w == 0 {
      assert c == w * (c / w);
      DivUnique(c + w - 1, w, c / w, w - 1);
    } else if g * w == c {
      DivUnique(c, w, g, 0);
    }
  }

  // ----- building -----

  /** The largest key of leaf b. */
  function LeafHigh(data: seq<int>, leafFanout: nat, b: nat): int
    requires leafFanout > 0 && b * leafFanout < |data|
  {
    OneGroupMore(b, leafFanout);
    data[Min((b + 1) * leafFanout, |data|) - 1]
  }

  /** The leaves over the whole array. */
  method BuildLeaves(data: seq<int>, f: Fanouts) returns (leaves: seq<Node>)
    requires data != [] && f.Valid()
    ensures |leaves| == Groups(|data|, f.leaf) && Covering(leaves, |data|)
    ensures LeavesAt(leaves, data, f.leaf)
  {
    leaves := [];
    var i := 0;
    while i < |data|
      invariant LeavesTo(leaves, data, f, i)
    {
      var end := i + Min(|data| - i, f.leaf);
      LeafAdded(leaves, data, f, i, end);
      leaves := leaves + [Leaf(i, end, data[i], data[end - 1])];
      i := end;
    }
  }

  predicate LeavesAt(leaves: seq<Node>, data: seq<int>, leafFanout: nat)
    requires leafFanout > 0
  {
    forall b {:trigger LeafAt(leaves[b], data, leafFanout, b)} :: 0 <= b < |leaves| ==>
      LeafAt(leaves[b], data, leafFanout, b)
  }

  /** The leaves over the entries before i. */
  predicate LeavesTo(leaves: seq<Node>, data: seq<int>, f: Fanouts, i: nat)
    requires f.leaf > 0
  {
    && i <= |data| && LeavesAt(leaves, data, f.leaf)
    && if leaves == [] then i == 0
       else Covering(leaves, i) && if i < |data| then i == |leaves| * f.leaf else |leaves| == Groups(|data|, f.leaf)
  }

  lemma LeafAdded(leaves: seq<Node>, data: seq<int>, f: Fanouts, i: nat, end: nat)
    requires f.Valid() && LeavesTo(leaves, data, f, i) && i < |data| && end == i + Min(|data| - i, f.leaf)
    ensures LeavesTo(leaves + [Leaf(i, end, data[i], data[end - 1])], data, f, end)
  {
    var leaf, more := Leaf(i, end, data[i], data[end - 1]), leaves + [Leaf(i, end, data[i], data[end - 1])];
    GroupsGrow(|leaves|, end - i, f.leaf);
    OneGroupMore(|leaves|, f.leaf);
    assert LeafAt(leaf, data, f.leaf, |leaves|);
    assert forall b :: 0 <= b < |leaves| ==> more[b] == leaves[b];
  }

  predicate LeafAt(t: Node, data: seq<int>, leafFanout: nat, b: nat)
    requires leafFanout > 0
  {
    && b * leafFanout < |data|
    && t == Leaf(b * leafFanout, Min((b + 1) * leafFanout, |data|), data[b * leafFanout], LeafHigh(data, leafFanout, b))
  }

  /** A row of subtrees, none empty, over adjoining stretches that make up 0 to n. */
  predicate Covering(ts: seq<Node>, n: nat) {
    && ts != [] && First(ts[0]) == 0 && Last(ts[|ts| - 1]) == n
    && (forall k :: 0 <= k < |ts| ==> First(ts[k]) < Last(ts[k]))
    && (forall k :: 0 < k < |ts| ==> First(ts[k]) == Last(ts[k - 1]))
  }

  lemma {:induction false} CoveringGrows(ts: seq<Node>, n: nat, j: nat, k: nat)
    requires Covering(ts, n) && j <= k < |ts|
    ensures First(ts[j]) < Last(ts[k]) && Last(ts[j]) <= Last(ts[k])
    decreases k
  {
    if j < k {
      CoveringGrows(ts, n, j, k - 1);
    }
  }

  /** The largest of the recorded keys, as unsigned numbers: what max leaves in a node that starts with 0. */
  function Highest(ts: seq<Node>): int {
    if ts == [] then 0 else UnsignedMax(Highest(ts[..|ts| - 1]), ts[|ts| - 1].high)
  }

  /** Adds one child to a node under construction. */
  function WithChild(t: Node, child: Node, fanout: nat): Node
    requires t.Internal?
  {
    Internal(if |t.children| < fanout then t.keys + [child.high] else t.keys, t.children + [child],
             UnsignedMin(t.low, child.low), UnsignedMax(t.high, child.high))
  }

  predicate Growing(t: Node, children: seq<Node>, f: Fanouts) {
    Holds(t, children, f) && t.high == Highest(children)
  }

  lemma ChildAdded(t: Node, children: seq<Node>, child: Node, f: Fanouts)
    requires Growing(t, children, f) && |children| <= f.internal
    ensures Growing(WithChild(t, child, f.internal), children + [child], f)
  {
    assert (children + [child])[..|children|] == children;
  }

  /** Node j of a level has the j-th group of fanout + 1 nodes of the level below as its children. */
  predicate GroupAt(t: Node, lower: seq<Node>, j: nat, f: Fanouts) {
    var w := f.internal + 1;
    OneGroupMore(j, w);
    j * w < |lower| && Growing(t, lower[j * w..Min((j + 1) * w, |lower|)], f)
  }

  predicate Grouped(level: seq<Node>, lower: seq<Node>, f: Fanouts) {
    && |level| == Groups(|lower|, f.internal + 1)
    && forall j {:trigger GroupAt(level[j], lower, j, f)} :: 0 <= j < |level| ==> GroupAt(level[j], lower, j, f)
  }

  /** One more level.  None stands for a child written past the node's array, which happens exactly when the last group
      of fanout + 1 children would hold a single one. */
  method BuildLevel(lower: seq<Node>, f: Fanouts) returns (r: Option<seq<Node>>)
    requires f.Valid() && |lower| > 1
    ensures r == None <==> |lower| % (f.internal + 1) == 1
    ensures r.Some? ==> Grouped(r.value, lower, f)
  {
    var level: seq<Node> := [];
    var current := Internal([], [], 0, 0);
    ghost var from: nat := 0;
    for i := 0 to |lower|
      invariant Building(level, current, lower, f, from, i)
      invariant (i > 0 ==> from < i) && from < |lower| - 1
    {
      var ok: bool;
      ok, level, current, from := NextChild(level, current, lower, f, from, i);
      if !ok {
        return None;
      }
    }
    GroupsGrow(|level|, |lower| - from, f.internal + 1);
    OneGroupMore(|level|, f.internal + 1);
    return Some(level + [current]);
  }

  /** One round of the loop: a full node is closed, then the child is added.  A full node that was closed for the last
      child is not replaced by a new one. */
  method NextChild(level0: seq<Node>, current0: Node, lower: seq<Node>, f: Fanouts, ghost from0: nat, i: nat)
    returns (ok: bool, level: seq<Node>, current: Node, ghost from: nat)
    requires f.Valid() && i < |lower| && |lower| > 1
    requires Building(level0, current0, lower, f, from0, i) && (i > 0 ==> from0 < i)
    ensures !ok ==> |lower| % (f.internal + 1) == 1
    ensures ok ==> Building(level, current, lower, f, from, i + 1) && from <= i && from < |lower| - 1
  {
    level, current, from := level0, current0, from0;
    if |current.children| == f.internal + 1 {
      NodeFull(level, current, lower, f, from, i);
      level := level + [current];
      if i != |lower| - 1 {
        current := Internal([], [], 0, 0);
      }
      from := i;
    }
    if |current.children| > f.internal {
      GroupsGrow(|level|, 1, f.internal + 1);
      return false, level, current, from;
    }
    ChildAdded(current, lower[from..i], lower[i], f);
    assert lower[from..i + 1] == lower[from..i] + [lower[i]];
    current := WithChild(current, lower[i], f.internal);
    ok := true;
  }

  lemma NodeFull(level: seq<Node>, current: Node, lower: seq<Node>, f: Fanouts, from: nat, i: nat)
    requires Building(level, current, lower, f, from, i) && |current.children| == f.internal + 1
    ensures Building(level + [current], Internal([], [], 0, 0), lower, f, i, i)
  {
    OneGroupMore(|level|, f.internal + 1);
    assert GroupAt(current, lower, |level|, f);
  }

  /** Between two rounds: full nodes over lower[..from] and a node under construction over lower[from..i]. */
  predicate Building(level: seq<Node>, current: Node, lower: seq<Node>, f: Fanouts, from: nat, i: nat) {
    && from <= i <= |lower| && from == |level| * (f.internal + 1)
    && Growing(current, lower[from..i], f)
    && forall j {:trigger GroupAt(level[j], lower, j, f)} :: 0 <= j < |level| ==> GroupAt(level[j], lower, j, f)
  }

  /** The j-th group: its children are lower[a..b]. */
  lemma GroupFacts(level: seq<Node>, lower: seq<Node>, n: nat, f: Fanouts, j: nat) returns (a: nat, b: nat)
    requires Grouped(level, lower, f) && Covering(lower, n) && j < |level|
    ensures a == j * (f.internal + 1) && b == Min(a + f.internal + 1, |lower|) && a < b
    ensures Growing(level[j], lower[a..b], f)
    ensures First(level[j]) == First(lower[a]) && Last(level[j]) == Last(lower[b - 1])
    ensures First(level[j]) < Last(level[j])
    ensures b == |lower| <==> j == |level| - 1
  {
    var w := f.internal + 1;
    assert GroupAt(level[j], lower, j, f);
    OneGroupMore(j, w);
    a, b := j * w, Min(j * w + w, |lower|);
    assert level[j].children[0] == lower[a] && level[j].children[|level[j].children| - 1] == lower[b - 1];
    CoveringGrows(lower, n, a, b - 1);
    CeilBelow(j + 1, |lower|, w);
  }

  lemma GroupsAdjoin(level: seq<Node>, lower: seq<Node>, n: nat, f: Fanouts, j: nat)
    requires Grouped(level, lower, f) && Covering(lower, n) && 0 < j < |level|
    ensures First(level[j]) == Last(level[j - 1])
  {
    var a, b := GroupFacts(level, lower, n, f, j);
    var c, d := GroupFacts(level, lower, n, f, j - 1);
    OneGroupMore(j - 1, f.internal + 1);
    assert a == d;
  }

  lemma CoveringUp(level: seq<Node>, lower: seq<Node>, n: nat, f: Fanouts)
    requires Grouped(level, lower, f) && Covering(lower, n)
    ensures Covering(level, n)
  {
    CeilBelow(0, |lower|, f.internal + 1);
    var first, firstEnd := GroupFacts(level, lower, n, f, 0);
    var last, lastEnd := GroupFacts(level, lower, n, f, |level| - 1);
    forall j | 0 <= j < |level|
      ensures First(level[j]) < Last(level[j])
    {
      var a, b := GroupFacts(level, lower, n, f, j);
    }
    forall j | 0 < j < |level|
      ensures First(level[j]) == Last(level[j - 1])
    {
      GroupsAdjoin(level, lower, n, f, j);
    }
  }

  /** 65 full nodes' worth of leaves and one key more: with fanouts 4096 and 64 the level of internal nodes
      overflows. */
  lemma OneLeafTooMany()
    ensures !LevelsFit(Groups(65 * 4096 + 1, 4096), 65)
    ensures LevelsFit(Groups(65 * 4096, 4096), 65)
  {
    var w := 65;
    assert Groups(65 * 4096 + 1, 4096) == 66 && Groups(65 * 4096, 4096) == w;
    FewerGroups(w, 65);
    assert Groups(w, 65) == 1;
  }

  // ----- whole trees -----

  /** The leaves, and level upon level until one node is left. */
  ghost predicate Levels(levels: seq<seq<Node>>, data: seq<int>, f: Fanouts) {
    && f.Valid() && levels != []
    && |levels[0]| == Groups(|data|, f.leaf) && Covering(levels[0], |data|) && LeavesAt(levels[0], data, f.leaf)
    && forall i {:trigger LevelOver(levels, f, i)} :: 0 < i < |levels| ==> LevelOver(levels, f, i)
  }

  predicate LevelOver(levels: seq<seq<Node>>, f: Fanouts, i: nat) {
    0 < i < |levels| && |levels[i - 1]| > 1 && Grouped(levels[i], levels[i - 1], f)
  }

  /** The root is the tree that load_btree builds over the array. */
  ghost predicate Loaded(root: Node, data: seq<int>, f: Fanouts, depth: nat) {
    exists levels :: Levels(levels, data, f) && |levels| == depth + 1 && levels[depth] == [root]
  }

  lemma LevelsGrow(levels: seq<seq<Node>>, level: seq<Node>, data: seq<int>, f: Fanouts)
    requires Levels(levels, data, f) && |levels[|levels| - 1]| > 1 && Grouped(level, levels[|levels| - 1], f)
    ensures Levels(levels + [level], data, f)
  {
    var more := levels + [level];
    forall i | 0 < i < |more|
      ensures LevelOver(more, f, i)
    {
      if i < |levels| {
        assert LevelOver(levels, f, i) && more[i] == levels[i] && more[i - 1] == levels[i - 1];
      }
    }
  }

  /** load_btree's loop: the root and the depth, or None if some level writes past a node. */
  method LoadLevels(data: seq<int>, f: Fanouts) returns (r: Option<(Node, nat)>)
    requires data != [] && f.Valid()
    ensures r.Some? <==> LevelsFit(Groups(|data|, f.leaf), f.internal + 1)
    ensures r.Some? ==> Loaded(r.value.0, data, f, r.value.1)
  {
    var lower := BuildLeaves(data, f);
    var depth := 0;
    ghost var levels := [lower];
    while |lower| > 1
      invariant Levels(levels, data, f) && |levels| == depth + 1 && lower == levels[depth] && lower != []
      invariant LevelsFit(|lower|, f.internal + 1) <==> LevelsFit(Groups(|data|, f.leaf), f.internal + 1)
      decreases |lower|
    {
      FewerGroups(|lower|, f.internal + 1);
      var level := BuildLevel(lower, f);
      if level == None {
        return None;
      }
      LevelsGrow(levels, level.value, data, f);
      levels := levels + [level.value];
      lower := level.value;
      depth := depth + 1;
    }
    assert levels[depth] == [lower[0]];
    return Some((lower[0], depth));
  }
}
