/** The bulk-loaded B+tree over a sorted array, and plain binary search over the same array. */
module BTree {
  import opened BTreeLevels
  import opened Numbers
  import opened Options

  /** Keys may repeat but never fall. */
  predicate Sorted(data: seq<int>) {
    forall i, j :: 0 <= i < j < |data| ==> data[i] <= data[j]
  }

  predicate StrictlyIncreasing(data: seq<int>) {
    forall i, j :: 0 <= i < j < |data| ==> data[i] < data[j]
  }

  /** r is the first position whose key is at least `key`. */
  predicate LowerBound(data: seq<int>, key: int, r: nat) {
    r <= |data| && (forall i :: 0 <= i < r ==> data[i] < key) && (forall i :: r <= i < |data| ==> data[i] >= key)
  }

  /** Nothing before r is greater than key and nothing from r on is smaller. */
  predicate PartitionPoint(data: seq<int>, key: int, r: nat) {
    r <= |data| && (forall i :: 0 <= i < r ==> data[i] <= key) && (forall i :: r <= i < |data| ==> data[i] >= key)
  }

  // ----- searching one slice -----

  predicate FoundInSlice(data: seq<int>, start: nat, end: nat, key: int, r: Option<nat>)
    requires start < end <= |data|
  {
    && (r == None <==> start == 0 && key < data[0])
    && (r.Some? && data[start] <= key ==>
          && start <= r.value <= end
          && (forall i :: start <= i < r.value ==> data[i] < key)
          && (forall i :: r.value <= i < end ==> data[i] >= key))
    && (r.Some? && data[start] > key ==> r.value == if data[start - 1] < key then start else start - 1)
  }

  /** Binary search in [start, end).  None stands for the read before the array, which happens exactly when the slice
      starts the array and every key of it is larger.  Where every key of the slice is larger the result looks one
      entry to the left of the slice. */
  method FindSortedSlice(data: seq<int>, start: nat, end: nat, key: int) returns (r: Option<nat>)
    requires Sorted(data) && start < end <= |data|
    ensures FoundInSlice(data, start, end, key, r)
  {
    var l, h := start, end;
    var out: int := -1;
    while h > l
      invariant start <= l <= h <= end
      invariant forall i :: start <= i < l ==> data[i] < key
      invariant forall i :: h <= i < end ==> data[i] >= key
      invariant out == -1 ==> forall i :: h <= i < end ==> data[i] > key
      invariant out != -1 ==> out == h < end && data[h] == key
    {
      var m := l + (h - l) / 2;
      var val := data[m];
      if val < key {
        l := m + 1;
      } else if val > key {
        h := m;
      } else {
        out := m;
        h := m;
      }
    }
    if out == -1 {
      out := h - 1;
    }
    if out < 0 {
      return None;
    }
    if key > data[out] {
      out := out + 1;
    }
    return Some(out);
  }

  /** Binary search over the whole array. */
  method FindSorted(data: seq<int>, key: int) returns (r: Option<nat>)
    requires Sorted(data) && data != []
    ensures r == None <==> key < data[0]
    ensures r.Some? ==> LowerBound(data, key, r.value)
    ensures r.Some? ==> r.value <= |data| && forall i :: 0 <= i < |data| ==> (data[i] < key <==> i < r.value)
  {
    r := FindSortedSlice(data, 0, |data|, key);
  }

  // ----- keys of both signs -----

  /** The node's recorded largest key is the largest key of its stretch. */
  predicate Knows(t: Node, data: seq<int>) {
    0 < Last(t) <= |data| && t.high == data[Last(t) - 1]
  }

  /** Keys of one sign, which compare alike as signed and as unsigned numbers. */
  predicate SameSign(data: seq<int>) {
    (forall i :: 0 <= i < |data| ==> data[i] >= 0) || (forall i :: 0 <= i < |data| ==> data[i] < 0)
  }

  /** Node k of a level of which the first c have negative largest keys recorded: all have recorded the truth, except
      possibly, if `wrong`, the last of those c. */
  predicate SignAt(t: Node, data: seq<int>, k: nat, c: nat, wrong: bool) {
    && 0 < Last(t) <= |data| && (t.high < 0 <==> k < c)
    && (Knows(t, data) <==> !(wrong && k == c - 1))
    && (wrong && k == c - 1 ==> data[Last(t) - 1] >= 0)
  }

  predicate Signs(ts: seq<Node>, data: seq<int>, c: nat, wrong: bool) {
    && c <= |ts| && (wrong ==> c > 0)
    && forall k {:trigger SignAt(ts[k], data, k, c, wrong)} :: 0 <= k < |ts| ==> SignAt(ts[k], data, k, c, wrong)
  }

  lemma {:induction false} HighestOfOneSign(ts: seq<Node>)
    requires ts != [] && forall i, j :: 0 <= i <= j < |ts| ==> ts[i].high <= ts[j].high
    requires ts[0].high >= 0 || ts[|ts| - 1].high < 0
    ensures Highest(ts) == ts[|ts| - 1].high
  {
    if |ts| > 1 {
      HighestOfOneSign(ts[..|ts| - 1]);
    }
  }

  lemma {:induction false} HighestNegative(ts: seq<Node>, k: nat)
    requires k < |ts| && ts[k].high < 0
    ensures Highest(ts) < 0
  {
    if k < |ts| - 1 {
      HighestNegative(ts[..|ts| - 1], k);
    }
  }

  /** The largest key a node over lower[a..b] records is negative if that of any child is, and then wrong if there are
      children of both signs. */
  lemma NodeSigns(lower: seq<Node>, data: seq<int>, c: nat, wrong: bool, a: nat, b: nat)
    requires Sorted(data) && Covering(lower, |data|) && Signs(lower, data, c, wrong) && a < b <= |lower|
    ensures Highest(lower[a..b]) < 0 <==> a < c
    ensures 0 < Last(lower[b - 1]) <= |data|
    ensures var largest := data[Last(lower[b - 1]) - 1];
      if c <= a || (b <= c && !(wrong && b == c)) then Highest(lower[a..b]) == largest else largest >= 0
  {
    var ts := lower[a..b];
    assert ts[|ts| - 1] == lower[b - 1] && ts[0] == lower[a];
    assert SignAt(lower[a], data, a, c, wrong) && SignAt(lower[b - 1], data, b - 1, c, wrong);
    if a < c {
      HighestNegative(ts, 0);
    }
    if c <= a || (b <= c && !(wrong && b == c)) {
      HighsGrow(lower, data, c, wrong, a, b);
      HighestOfOneSign(ts);
    }
  }

  lemma HighsGrow(lower: seq<Node>, data: seq<int>, c: nat, wrong: bool, a: nat, b: nat)
    requires Sorted(data) && Covering(lower, |data|) && Signs(lower, data, c, wrong) && a < b <= |lower|
    requires c <= a || (b <= c && !(wrong && b == c))
    ensures forall i, j :: 0 <= i <= j < b - a ==> lower[a..b][i].high <= lower[a..b][j].high
  {
    var ts := lower[a..b];
    forall i, j | 0 <= i <= j < |ts|
      ensures ts[i].high <= ts[j].high
    {
      CoveringGrows(lower, |data|, a + i, a + j);
      assert SignAt(lower[a + i], data, a + i, c, wrong) && SignAt(lower[a + j], data, a + j, c, wrong);
    }
  }

  /** No negative number is recorded that is above h. */
  predicate NoneAbove(ts: seq<Node>, h: int) {
    forall k :: 0 <= k < |ts| && ts[k].high < 0 ==> ts[k].high <= h
  }

  lemma {:induction false} HighestBelow(ts: seq<Node>, h: int)
    requires NoneAbove(ts, h)
    ensures Highest(ts) < 0 ==> Highest(ts) <= h
  {
    if ts != [] {
      HighestBelow(ts[..|ts| - 1], h);
    }
  }

  lemma {:induction false} HighestReached(ts: seq<Node>, h: int, k: nat)
    requires NoneAbove(ts, h) && k < |ts| && ts[k].high == h < 0
    ensures Highest(ts) == h
  {
    var n := |ts| - 1;
    HighestBelow(ts[..n], h);
    if k < n {
      HighestReached(ts[..n], h, k);
    }
  }

  /** Whether one of the nodes of the next level gets children of both signs. */
  predicate Straddles(n: nat, c: nat, w: nat)
    requires w > 0
  {
    c % w != 0 && c < n
  }

  lemma FewerNegative(c: nat, n: nat, w: nat)
    requires w > 0 && c <= n
    ensures Groups(c, w) <= Groups(n, w) && (c > 0 <==> Groups(c, w) > 0)
  {
    CeilBelow(0, c, w);
    if Groups(c, w) > 0 {
      CeilBelow(Groups(c, w) - 1, c, w);
      CeilBelow(Groups(c, w) - 1, n, w);
    }
  }

  /** The j-th group of n, up to b, against the first c. */
  lemma GroupAndSign(n: nat, c: nat, w: nat, j: nat, b: nat)
    requires w > 0 && c <= n && b == Min(j * w + w, n) && j * w < n
    ensures j * w < c <==> j < Groups(c, w)
    ensures b < c ==> j < Groups(c, w) - 1
    ensures b == c ==> j == Groups(c, w) - 1 && !Straddles(n, c, w)
    ensures j * w < c < b ==> j == Groups(c, w) - 1 && Straddles(n, c, w)
  {
    CeilBelow(j, c, w);
    CeilBelow(j + 1, c, w);
    OneGroupMore(j, w);
    if j * w < c < b {
      DivUnique(c, w, j, c - j * w);
    } else if b == c && c < n {
      DivUnique(c, w, j + 1, 0);
    }
  }

  lemma NegativesLeft(c: nat, n: nat, w: nat, wrong: bool, c': nat, wrong': bool)
    requires w > 0 && c <= n && (wrong ==> c > 0)
    requires c' == Groups(c, w) && wrong' == (wrong || Straddles(n, c, w))
    ensures c' <= Groups(n, w) && (wrong' ==> c' > 0)
  {
    FewerNegative(c, n, w);
  }

  lemma NodeSignsUp(level: seq<Node>, lower: seq<Node>, data: seq<int>, c: nat, wrong: bool, f: Fanouts,
                    c': nat, wrong': bool, j: nat)
    requires Sorted(data) && Grouped(level, lower, f) && Covering(lower, |data|) && Signs(lower, data, c, wrong)
    requires j < |level|
    requires c' == Groups(c, f.internal + 1) && wrong' == (wrong || Straddles(|lower|, c, f.internal + 1))
    ensures SignAt(level[j], data, j, c', wrong')
  {
    var a, b := GroupFacts(level, lower, |data|, f, j);
    NodeSigns(lower, data, c, wrong, a, b);
    GroupAndSign(|lower|, c, f.internal + 1, j, b);
  }

  /** One level up the negative nodes are the groups with a negative child, and the last of them is wrong if it was
      already, or if it has children of both signs. */
  lemma SignsUp(level: seq<Node>, lower: seq<Node>, data: seq<int>, c: nat, wrong: bool, f: Fanouts,
                c': nat, wrong': bool)
    requires Sorted(data) && Grouped(level, lower, f) && Covering(lower, |data|) && Signs(lower, data, c, wrong)
    requires c' == Groups(c, f.internal + 1) && wrong' == (wrong || Straddles(|lower|, c, f.internal + 1))
    ensures Signs(level, data, c', wrong')
  {
    forall j: nat | j < |level|
      ensures SignAt(level[j], data, j, c', wrong')
    {
      NodeSignsUp(level, lower, data, c, wrong, f, c', wrong', j);
    }
    NegativesLeft(c, |lower|, f.internal + 1, wrong, c', wrong');
  }

  /** How many of the first n leaves have a negative largest key. */
  function NegativeLeaves(data: seq<int>, leafFanout: nat, n: nat): (c: nat)
    requires leafFanout > 0 && n <= Groups(|data|, leafFanout)
    ensures c <= n
  {
    if n == 0 then 0
    else
      CeilBelow(n - 1, |data|, leafFanout);
      NegativeLeaves(data, leafFanout, n - 1) + if LeafHigh(data, leafFanout, n - 1) < 0 then 1 else 0
  }

  lemma {:induction false} NegativeFirst(data: seq<int>, leafFanout: nat, n: nat, b: nat)
    requires leafFanout > 0 && Sorted(data) && b < n <= Groups(|data|, leafFanout)
    ensures b * leafFanout < |data|
    ensures LeafHigh(data, leafFanout, b) < 0 <==> b < NegativeLeaves(data, leafFanout, n)
  {
    CeilBelow(b, |data|, leafFanout);
    CeilBelow(n - 1, |data|, leafFanout);
    if b < n - 1 {
      NegativeFirst(data, leafFanout, n - 1, b);
      LeafHighsGrow(data, leafFanout, b, n - 1);
    } else if b > 0 {
      CeilBelow(b - 1, |data|, leafFanout);
      NegativeFirst(data, leafFanout, n - 1, b - 1);
      LeafHighsGrow(data, leafFanout, b - 1, b);
    }
  }

  lemma LeafSigns(leaves: seq<Node>, data: seq<int>, f: Fanouts)
    requires f.Valid() && Sorted(data) && |leaves| == Groups(|data|, f.leaf)
    requires LeavesAt(leaves, data, f.leaf)
    ensures Signs(leaves, data, NegativeLeaves(data, f.leaf, |leaves|), false)
  {
    forall b: nat | b < |leaves|
      ensures SignAt(leaves[b], data, b, NegativeLeaves(data, f.leaf, |leaves|), false)
    {
      assert LeafAt(leaves[b], data, f.leaf, b);
      NegativeFirst(data, f.leaf, |leaves|, b);
    }
  }

  lemma LeafHighsGrow(data: seq<int>, leafFanout: nat, a: nat, b: nat)
    requires leafFanout > 0 && Sorted(data) && a <= b && a * leafFanout < |data| && b * leafFanout < |data|
    ensures LeafHigh(data, leafFanout, a) <= LeafHigh(data, leafFanout, b)
  {
    Monotone(a + 1, b + 1, leafFanout);
    OneGroupMore(a, leafFanout);
  }

  // ----- the levels of a tree, in numbers -----

  /** A level: how many nodes of how many entries each, how many of the first have a negative largest key recorded,
      whether the last of these is wrong, and where the outermost wrong separator below ends (0 if there is none). */
  datatype Level = Level(nodes: nat, span: nat, negative: nat, wrong: bool, skipTo: nat) {
    /** A wrong node becomes a separator of the next level. */
    predicate Misleads(w: nat)
      requires w > 0
    {
      wrong && Straddles(nodes, negative, w)
    }
  }

  /** The next level. */
  function Up(l: Level, w: nat): Level
    requires w > 0
  {
    Level(Groups(l.nodes, w), l.span * w, Groups(l.negative, w), l.wrong || Straddles(l.nodes, l.negative, w),
          if l.Misleads(w) then l.negative * l.span else l.skipTo)
  }

  function LeafLevel(data: seq<int>, f: Fanouts): Level
    requires f.leaf > 0
  {
    var n := Groups(|data|, f.leaf);
    Level(n, f.leaf, NegativeLeaves(data, f.leaf, n), false, 0)
  }

  function Top(l: Level, w: nat): Level
    requires w > 1
    decreases l.nodes
  {
    if l.nodes <= 1 then l
    else
      FewerGroups(l.nodes, w);
      Top(Up(l, w), w)
  }

  /** Where the outermost wrong separator of the whole tree ends, or 0. */
  function SkipTo(data: seq<int>, f: Fanouts): nat
    requires f.leaf > 0 && f.internal > 0
  {
    Top(LeafLevel(data, f), f.internal + 1).skipTo
  }

  /** No separator is wrong about its sign. */
  predicate SeparatorsFit(data: seq<int>, f: Fanouts)
    requires f.leaf > 0 && f.internal > 0
  {
    SkipTo(data, f) == 0
  }

  /** The largest key of the last leaf whose largest key is negative: what every wrong separator says. */
  function NegativeHigh(data: seq<int>, leafFanout: nat): int
    requires leafFanout > 0
  {
    var c := NegativeLeaves(data, leafFanout, Groups(|data|, leafFanout));
    if c == 0 then 0
    else
      CeilBelow(c - 1, |data|, leafFanout);
      LeafHigh(data, leafFanout, c - 1)
  }

  /** A search for the key goes past a wrong separator that ends at s, although the key belongs before s. */
  predicate SkipsTo(data: seq<int>, leafFanout: nat, s: nat, key: int)
    requires leafFanout > 0
  {
    0 < s <= |data| && NegativeHigh(data, leafFanout) <= key < data[s - 1]
  }

  predicate Skips(data: seq<int>, f: Fanouts, key: int)
    requires f.leaf > 0 && f.internal > 0
  {
    SkipsTo(data, f.leaf, SkipTo(data, f), key)
  }

  /** Levels without a sign change. */
  lemma {:induction false} OneSignFits(l: Level, w: nat)
    requires w > 1 && (l.negative == 0 || l.negative == l.nodes) && !l.wrong && l.skipTo == 0
    ensures Top(l, w).skipTo == 0
    decreases l.nodes
  {
    if l.nodes > 1 {
      FewerGroups(l.nodes, w);
      CeilBelow(0, 0, w);
      OneSignFits(Up(l, w), w);
    }
  }

  /** Leaves that are the children of one node. */
  lemma OneNodeFits(l: Level, w: nat)
    requires w > 1 && l.nodes <= w && !l.wrong && l.skipTo == 0
    ensures Top(l, w).skipTo == 0
  {
    if l.nodes > 1 {
      GroupsGrow(0, l.nodes, w);
      FewerGroups(l.nodes, w);
      assert Top(Up(l, w), w) == Up(l, w);
    }
  }

  /** Keys of one sign fit, and so does any array whose leaves are the children of one node. */
  lemma FitsEasily(data: seq<int>, f: Fanouts)
    requires f.leaf > 0 && f.internal > 0
    requires SameSign(data) || Groups(|data|, f.leaf) <= f.internal + 1
    ensures SeparatorsFit(data, f)
  {
    var l := LeafLevel(data, f);
    if l.nodes <= f.internal + 1 {
      OneNodeFits(l, f.internal + 1);
    } else {
      AllOrNone(data, f.leaf, l.nodes);
      OneSignFits(l, f.internal + 1);
    }
  }

  lemma {:induction false} AllOrNone(data: seq<int>, leafFanout: nat, n: nat)
    requires leafFanout > 0 && n <= Groups(|data|, leafFanout) && SameSign(data)
    ensures NegativeLeaves(data, leafFanout, n) == if data != [] && data[0] < 0 then n else 0
  {
    if n > 0 {
      CeilBelow(n - 1, |data|, leafFanout);
      AllOrNone(data, leafFanout, n - 1);
    }
  }

  /** The first n nodes end at multiples of the span; every node but the last of a level does. */
  predicate EndsAt(t: Node, j: nat, span: nat) {
    Last(t) == (j + 1) * span
  }

  /** The level is as its numbers say. */
  predicate Fits(ts: seq<Node>, data: seq<int>, leafFanout: nat, l: Level)
    requires leafFanout > 0
  {
    && |ts| == l.nodes && Covering(ts, |data|) && Signs(ts, data, l.negative, l.wrong) && l.span >= 2
    && (forall j {:trigger EndsAt(ts[j], j, l.span)} :: 0 <= j < |ts| - 1 ==> EndsAt(ts[j], j, l.span))
    && NoneAbove(ts, NegativeHigh(data, leafFanout))
    && (l.negative > 0 ==> ts[l.negative - 1].high == NegativeHigh(data, leafFanout))
    && (l.skipTo > 0 ==> l.wrong && 2 <= l.skipTo < Last(ts[l.negative - 1]))
    && (0 < l.skipTo <= |data| ==> data[l.skipTo - 1] >= 0)
  }

  lemma LeavesFit(leaves: seq<Node>, data: seq<int>, f: Fanouts)
    requires f.Valid() && Sorted(data) && |leaves| == Groups(|data|, f.leaf) && Covering(leaves, |data|)
    requires LeavesAt(leaves, data, f.leaf)
    ensures Fits(leaves, data, f.leaf, LeafLevel(data, f))
  {
    var l := LeafLevel(data, f);
    LeafSigns(leaves, data, f);
    forall j: nat | j < |leaves| - 1
      ensures EndsAt(leaves[j], j, f.leaf)
    {
      assert LeafAt(leaves[j], data, f.leaf, j);
      CeilBelow(j + 1, |data|, f.leaf);
    }
    if l.negative > 0 {
      assert LeafAt(leaves[l.negative - 1], data, f.leaf, l.negative - 1);
    }
    forall j: nat | j < |leaves| && leaves[j].high < 0
      ensures leaves[j].high <= NegativeHigh(data, f.leaf)
    {
      assert LeafAt(leaves[j], data, f.leaf, j) && SignAt(leaves[j], data, j, l.negative, false);
      CeilBelow(l.negative - 1, |data|, f.leaf);
      LeafHighsGrow(data, f.leaf, j, l.negative - 1);
    }
  }

  /** The group of the last negative node: it has children of both signs exactly if the node is not its last. */
  lemma NegativeGroup(level: seq<Node>, lower: seq<Node>, n: nat, f: Fanouts, c: nat) returns (a: nat, b: nat)
    requires Grouped(level, lower, f) && Covering(lower, n) && 0 < c <= |lower|
    ensures 0 < Groups(c, f.internal + 1) <= |level| && a < c <= b <= |lower|
    ensures Growing(level[Groups(c, f.internal + 1) - 1], lower[a..b], f)
    ensures Last(level[Groups(c, f.internal + 1) - 1]) == Last(lower[b - 1])
    ensures b == c <==> !Straddles(|lower|, c, f.internal + 1)
  {
    var w := f.internal + 1;
    FewerNegative(c, |lower|, w);
    var j := Groups(c, w) - 1;
    a, b := GroupFacts(level, lower, n, f, j);
    GroupAndSign(|lower|, c, w, j, b);
  }

  /** One level up the last negative node records the same. */
  lemma HighUp(level: seq<Node>, lower: seq<Node>, data: seq<int>, f: Fanouts, l: Level)
    requires f.Valid() && Grouped(level, lower, f) && Fits(lower, data, f.leaf, l) && l.negative > 0
    ensures 0 < Groups(l.negative, f.internal + 1) <= |level|
    ensures level[Groups(l.negative, f.internal + 1) - 1].high == NegativeHigh(data, f.leaf)
  {
    var c := l.negative;
    var a, b := NegativeGroup(level, lower, |data|, f, c);
    assert SignAt(lower[c - 1], data, c - 1, c, l.wrong);
    assert lower[a..b][c - 1 - a] == lower[c - 1];
    HighestReached(lower[a..b], NegativeHigh(data, f.leaf), c - 1 - a);
  }

  lemma NoneAboveUp(level: seq<Node>, lower: seq<Node>, n: nat, f: Fanouts, h: int)
    requires Grouped(level, lower, f) && Covering(lower, n) && NoneAbove(lower, h)
    ensures NoneAbove(level, h)
  {
    forall j: nat | j < |level| && level[j].high < 0
      ensures level[j].high <= h
    {
      var a, b := GroupFacts(level, lower, n, f, j);
      HighestBelow(lower[a..b], h);
    }
  }

  lemma EndsUp(level: seq<Node>, lower: seq<Node>, n: nat, f: Fanouts, span: nat, j: nat)
    requires Grouped(level, lower, f) && Covering(lower, n) && j < |level| - 1
    requires forall i {:trigger EndsAt(lower[i], i, span)} :: 0 <= i < |lower| - 1 ==> EndsAt(lower[i], i, span)
    ensures EndsAt(level[j], j, span * (f.internal + 1))
  {
    var w := f.internal + 1;
    var a, b := GroupFacts(level, lower, n, f, j);
    assert EndsAt(lower[b - 1], b - 1, span);
    OneGroupMore(j, w);
    TimesThree(j + 1, w, span);
  }

  lemma TimesThree(x: nat, y: nat, z: nat)
    ensures (x * y) * z == x * (z * y)
  {
  }

  /** The skip, seen one level up. */
  lemma SkipUp(level: seq<Node>, lower: seq<Node>, data: seq<int>, f: Fanouts, l: Level)
    requires f.Valid() && Grouped(level, lower, f) && Fits(lower, data, f.leaf, l)
    ensures var u := Up(l, f.internal + 1);
      u.skipTo > 0 ==> u.wrong && 0 < u.negative <= |level| && 2 <= u.skipTo < Last(level[u.negative - 1])
                       && (u.skipTo <= |data| ==> data[u.skipTo - 1] >= 0)
    ensures l.Misleads(f.internal + 1) ==> l.negative < |lower| && l.negative * l.span == Last(lower[l.negative - 1])
  {
    var c := l.negative;
    if c > 0 {
      var a, b := NegativeGroup(level, lower, |data|, f, c);
      CoveringGrows(lower, |data|, c - 1, b - 1);
      if l.Misleads(f.internal + 1) {
        assert EndsAt(lower[c - 1], c - 1, l.span) && SignAt(lower[c - 1], data, c - 1, c, l.wrong);
        CoveringGrows(lower, |data|, c, b - 1);
        Monotone(1, c, l.span);
      }
    }
  }

  lemma FitsUp(level: seq<Node>, lower: seq<Node>, data: seq<int>, f: Fanouts, l: Level)
    requires f.Valid() && Sorted(data) && Grouped(level, lower, f) && Fits(lower, data, f.leaf, l)
    ensures Fits(level, data, f.leaf, Up(l, f.internal + 1))
  {
    var w := f.internal + 1;
    CoveringUp(level, lower, |data|, f);
    var u := Up(l, w);
    SignsUp(level, lower, data, l.negative, l.wrong, f, u.negative, u.wrong);
    NoneAboveUp(level, lower, |data|, f, NegativeHigh(data, f.leaf));
    SkipUp(level, lower, data, f, l);
    FewerNegative(l.negative, |lower|, w);
    if l.negative > 0 {
      HighUp(level, lower, data, f, l);
    }
    forall j: nat | j < |level| - 1
      ensures EndsAt(level[j], j, l.span * w)
    {
      EndsUp(level, lower, |data|, f, l.span, j);
    }
    Monotone(1, w, l.span);
  }

  // ----- searching -----

  /** From k on, the first of the keys that is larger, or their number. */
  function FirstLarger(keys: seq<int>, key: int, size: nat, k: nat): nat
    requires k <= size <= |keys|
    decreases size - k
  {
    if k < size && keys[k] <= key then FirstLarger(keys, key, size, k + 1) else k
  }

  method InternalSearch(key: int, keys: seq<int>, size: nat) returns (k: nat)
    requires size <= |keys|
    ensures k <= size && (forall i :: 0 <= i < k ==> keys[i] <= key) && (k < size ==> keys[k] > key)
    ensures k == FirstLarger(keys, key, size, 0)
  {
    k := 0;
    while k < size && keys[k] <= key
      invariant k <= size && forall i :: 0 <= i < k ==> keys[i] <= key
      invariant FirstLarger(keys, key, size, k) == FirstLarger(keys, key, size, 0)
    {
      k := k + 1;
    }
  }

  // ----- where a search ends -----

  /** The node says of the key what its largest key says: whether the key lies beyond. */
  predicate Parts(t: Node, data: seq<int>, key: int) {
    0 < Last(t) <= |data| && (t.high <= key <==> data[Last(t) - 1] <= key)
  }

  /** A subtree of this height over a stretch of the array, whose separators steer a search for the key right. */
  ghost predicate Steers(t: Node, data: seq<int>, f: Fanouts, height: nat, key: int)
    requires f.Valid()
    decreases height, 0
  {
    && First(t) < Last(t) <= |data|
    && (height == 0 <==> t.Leaf?)
    && (t.Leaf? ==> Aligned(t.start, t.end, |data|, f.leaf))
    && (t.Internal? ==>
          && t.children != [] && Holds(t, t.children, f)
          && SteeringRow(t.children, data, f, height - 1, key) && Separated(t.children, data, key))
  }

  /** A row of such subtrees over adjoining stretches. */
  ghost predicate SteeringRow(ts: seq<Node>, data: seq<int>, f: Fanouts, height: nat, key: int)
    requires f.Valid()
    decreases height, 1
  {
    && (forall k :: 0 <= k < |ts| ==> Steers(ts[k], data, f, height, key))
    && (forall k :: 0 < k < |ts| ==> First(ts[k]) == Last(ts[k - 1]))
  }

  predicate Separated(ts: seq<Node>, data: seq<int>, key: int) {
    forall k :: 0 <= k < |ts| - 1 ==> Parts(ts[k], data, key)
  }

  /** A tree over the whole array that steers every search right: every separator is the largest key of its subtree. */
  ghost predicate Tree(t: Node, data: seq<int>, f: Fanouts, depth: nat) {
    && f.Valid() && First(t) == 0 && Last(t) == |data|
    && forall key :: Steers(t, data, f, depth, key)
  }

  /** Everything before the subtree is at most key, everything after it larger; and if anything comes after it, its own
      largest key is larger. */
  ghost predicate Leads(t: Node, data: seq<int>, key: int) {
    && (forall i :: 0 <= i < First(t) && i < |data| ==> data[i] <= key)
    && (forall i :: Last(t) <= i < |data| ==> data[i] > key)
    && (0 < Last(t) < |data| ==> data[Last(t) - 1] > key)
  }

  lemma ChildLeads(t: Node, data: seq<int>, f: Fanouts, height: nat, key: int, k: nat)
    requires f.Valid()
    requires Sorted(data) && Steers(t, data, f, height, key) && t.Internal? && Leads(t, data, key)
    requires k < |t.children|
    requires k > 0 ==> t.children[k - 1].high <= key
    requires k < |t.children| - 1 ==> t.children[k].high > key
    ensures height > 0 && Steers(t.children[k], data, f, height - 1, key) && Leads(t.children[k], data, key)
  {
    assert SteeringRow(t.children, data, f, height - 1, key) && Separated(t.children, data, key);
    assert Steers(t.children[k], data, f, height - 1, key);
    if k > 0 {
      assert Steers(t.children[k - 1], data, f, height - 1, key) && Parts(t.children[k - 1], data, key);
    }
    if k < |t.children| - 1 {
      assert Parts(t.children[k], data, key);
    }
  }

  /** Internal nodes with children down to leaves at this height. */
  predicate Shaped(t: Node, height: nat) {
    if height == 0 then t.Leaf?
    else t.Internal? && t.children != [] && forall k :: 0 <= k < |t.children| ==> Shaped(t.children[k], height - 1)
  }

  predicate ShapedRow(ts: seq<Node>, height: nat) {
    forall k :: 0 <= k < |ts| ==> Shaped(ts[k], height)
  }

  /** The child the separators choose. */
  function ChildFor(t: Node, key: int): (k: nat)
    requires t.Internal? && t.children != []
    ensures k < |t.children|
  {
    FirstLargerIs(t.keys, key, Min(|t.children| - 1, |t.keys|), 0);
    FirstLarger(t.keys, key, Min(|t.children| - 1, |t.keys|), 0)
  }

  lemma {:induction false} FirstLargerIs(keys: seq<int>, key: int, size: nat, k: nat)
    requires k <= size <= |keys|
    ensures var r := FirstLarger(keys, key, size, k);
      k <= r <= size && (forall i :: k <= i < r ==> keys[i] <= key) && (r < size ==> keys[r] > key)
    decreases size - k
  {
    if k < size {
      FirstLargerIs(keys, key, size, k + 1);
    }
  }

  /** It is the first whose recorded largest key is larger, or the last. */
  lemma ChildIs(t: Node, f: Fanouts, key: int, k: nat)
    requires t.Internal? && k < |t.children| && Holds(t, t.children, f)
    ensures ChildFor(t, key) == k <==>
      (forall i :: 0 <= i < k ==> t.children[i].high <= key) && (k < |t.children| - 1 ==> t.children[k].high > key)
  {
    var size := |t.children| - 1;
    assert size == Min(|t.children| - 1, |t.keys|);
    FirstLargerIs(t.keys, key, size, 0);
    var r := FirstLarger(t.keys, key, size, 0);
    assert forall i :: 0 <= i < size ==> t.keys[i] == t.children[i].high;
  }

  function LeafFor(t: Node, height: nat, key: int): (leaf: Node)
    requires Shaped(t, height)
    ensures leaf.Leaf?
    decreases height
  {
    if height == 0 then t else LeafFor(t.children[ChildFor(t, key)], height - 1, key)
  }

  /** From a node that steers the key right and leads to it, the search keeps both. */
  lemma {:induction false} LeafLeads(t: Node, data: seq<int>, f: Fanouts, height: nat, key: int)
    requires f.Valid() && Sorted(data) && Shaped(t, height)
    requires Steers(t, data, f, height, key) && Leads(t, data, key)
    ensures Steers(LeafFor(t, height, key), data, f, 0, key) && Leads(LeafFor(t, height, key), data, key)
    decreases height
  {
    if height > 0 {
      var k := ChildFor(t, key);
      ChildIs(t, f, key, k);
      ChildLeads(t, data, f, height, key, k);
      LeafLeads(t.children[k], data, f, height - 1, key);
    }
  }

  /** Where everything below is larger, the search keeps to the left. */
  lemma {:induction false} KeepsLeft(t: Node, data: seq<int>, f: Fanouts, height: nat, key: int)
    requires f.Valid() && Sorted(data) && Shaped(t, height)
    requires Steers(t, data, f, height, key) && data[First(t)] > key
    ensures LeafFor(t, height, key).start == First(t) && Steers(LeafFor(t, height, key), data, f, 0, key)
    decreases height
  {
    if height > 0 {
      assert SteeringRow(t.children, data, f, height - 1, key) && Separated(t.children, data, key);
      assert Steers(t.children[0], data, f, height - 1, key);
      if |t.children| > 1 {
        assert Parts(t.children[0], data, key);
      }
      ChildIs(t, f, key, 0);
      KeepsLeft(t.children[0], data, f, height - 1, key);
    }
  }

  /** find_leaf.  From the root of a tree that steers the key right it reaches the leaf that leads to the key. */
  method FindLeaf(root: Node, depth: nat, key: int, ghost data: seq<int>, ghost f: Fanouts) returns (leaf: Node)
    requires Sorted(data) && Shaped(root, depth) && f.Valid()
    ensures leaf == LeafFor(root, depth, key)
    ensures Steers(root, data, f, depth, key) && Leads(root, data, key) ==>
      Steers(leaf, data, f, 0, key) && Leads(leaf, data, key)
  {
    var node, left := root, depth;
    while left > 0
      invariant Shaped(node, left) && LeafFor(node, left, key) == LeafFor(root, depth, key)
    {
      var index := InternalSearch(key, node.keys, Min(|node.children| - 1, |node.keys|));
      node := node.children[index];
      left := left - 1;
    }
    if Steers(root, data, f, depth, key) && Leads(root, data, key) {
      LeafLeads(root, data, f, depth, key);
    }
    return node;
  }

  /** The search for the key from here ends at the leaf that starts at s. */
  ghost predicate EndsAtLeaf(t: Node, data: seq<int>, f: Fanouts, height: nat, key: int, s: nat) {
    && f.Valid() && Shaped(t, height) && LeafFor(t, height, key).start == s
    && Steers(LeafFor(t, height, key), data, f, 0, key)
  }

  /** Node k of a level: a search that skips, from the last negative node, ends behind the skip; all others are steered
      right. */
  ghost predicate LedAt(t: Node, data: seq<int>, f: Fanouts, height: nat, l: Level, key: int, k: nat)
    requires f.Valid()
  {
    if k == l.negative - 1 && SkipsTo(data, f.leaf, l.skipTo, key) then EndsAtLeaf(t, data, f, height, key, l.skipTo)
    else Steers(t, data, f, height, key)
  }

  ghost predicate Led(ts: seq<Node>, data: seq<int>, f: Fanouts, height: nat, l: Level, key: int)
    requires f.Valid()
  {
    forall k {:trigger LedAt(ts[k], data, f, height, l, key, k)} :: 0 <= k < |ts| ==>
      LedAt(ts[k], data, f, height, l, key, k)
  }

  lemma LeavesLed(leaves: seq<Node>, data: seq<int>, f: Fanouts, key: int)
    requires f.Valid() && Covering(leaves, |data|) && LeavesAt(leaves, data, f.leaf)
    ensures ShapedRow(leaves, 0) && Led(leaves, data, f, 0, LeafLevel(data, f), key)
  {
    forall b: nat | b < |leaves|
      ensures leaves[b].Leaf? && Steers(leaves[b], data, f, 0, key)
    {
      OneGroupMore(b, f.leaf);
      DivUnique(b * f.leaf, f.leaf, b, 0);
      assert LeafAt(leaves[b], data, f.leaf, b);
    }
  }

  lemma ShapedUp(level: seq<Node>, lower: seq<Node>, n: nat, f: Fanouts, height: nat)
    requires Grouped(level, lower, f) && Covering(lower, n) && ShapedRow(lower, height)
    ensures ShapedRow(level, height + 1)
  {
    forall j: nat | j < |level|
      ensures Shaped(level[j], height + 1)
    {
      var a, b := GroupFacts(level, lower, n, f, j);
    }
  }

  /** One round of the induction over the levels: the skip of the level below, or the wrong separator that the level
      itself gets, is where a search ends that skips. */
  lemma LedUp(level: seq<Node>, lower: seq<Node>, data: seq<int>, f: Fanouts, height: nat, l: Level, key: int)
    requires f.Valid() && Sorted(data) && Grouped(level, lower, f) && Fits(lower, data, f.leaf, l)
    requires ShapedRow(lower, height) && Led(lower, data, f, height, l, key)
    ensures Led(level, data, f, height + 1, Up(l, f.internal + 1), key)
  {
    var u := Up(l, f.internal + 1);
    forall j: nat | j < |level|
      ensures LedAt(level[j], data, f, height + 1, u, key, j)
    {
      if j == u.negative - 1 && SkipsTo(data, f.leaf, u.skipTo, key) {
        if l.Misleads(f.internal + 1) {
          SkipBegins(level, lower, data, f, height, l, key);
        } else {
          SkipGoesOn(level, lower, data, f, height, l, key);
        }
      } else {
        NodeSteers(level, lower, data, f, height, l, key, j);
      }
    }
  }

  /** A search that goes to the k-th child ends where it ends there. */
  lemma GoesTo(t: Node, data: seq<int>, f: Fanouts, height: nat, key: int, k: nat, s: nat)
    requires f.Valid() && Shaped(t, height + 1) && k < |t.children| && Holds(t, t.children, f)
    requires forall i :: 0 <= i < k ==> t.children[i].high <= key
    requires k < |t.children| - 1 ==> t.children[k].high > key
    requires EndsAtLeaf(t.children[k], data, f, height, key, s)
    ensures EndsAtLeaf(t, data, f, height + 1, key, s)
  {
    ChildIs(t, f, key, k);
  }

  /** A wrong separator: the search goes past it to the next child, and keeps left there. */
  lemma SkipBegins(level: seq<Node>, lower: seq<Node>, data: seq<int>, f: Fanouts, height: nat, l: Level, key: int)
    requires f.Valid() && Sorted(data) && Grouped(level, lower, f) && Fits(lower, data, f.leaf, l)
    requires ShapedRow(lower, height) && Led(lower, data, f, height, l, key)
    requires l.Misleads(f.internal + 1) && SkipsTo(data, f.leaf, l.negative * l.span, key)
    ensures 0 < Groups(l.negative, f.internal + 1) <= |level|
    ensures EndsAtLeaf(level[Groups(l.negative, f.internal + 1) - 1], data, f, height + 1, key, l.negative * l.span)
  {
    var c := l.negative;
    SkipUp(level, lower, data, f, l);
    var a, b := NegativeGroup(level, lower, |data|, f, c);
    var t := level[Groups(c, f.internal + 1) - 1];
    var s := c * l.span;
    ShapedUp(level, lower, |data|, f, height);
    NegativesPassed(lower, data, f, l, key, a, b, c);
    SkippedPast(lower, data, f, height, l, key, c);
    assert t.children[c - a] == lower[c];
    GoesTo(t, data, f, height, key, c - a, s);
  }

  /** What a search that skips passes. */
  lemma NegativesPassed(lower: seq<Node>, data: seq<int>, f: Fanouts, l: Level, key: int, a: nat, b: nat, c: nat)
    requires f.Valid() && Fits(lower, data, f.leaf, l) && NegativeHigh(data, f.leaf) <= key
    requires a <= c <= b <= |lower| && c <= l.negative
    ensures forall i :: 0 <= i < c - a ==> lower[a..b][i].high <= key
  {
    forall i | 0 <= i < c - a
      ensures lower[a..b][i].high <= key
    {
      assert SignAt(lower[a + i], data, a + i, l.negative, l.wrong);
    }
  }

  /** The node behind a wrong separator is where it stops: all its keys are larger. */
  lemma SkippedPast(lower: seq<Node>, data: seq<int>, f: Fanouts, height: nat, l: Level, key: int, c: nat)
    requires f.Valid() && Sorted(data) && Fits(lower, data, f.leaf, l) && 0 < c == l.negative < |lower|
    requires ShapedRow(lower, height) && Led(lower, data, f, height, l, key)
    requires 0 < Last(lower[c - 1]) <= |data| && key < data[Last(lower[c - 1]) - 1]
    ensures lower[c].high > key && EndsAtLeaf(lower[c], data, f, height, key, Last(lower[c - 1]))
  {
    assert SignAt(lower[c], data, c, c, l.wrong);
    assert First(lower[c]) == Last(lower[c - 1]) && First(lower[c]) < Last(lower[c]);
    assert LedAt(lower[c], data, f, height, l, key, c);
    KeepsLeft(lower[c], data, f, height, key);
  }

  /** A skip below: the search comes to the last negative node again, which is the last of its group. */
  lemma SkipGoesOn(level: seq<Node>, lower: seq<Node>, data: seq<int>, f: Fanouts, height: nat, l: Level, key: int)
    requires f.Valid() && Sorted(data) && Grouped(level, lower, f) && Fits(lower, data, f.leaf, l)
    requires ShapedRow(lower, height) && Led(lower, data, f, height, l, key)
    requires !l.Misleads(f.internal + 1) && SkipsTo(data, f.leaf, l.skipTo, key)
    ensures 0 < Groups(l.negative, f.internal + 1) <= |level|
    ensures EndsAtLeaf(level[Groups(l.negative, f.internal + 1) - 1], data, f, height + 1, key, l.skipTo)
  {
    var c := l.negative;
    var a, b := NegativeGroup(level, lower, |data|, f, c);
    var t := level[Groups(c, f.internal + 1) - 1];
    ShapedUp(level, lower, |data|, f, height);
    NegativesPassed(lower, data, f, l, key, a, b, c);
    assert t.children[c - 1 - a] == lower[c - 1] && LedAt(lower[c - 1], data, f, height, l, key, c - 1);
    GoesTo(t, data, f, height, key, c - 1 - a, l.skipTo);
  }

  /** Every other search is steered right. */
  lemma NodeSteers(level: seq<Node>, lower: seq<Node>, data: seq<int>, f: Fanouts, height: nat, l: Level, key: int,
                   j: nat)
    requires f.Valid() && Sorted(data) && Grouped(level, lower, f) && Fits(lower, data, f.leaf, l)
    requires Led(lower, data, f, height, l, key) && j < |level|
    requires var u := Up(l, f.internal + 1); !(j == u.negative - 1 && SkipsTo(data, f.leaf, u.skipTo, key))
    ensures Steers(level[j], data, f, height + 1, key)
  {
    var a, b := GroupFacts(level, lower, |data|, f, j);
    GroupAndSign(|lower|, l.negative, f.internal + 1, j, b);
    SkipUp(level, lower, data, f, l);
    assert SignAt(lower[b - 1], data, b - 1, l.negative, l.wrong);
    if a < l.negative <= b && SkipsTo(data, f.leaf, l.skipTo, key) {
      SkipsLess(lower, data, f, l, key);
    }
    forall k: nat | a <= k < b
      ensures Steers(lower[k], data, f, height, key) && (k < b - 1 ==> Parts(lower[k], data, key))
    {
      ChildSteers(lower, data, f, height, l, key, k, b);
    }
    RowBetween(lower, data, f, height, key, a, b);
  }

  lemma ChildSteers(lower: seq<Node>, data: seq<int>, f: Fanouts, height: nat, l: Level, key: int, k: nat, b: nat)
    requires f.Valid() && Fits(lower, data, f.leaf, l) && Led(lower, data, f, height, l, key) && k < b <= |lower|
    requires k == l.negative - 1 ==> !SkipsTo(data, f.leaf, l.skipTo, key)
    requires k == l.negative - 1 < b - 1 && l.wrong ==> !SkipsTo(data, f.leaf, Last(lower[k]), key)
    ensures Steers(lower[k], data, f, height, key) && (k < b - 1 ==> Parts(lower[k], data, key))
  {
    assert LedAt(lower[k], data, f, height, l, key, k) && SignAt(lower[k], data, k, l.negative, l.wrong);
  }

  /** A skip below is part of the skip that begins here. */
  lemma SkipsLess(lower: seq<Node>, data: seq<int>, f: Fanouts, l: Level, key: int)
    requires f.Valid() && Sorted(data) && Fits(lower, data, f.leaf, l) && 0 < l.negative
    requires SkipsTo(data, f.leaf, l.skipTo, key)
    ensures SkipsTo(data, f.leaf, Last(lower[l.negative - 1]), key)
  {
    assert SignAt(lower[l.negative - 1], data, l.negative - 1, l.negative, l.wrong);
  }

  lemma RowBetween(lower: seq<Node>, data: seq<int>, f: Fanouts, height: nat, key: int, a: nat, b: nat)
    requires f.Valid() && Covering(lower, |data|) && a < b <= |lower|
    requires forall k :: a <= k < b ==> Steers(lower[k], data, f, height, key)
    requires forall k :: a <= k < b - 1 ==> Parts(lower[k], data, key)
    ensures SteeringRow(lower[a..b], data, f, height, key) && Separated(lower[a..b], data, key)
  {
    var ts := lower[a..b];
    forall k | 0 < k < |ts|
      ensures First(ts[k]) == Last(ts[k - 1])
    {
      assert ts[k] == lower[a + k] && ts[k - 1] == lower[a + k - 1];
    }
  }

  // ----- loaded trees -----

  function LevelAt(data: seq<int>, f: Fanouts, i: nat): Level
    requires f.leaf > 0
  {
    if i == 0 then LeafLevel(data, f) else Up(LevelAt(data, f, i - 1), f.internal + 1)
  }

  lemma {:induction false} LevelFacts(levels: seq<seq<Node>>, data: seq<int>, f: Fanouts, i: nat)
    requires Sorted(data) && Levels(levels, data, f) && i < |levels|
    ensures Fits(levels[i], data, f.leaf, LevelAt(data, f, i)) && ShapedRow(levels[i], i)
    ensures Top(LevelAt(data, f, i), f.internal + 1) == Top(LeafLevel(data, f), f.internal + 1)
  {
    if i == 0 {
      LeavesFit(levels[0], data, f);
      LeavesLed(levels[0], data, f, 0);
    } else {
      assert LevelOver(levels, f, i);
      LevelFacts(levels, data, f, i - 1);
      FitsUp(levels[i], levels[i - 1], data, f, LevelAt(data, f, i - 1));
      ShapedUp(levels[i], levels[i - 1], |data|, f, i - 1);
    }
  }

  lemma {:induction false} LevelLed(levels: seq<seq<Node>>, data: seq<int>, f: Fanouts, i: nat, key: int)
    requires Sorted(data) && Levels(levels, data, f) && i < |levels|
    ensures Led(levels[i], data, f, i, LevelAt(data, f, i), key)
  {
    if i == 0 {
      LeavesLed(levels[0], data, f, key);
    } else {
      assert LevelOver(levels, f, i);
      LevelLed(levels, data, f, i - 1, key);
      LevelFacts(levels, data, f, i - 1);
      LedUp(levels[i], levels[i - 1], data, f, i - 1, LevelAt(data, f, i - 1), key);
    }
  }

  lemma NegativeHighIsKey(data: seq<int>, leafFanout: nat)
    requires leafFanout > 0 && Sorted(data) && NegativeHigh(data, leafFanout) < 0
    ensures data != [] && data[0] <= NegativeHigh(data, leafFanout)
  {
    var c := NegativeLeaves(data, leafFanout, Groups(|data|, leafFanout));
    CeilBelow(c - 1, |data|, leafFanout);
    OneGroupMore(c - 1, leafFanout);
  }

  /** What the root does with a key: it steers the search right, or sends it to the leaf behind the outermost wrong
      separator. */
  lemma RootLeads(root: Node, data: seq<int>, f: Fanouts, depth: nat, key: int)
    requires Sorted(data) && Loaded(root, data, f, depth) && f.Valid()
    ensures Shaped(root, depth) && First(root) == 0 && Last(root) == |data|
    ensures if Skips(data, f, key) then EndsAtLeaf(root, data, f, depth, key, SkipTo(data, f))
            else Steers(root, data, f, depth, key)
    ensures SkipTo(data, f) > 0 ==> 2 <= SkipTo(data, f) < |data|
    ensures SkipTo(data, f) > 0 ==> data[0] <= NegativeHigh(data, f.leaf) < 0 <= data[SkipTo(data, f) - 1]
  {
    var levels :| Levels(levels, data, f) && |levels| == depth + 1 && levels[depth] == [root];
    var l := LevelAt(data, f, depth);
    LevelFacts(levels, data, f, depth);
    LevelLed(levels, data, f, depth, key);
    assert levels[depth][0] == root && l.nodes == 1;
    if NegativeHigh(data, f.leaf) < 0 {
      NegativeHighIsKey(data, f.leaf);
    }
    assert LedAt(root, data, f, depth, l, key, 0) && SignAt(root, data, 0, l.negative, l.wrong);
  }

  /** The tree is right for every key exactly when no separator is wrong about its sign. */
  lemma TreeExactly(root: Node, data: seq<int>, f: Fanouts, depth: nat)
    requires Sorted(data) && Loaded(root, data, f, depth) && f.Valid()
    ensures Tree(root, data, f, depth) <==> SeparatorsFit(data, f)
  {
    forall key | SeparatorsFit(data, f)
      ensures Steers(root, data, f, depth, key)
    {
      RootLeads(root, data, f, depth, key);
    }
    var h := NegativeHigh(data, f.leaf);
    RootLeads(root, data, f, depth, h);
    if !SeparatorsFit(data, f) && Steers(root, data, f, depth, h) {
      LeafLeads(root, data, f, depth, h);
      assert false;
    }
  }

  /** load_btree: the root and the depth, or None if some level writes past a node.  The tree is right for every key
      exactly when no separator is wrong about its sign. */
  method LoadBtree(data: seq<int>, f: Fanouts) returns (r: Option<(Node, nat)>)
    requires data != [] && Sorted(data) && f.Valid()
    ensures r.Some? <==> LevelsFit(Groups(|data|, f.leaf), f.internal + 1)
    ensures r.Some? ==> Loaded(r.value.0, data, f, r.value.1)
    ensures r.Some? ==> (Tree(r.value.0, data, f, r.value.1) <==> SeparatorsFit(data, f))
  {
    r := LoadLevels(data, f);
    if r.Some? {
      TreeExactly(r.value.0, data, f, r.value.1);
    }
  }

  /** A run of the key is cut by a leaf boundary b: b is a multiple of the leaf fanout, the entry before it is a copy of
      the key, and so is the entry at it or the one two before it. */
  predicate CutAt(data: seq<int>, key: int, leafFanout: nat, b: nat)
    requires leafFanout > 0
  {
    && 0 < b < |data| && b % leafFanout == 0 && data[b - 1] == key
    && (data[b] == key || (b >= 2 && data[b - 2] == key))
  }

  predicate CutRun(data: seq<int>, key: int, leafFanout: nat)
    requires leafFanout > 0
  {
    exists b :: 0 < b < |data| && CutAt(data, key, leafFanout, b)
  }

  /** Where a run that is cut is found: at its copy that starts a leaf, or else at its copy that ends one. */
  predicate AtLeafEdge(data: seq<int>, key: int, leafFanout: nat, r: nat)
    requires leafFanout > 0
  {
    r < |data| && data[r] == key
    && (r % leafFanout == 0 || (r + 1 < |data| && (r + 1) % leafFanout == 0 && data[r + 1] > key))
  }

  /** Behind the skip to s the search also overshoots: some key before where it ends is larger than the one sought. */
  predicate Misled(data: seq<int>, leafFanout: nat, s: nat, key: int)
    requires leafFanout > 0
  {
    s >= 2 && SkipsTo(data, leafFanout, s, key) && key < data[s - 2]
  }

  /** It ends behind an occurrence of the key, or is misled. */
  predicate Overshoots(data: seq<int>, leafFanout: nat, s: nat, key: int)
    requires leafFanout > 0
  {
    s >= 2 && SkipsTo(data, leafFanout, s, key) && key <= data[s - 2]
  }

  /** find, in any tree that load_btree builds.  Its result parts the array at the key exactly when the search is not
      misled by a wrong separator; it is the first occurrence, the index binary search over the whole array finds,
      exactly when the search does not overshoot and no run of the key is cut by a leaf boundary. */
  method Find(root: Node, depth: nat, key: int, data: seq<int>, ghost f: Fanouts) returns (r: Option<nat>)
    requires data != [] && Sorted(data) && f.Valid() && Loaded(root, data, f, depth)
    ensures r == None <==> key < data[0]
    ensures r.Some? ==> (PartitionPoint(data, key, r.value) <==> !Misled(data, f.leaf, SkipTo(data, f), key))
    ensures r.Some? ==> (LowerBound(data, key, r.value) <==>
                          !Overshoots(data, f.leaf, SkipTo(data, f), key) && !CutRun(data, key, f.leaf))
    ensures r.Some? && !Misled(data, f.leaf, SkipTo(data, f), key) ==>
      && r.value <= |data|
      && (forall i :: 0 <= i < r.value ==> data[i] <= key) && (forall i :: r.value <= i < |data| ==> data[i] >= key)
    ensures Skips(data, f, key) ==> r == Some(SkipTo(data, f) - 1)
    ensures r.Some? && CutRun(data, key, f.leaf) && !Skips(data, f, key) ==> AtLeafEdge(data, key, f.leaf, r.value)
  {
    ghost var s := SkipTo(data, f);
    RootLeads(root, data, f, depth, key);
    var leaf := FindLeaf(root, depth, key, data, f);
    r := FindInLeaf(leaf, key, data, f, s);
  }

  /** Of a key that is skipped but not overshot no run is cut: it does not occur. */
  lemma SkipUncut(data: seq<int>, leafFanout: nat, s: nat, key: int)
    requires leafFanout > 1 && Sorted(data) && SkipsTo(data, leafFanout, s, key) && 2 <= s && key > data[s - 2]
    ensures !CutRun(data, key, leafFanout)
  {
    forall b: nat | 0 < b < |data|
      ensures !CutAt(data, key, leafFanout, b)
    {
      assert if b - 1 <= s - 2 then data[b - 1] <= data[s - 2] else data[s - 1] <= data[b - 1];
    }
  }

  /** What the entry before s is, for a key that is skipped. */
  lemma BehindSkip(data: seq<int>, leafFanout: nat, s: nat, key: int)
    requires leafFanout > 1 && Sorted(data) && SkipsTo(data, leafFanout, s, key) && 2 <= s < |data|
    ensures data[s - 1] <= data[s]
    ensures PartitionPoint(data, key, s - 1) <==> !Misled(data, leafFanout, s, key)
    ensures LowerBound(data, key, s - 1) <==> !Overshoots(data, leafFanout, s, key)
    ensures CutRun(data, key, leafFanout) ==> Overshoots(data, leafFanout, s, key)
  {
    assert forall i :: 0 <= i < s - 1 ==> data[i] <= data[s - 2];
    if key > data[s - 2] {
      SkipUncut(data, leafFanout, s, key);
    }
  }

  /** In the leaf that leads to the key. */
  lemma InRightLeaf(data: seq<int>, leafFanout: nat, leaf: Node, key: int, r: Option<nat>)
    requires leafFanout > 1 && Sorted(data) && leaf.Leaf? && leaf.start < leaf.end <= |data|
    requires Aligned(leaf.start, leaf.end, |data|, leafFanout) && Leads(leaf, data, key)
    requires FoundInSlice(data, leaf.start, leaf.end, key, r)
    ensures r == None <==> key < data[0]
    ensures r.Some? ==> PartitionPoint(data, key, r.value)
    ensures r.Some? ==> (LowerBound(data, key, r.value) <==> !CutRun(data, key, leafFanout))
    ensures r.Some? && CutRun(data, key, leafFanout) ==> AtLeafEdge(data, key, leafFanout, r.value)
  {
    CutOnlyHere(data, key, leafFanout, leaf);
  }

  /** The search in the leaf. */
  method FindInLeaf(leaf: Node, key: int, data: seq<int>, ghost f: Fanouts, ghost s: nat) returns (r: Option<nat>)
    requires data != [] && Sorted(data) && f.Valid() && leaf.Leaf? && Steers(leaf, data, f, 0, key)
    requires s > 0 ==> 2 <= s < |data| && data[0] <= NegativeHigh(data, f.leaf)
    requires if SkipsTo(data, f.leaf, s, key) then leaf.start == s else Leads(leaf, data, key)
    ensures r == None <==> key < data[0]
    ensures r.Some? ==> (PartitionPoint(data, key, r.value) <==> !Misled(data, f.leaf, s, key))
    ensures r.Some? ==> (LowerBound(data, key, r.value) <==>
                          !Overshoots(data, f.leaf, s, key) && !CutRun(data, key, f.leaf))
    ensures SkipsTo(data, f.leaf, s, key) ==> r == Some(s - 1)
    ensures r.Some? && CutRun(data, key, f.leaf) && !SkipsTo(data, f.leaf, s, key) ==>
      AtLeafEdge(data, key, f.leaf, r.value)
  {
    r := FindSortedSlice(data, leaf.start, leaf.end, key);
    if SkipsTo(data, f.leaf, s, key) {
      BehindSkip(data, f.leaf, s, key);
    } else {
      InRightLeaf(data, f.leaf, leaf, key, r);
    }
  }

  /** If any leaf boundary cuts a run of the key, then the start of the leaf the key leads to does. */
  lemma CutOnlyHere(data: seq<int>, key: int, leafFanout: nat, leaf: Node)
    requires Sorted(data) && leafFanout > 1 && leaf.Leaf? && leaf.start < leaf.end <= |data|
    requires Aligned(leaf.start, leaf.end, |data|, leafFanout) && Leads(leaf, data, key)
    ensures CutRun(data, key, leafFanout) <==> CutAt(data, key, leafFanout, leaf.start)
  {
    forall b: nat | CutAt(data, key, leafFanout, b)
      ensures CutAt(data, key, leafFanout, leaf.start)
    {
      MultiplesApart(leaf.start, b, leafFanout);
      assert b <= leaf.start;
      if b < leaf.start {
        assert data[leaf.start - 1] == key && data[leaf.start - 2] == key;
      }
    }
  }

  lemma MultiplesApart(a: nat, b: nat, w: nat)
    requires w > 0 && a % w == 0 && b % w == 0
    ensures b > a ==> b >= a + w
  {
    var p, q := a / w, b / w;
    DivBounds(a, w);
    DivBounds(b, w);
    assert a == p * w + a % w && b == q * w + b % w;
    OneGroupMore(p, w);
    Monotone(p + 1, q, w);
    Monotone(q, p, w);
  }

  /** Strictly increasing keys have no runs to cut. */
  lemma StrictlyIncreasingIsUncut(data: seq<int>, key: int, leafFanout: nat)
    requires StrictlyIncreasing(data) && leafFanout > 0
    ensures !CutRun(data, key, leafFanout)
  {
    forall b: nat | 0 < b < |data|
      ensures !CutAt(data, key, leafFanout, b)
    {
      assert data[b - 1] < data[b] && (b >= 2 ==> data[b - 2] < data[b - 1]);
    }
  }

  /** There is only one lower bound, so over strictly increasing keys Find and FindSorted return the same index. */
  lemma LowerBoundUnique(data: seq<int>, key: int, r: nat, q: nat)
    requires LowerBound(data, key, r) && LowerBound(data, key, q)
    ensures r == q
  {
    assert r < |data| ==> data[r] >= key;
    assert q < |data| ==> data[q] >= key;
  }

  /** For every array that can be loaded: the tree and binary search return the same index exactly when the search does
      not overshoot and no run of the key is cut by a leaf boundary; binary search returns the first occurrence. */
  method FindAgrees(data: seq<int>, key: int, f: Fanouts) returns (tree: Option<nat>, plain: Option<nat>)
    requires data != [] && Sorted(data) && f.Valid() && LevelsFit(Groups(|data|, f.leaf), f.internal + 1)
    ensures tree == None <==> key < data[0]
    ensures plain == None <==> key < data[0]
    ensures plain.Some? ==> LowerBound(data, key, plain.value)
    ensures tree.Some? ==> (PartitionPoint(data, key, tree.value) <==> !Misled(data, f.leaf, SkipTo(data, f), key))
    ensures tree == plain <==> !Overshoots(data, f.leaf, SkipTo(data, f), key) && !CutRun(data, key, f.leaf)
    ensures Skips(data, f, key) ==> tree == Some(SkipTo(data, f) - 1)
    ensures StrictlyIncreasing(data) && SeparatorsFit(data, f) ==> tree == plain
  {
    var bt := LoadBtree(data, f);
    tree := Find(bt.value.0, bt.value.1, key, data, f);
    plain := FindSorted(data, key);
    if tree.Some? && plain.Some? && LowerBound(data, key, tree.value) {
      LowerBoundUnique(data, key, tree.value, plain.value);
    }
    if StrictlyIncreasing(data) {
      StrictlyIncreasingIsUncut(data, key, f.leaf);
    }
  }

  /** A run cut by a leaf boundary: with two entries to a leaf, the tree finds the second of two equal keys. */
  method FirstOccurrenceMissed() returns (tree: Option<nat>, plain: Option<nat>)
    ensures tree == Some(2) && plain == Some(1)
  {
    var data, f := [1, 2, 2, 3], Fanouts(2, 64);
    ghost var b := TwoLeaves(data);
    var bt := LoadBtree(data, f);
    tree := Find(bt.value.0, bt.value.1, 2, data, f);
    plain := FindSorted(data, 2);
  }

  lemma TwoLeaves(data: seq<int>) returns (b: nat)
    requires data == [1, 2, 2, 3]
    ensures LevelsFit(Groups(|data|, 2), 65) && SkipTo(data, Fanouts(2, 64)) == 0 && CutRun(data, 2, 2)
  {
    b := 2;
    assert CutAt(data, 2, 2, b);
    GroupsGrow(1, 2, 2);
    FewerGroups(2, 65);
    FitsEasily(data, Fanouts(2, 64));
  }

  /** Every search that is misled has a wrong answer. */
  method MisledSearch(data: seq<int>, key: int, f: Fanouts) returns (tree: Option<nat>, plain: Option<nat>)
    requires Sorted(data) && f.Valid() && LevelsFit(Groups(|data|, f.leaf), f.internal + 1)
    requires Misled(data, f.leaf, SkipTo(data, f), key)
    ensures tree == Some(SkipTo(data, f) - 1) && plain.Some? && LowerBound(data, key, plain.value)
    ensures plain.value < tree.value && !PartitionPoint(data, key, tree.value)
  {
    tree, plain := FindAgrees(data, key, f);
  }

  function BothSigns(): seq<int> {
    [-2, -1, 1, 2, 3, 4, 5, 6]
  }

  lemma BothSignsFit()
    ensures Sorted(BothSigns()) && LevelsFit(Groups(|BothSigns()|, 2), 2)
  {
    assert Groups(8, 2) == 4;
    FewerGroups(4, 2);
    FewerGroups(2, 2);
    assert LevelsFit(2, 2);
  }

  lemma BothSignsSkip()
    ensures SkipTo(BothSigns(), Fanouts(2, 1)) == 4 && NegativeHigh(BothSigns(), 2) == -1
  {
    var data := BothSigns();
    assert Groups(8, 2) == 4 && LeafHigh(data, 2, 0) == -1 && LeafHigh(data, 2, 1) == 2;
    BothSignsFit();
    NegativeFirst(data, 2, 4, 0);
    NegativeFirst(data, 2, 4, 1);
    assert NegativeLeaves(data, 2, 4) == 1;
    FewerGroups(4, 2);
    FewerGroups(2, 2);
    var l := Level(2, 4, 1, true, 0);
    assert Up(Level(4, 2, 1, false, 0), 2) == l;
    assert Top(l, 2) == Up(l, 2) == Level(1, 8, 1, true, 4);
  }

  /** Keys of both signs: with two entries to a leaf and two children to a node, the separator of the root is -1 instead
      of 2.  The search for 0 is misled: it ends at 2, with the larger 1 before it. */
  method MixedSignsMislead() returns (tree: Option<nat>, plain: Option<nat>)
    ensures tree == Some(3) && plain == Some(2) && !PartitionPoint(BothSigns(), 0, 3)
  {
    BothSignsFit();
    BothSignsSkip();
    tree, plain := SearchForZero(BothSigns(), Fanouts(2, 1));
  }

  method SearchForZero(data: seq<int>, f: Fanouts) returns (tree: Option<nat>, plain: Option<nat>)
    requires data == BothSigns() && Sorted(data) && f.Valid() && LevelsFit(Groups(|data|, f.leaf), f.internal + 1)
    requires SkipTo(data, f) == 4 && NegativeHigh(data, f.leaf) == -1
    ensures tree == Some(3) && plain == Some(2) && !PartitionPoint(data, 0, 3)
  {
    assert data[1] == -1 && data[2] == 1 && data[3] == 2;
    tree, plain := MisledSearch(data, 0, f);
    LowerBoundUnique(data, 0, plain.value, 2);
  }

  /** With fanouts 4096 and 64 and 130 full leaves of which only the first is negative, the search goes wrong for every
      key from the largest of that leaf up to the second last before the middle of the array. */
  lemma OneSignChange(data: seq<int>, key: int)
    requires |data| == 130 * 4096 && Sorted(data) && data[4095] < 0 <= data[8191]
    ensures Misled(data, 4096, SkipTo(data, Fanouts(4096, 64)), key) <==> data[4095] <= key < data[65 * 4096 - 2]
  {
    assert Groups(|data|, 4096) == 130;
    NegativeFirst(data, 4096, 130, 0);
    NegativeFirst(data, 4096, 130, 1);
    assert NegativeLeaves(data, 4096, 130) == 1;
    assert LeafHigh(data, 4096, 0) == data[4095] == NegativeHigh(data, 4096);
    HalfWay();
  }

  lemma HalfWay()
    ensures Top(Level(130, 4096, 1, false, 0), 65).skipTo == 65 * 4096
  {
    FewerGroups(130, 65);
    var l := Level(2, 65 * 4096, 1, true, 0);
    assert Up(Level(130, 4096, 1, false, 0), 65) == l;
    FewerGroups(2, 65);
    assert Up(l, 65) == Level(1, 65 * 65 * 4096, 1, true, 65 * 4096);
    assert Top(l, 65) == Up(l, 65);
  }
}
