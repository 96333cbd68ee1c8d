/** The QSORT macro: median-of-three quicksort with an explicit stack, finished by insertion sort. */
module QSort {
  import opened Numbers

  const MAX_THRESH := 4

  /** 8 * sizeof(unsigned) entries, for the four-byte unsigned that counts the elements. */
  const STACK_SIZE := 32

  /** What the macro asks of its comparison: a strict less-than whose incomparable elements form classes. */
  ghost predicate StrictWeakOrder<T(!new)>(lt: (T, T) -> bool) {
    && (forall x, y :: lt(x, y) ==> !lt(y, x))
    && (forall x, y, z :: lt(x, z) ==> lt(x, y) || lt(y, z))
  }

  ghost predicate Le<T>(lt: (T, T) -> bool, x: T, y: T) {
    !lt(y, x)
  }

  lemma LeTransitive<T(!new)>(lt: (T, T) -> bool, x: T, y: T, z: T)
    requires StrictWeakOrder(lt) && Le(lt, x, y) && Le(lt, y, z)
    ensures Le(lt, x, z)
  {
  }

  ghost predicate Sorted<T>(lt: (T, T) -> bool, s: seq<T>) {
    forall i, j :: 0 <= i < j < |s| ==> Le(lt, s[i], s[j])
  }

  // ----- unfinished segments -----

  /** A segment of the array still to be partitioned, by its first and last index. */
  type Segment = (int, int)

  ghost predicate Apart(g: Segment, h: Segment) {
    g.1 < h.0 || h.1 < g.0
  }

  /** Everything before the segment is at most, and everything after it at least, every element of it. */
  ghost predicate Bounded<T>(lt: (T, T) -> bool, s: seq<T>, g: Segment) {
    && 0 <= g.0 <= g.1 < |s|
    && (forall i, j :: 0 <= i < g.0 <= j <= g.1 ==> Le(lt, s[i], s[j]))
    && (forall j, k :: g.0 <= j <= g.1 < k < |s| ==> Le(lt, s[j], s[k]))
  }

  ghost predicate Together(segs: seq<Segment>, i: int, j: int) {
    exists g :: g in segs && g.0 <= i && j <= g.1
  }

  /** Elements more than MAX_THRESH apart are in order unless they share an unfinished segment. */
  ghost predicate Settled<T>(lt: (T, T) -> bool, s: seq<T>, segs: seq<Segment>) {
    forall i, j :: 0 <= i < j < |s| && j - i > MAX_THRESH ==> Le(lt, s[i], s[j]) || Together(segs, i, j)
  }

  ghost predicate Pending<T>(lt: (T, T) -> bool, s: seq<T>, segs: seq<Segment>) {
    && (forall g :: g in segs ==> Bounded(lt, s, g) && g.1 - g.0 >= MAX_THRESH)
    && (forall k, l :: 0 <= k < l < |segs| ==> Apart(segs[k], segs[l]))
    && Settled(lt, s, segs)
  }

  function Swapped<T>(s: seq<T>, p: int, q: int): (r: seq<T>)
    requires 0 <= p < |s| && 0 <= q < |s|
    ensures |r| == |s|
  {
    s[p := s[q]][q := s[p]]
  }

  lemma SwapKeepsBounded<T>(lt: (T, T) -> bool, s: seq<T>, g: Segment, cur: Segment, p: int, q: int)
    requires Bounded(lt, s, g) && Bounded(lt, s, cur) && (g == cur || Apart(g, cur))
    requires cur.0 <= p <= cur.1 && cur.0 <= q <= cur.1
    ensures Bounded(lt, Swapped(s, p, q), g)
  {
    var r := Swapped(s, p, q);
    forall i, j | 0 <= i < g.0 <= j <= g.1
      ensures Le(lt, r[i], r[j])
    {
      var i', j' := if i == p then q else if i == q then p else i, if j == p then q else if j == q then p else j;
      assert r[i] == s[i'] && r[j] == s[j'];
    }
    forall j, k | g.0 <= j <= g.1 < k < |s|
      ensures Le(lt, r[j], r[k])
    {
      var j', k' := if j == p then q else if j == q then p else j, if k == p then q else if k == q then p else k;
      assert r[j] == s[j'] && r[k] == s[k'];
    }
  }

  lemma SwapKeepsSettled<T>(lt: (T, T) -> bool, s: seq<T>, segs: seq<Segment>, cur: Segment, p: int, q: int)
    requires Settled(lt, s, segs) && cur in segs && Bounded(lt, s, cur)
    requires cur.0 <= p <= cur.1 && cur.0 <= q <= cur.1
    ensures Settled(lt, Swapped(s, p, q), segs)
  {
    var r := Swapped(s, p, q);
    forall i, j | 0 <= i < j < |r| && j - i > MAX_THRESH
      ensures Le(lt, r[i], r[j]) || Together(segs, i, j)
    {
      if cur.0 <= i && j <= cur.1 {
        assert Together(segs, i, j);
      } else {
        var i', j' := if i == p then q else if i == q then p else i, if j == p then q else if j == q then p else j;
        assert r[i] == s[i'] && r[j] == s[j'];
      }
    }
  }

  /** Exchanging two elements of one unfinished segment disturbs nothing that is already known. */
  lemma SwapKeepsPending<T>(lt: (T, T) -> bool, s: seq<T>, segs: seq<Segment>, p: int, q: int)
    requires Pending(lt, s, segs) && |segs| > 0
    requires var cur := segs[|segs| - 1]; cur.0 <= p <= cur.1 && cur.0 <= q <= cur.1
    ensures Pending(lt, Swapped(s, p, q), segs)
  {
    var cur := segs[|segs| - 1];
    assert cur in segs;
    SwapKeepsSettled(lt, s, segs, cur, p, q);
    forall g | g in segs
      ensures Bounded(lt, Swapped(s, p, q), g)
    {
      var k :| 0 <= k < |segs| && segs[k] == g;
      SwapKeepsBounded(lt, s, g, cur, p, q);
    }
  }

  lemma SwappedPermutes<T>(s: seq<T>, p: int, q: int)
    requires 0 <= p < |s| && 0 <= q < |s|
    ensures multiset(Swapped(s, p, q)) == multiset(s)
  {
  }

  /** Exchanges two elements of the last unfinished segment. */
  method Swap<T>(a: array<T>, p: int, q: int, ghost lt: (T, T) -> bool, ghost segs: seq<Segment>)
    requires Pending(lt, a[..], segs) && |segs| > 0
    requires var cur := segs[|segs| - 1]; cur.0 <= p <= cur.1 && cur.0 <= q <= cur.1
    modifies a
    ensures Pending(lt, a[..], segs) && multiset(a[..]) == multiset(old(a[..]))
    ensures a[p] == old(a[q]) && a[q] == old(a[p])
    ensures forall k :: 0 <= k < a.Length && k != p && k != q ==> a[k] == old(a[k])
  {
    assert segs[|segs| - 1] in segs;
    SwapKeepsPending(lt, a[..], segs, p, q);
    SwappedPermutes(a[..], p, q);
    var hold := a[p];
    a[p] := a[q];
    a[q] := hold;
    assert a[..] == Swapped(old(a[..]), p, q);
  }

  /** Orders the first, middle and last elements of the last unfinished segment; the middle one will be the pivot. */
  method MedianOfThree<T(!new)>(a: array<T>, lt: (T, T) -> bool, lo: int, hi: int, ghost segs: seq<Segment>)
    returns (mid: int)
    requires StrictWeakOrder(lt)
    requires Pending(lt, a[..], segs) && |segs| > 0 && segs[|segs| - 1] == (lo, hi)
    modifies a
    ensures Pending(lt, a[..], segs) && multiset(a[..]) == multiset(old(a[..]))
    ensures 0 <= lo < mid < hi < a.Length && Le(lt, a[lo], a[mid]) && Le(lt, a[mid], a[hi])
  {
    assert (lo, hi) in segs;
    mid := lo + (hi - lo) / 2;
    if lt(a[mid], a[lo]) {
      Swap(a, mid, lo, lt, segs);
    }
    if lt(a[hi], a[mid]) {
      Swap(a, mid, hi, lt, segs);
      if lt(a[mid], a[lo]) {
        Swap(a, mid, lo, lt, segs);
      }
    }
  }

  /** Elements lo..left are at most the pivot and elements right..hi at least the pivot. */
  ghost predicate Walls<T>(lt: (T, T) -> bool, s: seq<T>, lo: int, left: int, right: int, hi: int, pivot: T) {
    && 0 <= lo < left <= right + 1 <= hi < |s|
    && (forall k :: lo <= k < left ==> Le(lt, s[k], pivot))
    && (forall k :: right < k <= hi ==> Le(lt, pivot, s[k]))
  }

  /** The unguarded scan up from the left wall: the right wall stops it. */
  method ScanUp<T(!new)>(a: array<T>, lt: (T, T) -> bool, lo: int, left0: int, right: int, hi: int, mid: int)
    returns (left: int)
    requires StrictWeakOrder(lt) && 0 <= mid < a.Length && Walls(lt, a[..], lo, left0, right, hi, a[mid])
    ensures left0 <= left && Walls(lt, a[..], lo, left, right, hi, a[mid]) && Le(lt, a[mid], a[left])
  {
    left := left0;
    while lt(a[left], a[mid])
      invariant left0 <= left && Walls(lt, a[..], lo, left, right, hi, a[mid])
      decreases hi - left
    {
      left := left + 1;
    }
  }

  /** The unguarded scan down from the right wall: the left wall stops it. */
  method ScanDown<T(!new)>(a: array<T>, lt: (T, T) -> bool, lo: int, left: int, right0: int, hi: int, mid: int)
    returns (right: int)
    requires StrictWeakOrder(lt) && 0 <= mid < a.Length && Walls(lt, a[..], lo, left, right0, hi, a[mid])
    ensures right <= right0 && Walls(lt, a[..], lo, left, right, hi, a[mid]) && Le(lt, a[right], a[mid])
  {
    right := right0;
    while lt(a[mid], a[right])
      invariant right <= right0 && Walls(lt, a[..], lo, left, right, hi, a[mid])
      decreases right - lo
    {
      right := right - 1;
    }
  }

  /** Exchanges the elements the scans stopped at, and follows the pivot if it was one of them. */
  method Exchange<T(!new)>(a: array<T>, lt: (T, T) -> bool, lo: int, left: int, right: int, hi: int, mid: int,
                           ghost segs: seq<Segment>) returns (mid': int)
    requires Pending(lt, a[..], segs) && |segs| > 0 && segs[|segs| - 1] == (lo, hi)
    requires lo <= mid <= hi < a.Length && 0 <= lo && Walls(lt, a[..], lo, left, right, hi, a[mid]) && left < right
    requires Le(lt, a[mid], a[left]) && Le(lt, a[right], a[mid])
    modifies a
    ensures Pending(lt, a[..], segs) && multiset(a[..]) == multiset(old(a[..]))
    ensures lo <= mid' <= hi && a[mid'] == old(a[mid])
    ensures Walls(lt, a[..], lo, left + 1, right - 1, hi, a[mid'])
  {
    mid' := mid;
    Swap(a, left, right, lt, segs);
    if mid == left {
      mid' := right;
    } else if mid == right {
      mid' := left;
    }
  }

  /** The segment lo..hi is split around the pivot; at most one element, equivalent to the pivot, is left between. */
  ghost predicate Split<T>(lt: (T, T) -> bool, s: seq<T>, lo: int, right: int, left: int, hi: int, pivot: T) {
    && 0 <= lo <= right + 1 <= hi < |s| && lo < left <= hi + 1 && right < left <= right + 2
    && (forall k :: lo <= k < left ==> Le(lt, s[k], pivot))
    && (forall k :: right < k <= hi ==> Le(lt, pivot, s[k]))
  }

  /** The ``collapse the walls'' loop. */
  method CollapseWalls<T(!new)>(a: array<T>, lt: (T, T) -> bool, lo: int, hi: int, mid0: int, ghost segs: seq<Segment>)
    returns (right: int, left: int, ghost pivot: T)
    requires StrictWeakOrder(lt)
    requires Pending(lt, a[..], segs) && |segs| > 0 && segs[|segs| - 1] == (lo, hi)
    requires 0 <= lo < mid0 < hi < a.Length && Le(lt, a[lo], a[mid0]) && Le(lt, a[mid0], a[hi])
    modifies a
    ensures Pending(lt, a[..], segs) && multiset(a[..]) == multiset(old(a[..]))
    ensures Split(lt, a[..], lo, right, left, hi, pivot) && left > lo && right < hi
  {
    var mid, done := mid0, false;
    pivot := a[mid];
    left, right := lo + 1, hi - 1;
    assert (lo, hi) in segs;
    while !done
      invariant Pending(lt, a[..], segs) && multiset(a[..]) == multiset(old(a[..]))
      invariant !done ==>
        lo <= mid <= hi && a[mid] == pivot && left <= right && Walls(lt, a[..], lo, left, right, hi, pivot)
      invariant done ==> Split(lt, a[..], lo, right, left, hi, pivot) && left > lo && right < hi
      decreases !done, right - left
    {
      mid, left, right, done := Squeeze(a, lt, lo, left, right, hi, mid, segs);
    }
  }

  /** One round of the loop: both walls move inwards, and the two elements that stop them change places. */
  method Squeeze<T(!new)>(a: array<T>, lt: (T, T) -> bool, lo: int, left0: int, right0: int, hi: int, mid0: int,
                          ghost segs: seq<Segment>) returns (mid: int, left: int, right: int, done: bool)
    requires StrictWeakOrder(lt)
    requires Pending(lt, a[..], segs) && |segs| > 0 && segs[|segs| - 1] == (lo, hi)
    requires 0 <= lo <= mid0 <= hi < a.Length && left0 <= right0 && Walls(lt, a[..], lo, left0, right0, hi, a[mid0])
    modifies a
    ensures Pending(lt, a[..], segs) && multiset(a[..]) == multiset(old(a[..]))
    ensures !done ==> lo <= mid <= hi && a[mid] == old(a[mid0]) && left <= right && right - left < right0 - left0
    ensures !done ==> Walls(lt, a[..], lo, left, right, hi, old(a[mid0]))
    ensures done ==> Split(lt, a[..], lo, right, left, hi, old(a[mid0])) && left > lo && right < hi
  {
    mid := mid0;
    left := ScanUp(a, lt, lo, left0, right0, hi, mid);
    right := ScanDown(a, lt, lo, left, right0, hi, mid);
    if left < right {
      mid := Exchange(a, lt, lo, left, right, hi, mid, segs);
      left, right := left + 1, right - 1;
    } else if left == right {
      left, right := left + 1, right - 1;
      return mid, left, right, true;
    }
    done := left > right;
  }

  // ----- splitting a segment -----

  /** The parts of a split that are still large enough to partition, in either order. */
  ghost predicate LargeParts(parts: seq<Segment>, lo: int, right: int, left: int, hi: int) {
    && (forall g :: g in parts ==> (g == (lo, right) || g == (left, hi)) && g.1 - g.0 > MAX_THRESH)
    && (right - lo > MAX_THRESH ==> (lo, right) in parts)
    && (hi - left > MAX_THRESH ==> (left, hi) in parts)
    && |parts| <= 2 && (|parts| == 2 ==> parts[0] != parts[1])
  }

  lemma PartBounded<T(!new)>(lt: (T, T) -> bool, s: seq<T>, lo: int, right: int, left: int, hi: int, pivot: T,
                              g: Segment)
    requires StrictWeakOrder(lt) && Bounded(lt, s, (lo, hi)) && Split(lt, s, lo, right, left, hi, pivot)
    requires (g == (lo, right) || g == (left, hi)) && g.0 <= g.1
    ensures Bounded(lt, s, g)
  {
    forall i, j | 0 <= i < g.0 <= j <= g.1
      ensures Le(lt, s[i], s[j])
    {
      if lo <= i {
        LeTransitive(lt, s[i], pivot, s[j]);
      }
    }
    forall j, k | g.0 <= j <= g.1 < k < |s|
      ensures Le(lt, s[j], s[k])
    {
      if k <= hi {
        LeTransitive(lt, s[j], pivot, s[k]);
      }
    }
  }

  lemma SplitSettles<T(!new)>(lt: (T, T) -> bool, s: seq<T>, base: seq<Segment>, lo: int, right: int, left: int,
                               hi: int, pivot: T, parts: seq<Segment>)
    requires StrictWeakOrder(lt) && Settled(lt, s, base + [(lo, hi)]) && Split(lt, s, lo, right, left, hi, pivot)
    requires LargeParts(parts, lo, right, left, hi)
    ensures Settled(lt, s, base + parts)
  {
    forall i, j | 0 <= i < j < |s| && j - i > MAX_THRESH
      ensures Le(lt, s[i], s[j]) || Together(base + parts, i, j)
    {
      if !Le(lt, s[i], s[j]) {
        assert Together(base + [(lo, hi)], i, j);
        var g :| g in base + [(lo, hi)] && g.0 <= i && j <= g.1;
        if g in base {
          assert g in base + parts;
        } else if j <= right {
          assert (lo, right) in base + parts;
        } else if left <= i {
          assert (left, hi) in base + parts;
        } else {
          LeTransitive(lt, s[i], pivot, s[j]);
        }
      }
    }
  }

  lemma SplitKeepsPending<T(!new)>(lt: (T, T) -> bool, s: seq<T>, base: seq<Segment>, lo: int, right: int, left: int,
                                   hi: int, pivot: T, parts: seq<Segment>)
    requires StrictWeakOrder(lt) && Pending(lt, s, base + [(lo, hi)]) && Split(lt, s, lo, right, left, hi, pivot)
    requires LargeParts(parts, lo, right, left, hi)
    ensures Pending(lt, s, base + parts)
  {
    assert (base + [(lo, hi)])[|base|] == (lo, hi);
    SplitSettles(lt, s, base, lo, right, left, hi, pivot, parts);
    forall g | g in base + parts
      ensures Bounded(lt, s, g) && g.1 - g.0 >= MAX_THRESH
    {
      if g in parts {
        PartBounded(lt, s, lo, right, left, hi, pivot, g);
      } else {
        assert g in base + [(lo, hi)];
      }
    }
    forall k, l | 0 <= k < l < |base + parts|
      ensures Apart((base + parts)[k], (base + parts)[l])
    {
      if k < |base| {
        var b := base + [(lo, hi)];
        assert b[k] == base[k] && Apart(b[k], b[if l < |base| then l else |base|]);
      }
    }
  }

  // ----- the explicit stack -----

  function Size(g: Segment): int {
    g.1 - g.0 + 1
  }

  /** Every segment is at most half as large as the bound on the one below it. */
  ghost predicate Halving(segs: seq<Segment>, n: nat) {
    forall t :: 0 <= t < |segs| ==> Size(segs[t]) * Pow2(t) <= n
  }

  lemma SmallerHalves(base: seq<Segment>, cur: Segment, large: Segment, small: Segment, n: nat)
    requires Halving(base + [cur], n) && 0 <= Size(small) <= Size(large) && Size(small) + Size(large) <= Size(cur)
    ensures Halving(base + [large, small], n)
    ensures Halving(base + [large], n) && Halving(base + [small], n)
  {
    var b := |base|;
    assert (base + [cur])[b] == cur;
    Scale(Size(large), Size(cur), Pow2(b));
    Scale(2 * Size(small), Size(cur), Pow2(b));
    Scale(Size(small), Size(cur), Pow2(b));
    assert Size(small) * Pow2(b + 1) == (2 * Size(small)) * Pow2(b);
    assert forall t :: 0 <= t < b ==> (base + [cur])[t] == base[t];
  }

  lemma Scale(x: int, y: int, p: nat)
    requires x <= y
    ensures x * p <= y * p
  {
  }

  /** With n below 2^32 no more than 30 segments are ever unfinished at once. */
  lemma StackSuffices(segs: seq<Segment>, n: nat)
    requires Halving(segs, n) && |segs| > 0 && n < 0x1_0000_0000 && Size(segs[|segs| - 1]) > MAX_THRESH
    ensures |segs| < STACK_SIZE - 1
  {
    var t := |segs| - 1;
    Pow2At30();
    Scale(5, Size(segs[t]), Pow2(t));
    if t >= 30 {
      Pow2Grows(30, t);
    }
  }

  lemma Pow2At30()
    ensures Pow2(30) == 0x4000_0000
  {
    assert Pow2(10) == 1024;
    assert Pow2(20) == 1024 * 1024;
  }

  lemma {:induction false} Pow2Grows(k: nat, l: nat)
    requires k <= l
    ensures Pow2(k) <= Pow2(l)
  {
    if k < l {
      Pow2Grows(k, l - 1);
    }
  }

  /** Twice the total size less one for each segment: what every round makes smaller. */
  ghost function Work(segs: seq<Segment>): int {
    if segs == [] then 0 else Work(segs[..|segs| - 1]) + 2 * Size(segs[|segs| - 1]) - 1
  }

  lemma WorkOf(base: seq<Segment>, x: Segment, y: Segment)
    ensures Work(base + [x]) == Work(base) + 2 * Size(x) - 1
    ensures Work(base + [x, y]) == Work(base) + 2 * Size(x) - 1 + 2 * Size(y) - 1
  {
    assert (base + [x])[..|base|] == base;
    assert (base + [x, y])[..|base| + 1] == base + [x];
  }

  lemma {:induction false} WorkNatural(segs: seq<Segment>)
    requires forall g :: g in segs ==> Size(g) >= 1
    ensures Work(segs) >= 0
  {
    if segs != [] {
      WorkNatural(segs[..|segs| - 1]);
      assert segs[|segs| - 1] in segs;
    }
  }

  /** The unfinished segments: entries 1..top of the stack and the current one.  Entry 0 is never written. */
  ghost predicate Holds(stack: seq<Segment>, top: int, lo: int, hi: int, segs: seq<Segment>) {
    && |stack| == STACK_SIZE && 0 <= top <= STACK_SIZE && |segs| == top
    && (top > 0 ==> segs == stack[1..top] + [(lo, hi)])
  }

  /** Chooses the next segment: pushes the larger part when both are large, pops when neither is. */
  method NextSegment(stack: array<Segment>, top: int, lo: int, hi: int, right: int, left: int, ghost base: seq<Segment>)
    returns (top': int, lo': int, hi': int, ghost parts: seq<Segment>)
    requires Holds(stack[..], top, lo, hi, base + [(lo, hi)]) && 0 < top < STACK_SIZE - 1 && lo < left
    modifies stack
    ensures LargeParts(parts, lo, right, left, hi) && Holds(stack[..], top', lo', hi', base + parts)
    ensures |parts| == 2 ==> Size(parts[0]) >= Size(parts[1])
  {
    assert base == stack[1..top] by { Base(stack[..], top, lo, hi, base); }
    if right - lo <= MAX_THRESH {
      if hi - left <= MAX_THRESH {
        top', parts := top - 1, [];
        lo', hi' := stack[top'].0, stack[top'].1;
      } else {
        top', lo', hi', parts := top, left, hi, [(left, hi)];
      }
    } else if hi - left <= MAX_THRESH {
      top', lo', hi', parts := top, lo, right, [(lo, right)];
    } else if right - lo > hi - left {
      stack[top] := (lo, right);
      top', lo', hi', parts := top + 1, left, hi, [(lo, right), (left, hi)];
    } else {
      stack[top] := (left, hi);
      top', lo', hi', parts := top + 1, lo, right, [(left, hi), (lo, right)];
    }
  }

  lemma Base(stack: seq<Segment>, top: int, lo: int, hi: int, base: seq<Segment>)
    requires Holds(stack, top, lo, hi, base + [(lo, hi)]) && top > 0
    ensures base == stack[1..top]
  {
    assert base == (base + [(lo, hi)])[..|base|];
    assert stack[1..top] == (stack[1..top] + [(lo, hi)])[..|base|];
  }

  /** Whatever the parts, the stack bound is kept and there is less work left. */
  lemma PartsShrink(base: seq<Segment>, lo: int, hi: int, right: int, left: int, n: nat, parts: seq<Segment>)
    requires LargeParts(parts, lo, right, left, hi) && (|parts| == 2 ==> Size(parts[0]) >= Size(parts[1]))
    requires lo < left && right < hi && right < left && lo < hi
    requires Halving(base + [(lo, hi)], n)
    ensures Halving(base + parts, n) && Work(base + parts) < Work(base + [(lo, hi)])
  {
    if parts == [] {
      assert base + parts == base;
      assert forall t :: 0 <= t < |base| ==> (base + [(lo, hi)])[t] == base[t];
      WorkOf(base, (lo, hi), (lo, hi));
    } else if |parts| == 1 {
      assert parts == [parts[0]] && parts[0] in parts;
      SmallerHalves(base, (lo, hi), parts[0], (lo, lo - 1), n);
      WorkOf(base, (lo, hi), (lo, hi));
      WorkOf(base, parts[0], parts[0]);
    } else {
      assert parts == [parts[0], parts[1]] && parts[0] in parts && parts[1] in parts;
      SmallerHalves(base, (lo, hi), parts[0], parts[1], n);
      WorkOf(base, (lo, hi), (lo, hi));
      WorkOf(base, parts[0], parts[1]);
    }
  }

  /** What is known about the unfinished segments between two rounds. */
  ghost predicate Invariant<T>(lt: (T, T) -> bool, s: seq<T>, segs: seq<Segment>) {
    Pending(lt, s, segs) && Halving(segs, |s|) && Work(segs) >= 0
  }

  lemma AfterSplit<T(!new)>(lt: (T, T) -> bool, s: seq<T>, base: seq<Segment>, lo: int, right: int, left: int, hi: int,
                            pivot: T, parts: seq<Segment>)
    requires StrictWeakOrder(lt) && Pending(lt, s, base + [(lo, hi)]) && Halving(base + [(lo, hi)], |s|)
    requires Split(lt, s, lo, right, left, hi, pivot) && lo < left && right < hi
    requires LargeParts(parts, lo, right, left, hi) && (|parts| == 2 ==> Size(parts[0]) >= Size(parts[1]))
    ensures Invariant(lt, s, base + parts) && Work(base + parts) < Work(base + [(lo, hi)])
  {
    SplitKeepsPending(lt, s, base, lo, right, left, hi, pivot, parts);
    PartsShrink(base, lo, hi, right, left, |s|, parts);
    WorkNatural(base + parts);
  }

  // ----- the quicksort phase -----

  method QuickPhase<T(!new)>(a: array<T>, lt: (T, T) -> bool)
    requires StrictWeakOrder(lt) && MAX_THRESH < a.Length < 0x1_0000_0000
    modifies a
    ensures Settled(lt, a[..], []) && multiset(a[..]) == multiset(old(a[..]))
  {
    var stack := new Segment[STACK_SIZE](_ => (0, 0));
    var lo, hi, top := 0, a.Length - 1, 1;
    ghost var segs := [(lo, hi)];
    while top > 0
      invariant fresh(stack) && Holds(stack[..], top, lo, hi, segs)
      invariant Invariant(lt, a[..], segs)
      invariant multiset(a[..]) == multiset(old(a[..]))
      decreases Work(segs)
    {
      top, lo, hi, segs := Round(a, lt, stack, top, lo, hi, segs);
    }
    assert segs == [];
  }

  /** One round: partition the current segment and choose the next. */
  method Round<T(!new)>(a: array<T>, lt: (T, T) -> bool, stack: array<Segment>, top: int, lo: int, hi: int,
                        ghost segs: seq<Segment>) returns (top': int, lo': int, hi': int, ghost segs': seq<Segment>)
    requires StrictWeakOrder(lt) && MAX_THRESH < a.Length < 0x1_0000_0000
    requires a as object != stack && Holds(stack[..], top, lo, hi, segs) && top > 0 && Invariant(lt, a[..], segs)
    modifies a, stack
    ensures Holds(stack[..], top', lo', hi', segs') && Invariant(lt, a[..], segs') && Work(segs') < Work(segs)
    ensures multiset(a[..]) == multiset(old(a[..]))
  {
    ghost var base := segs[..top - 1];
    assert segs == base + [(lo, hi)];
    assert (lo, hi) in segs;
    StackSuffices(segs, a.Length);
    var mid := MedianOfThree(a, lt, lo, hi, segs);
    var right, left, pivot := CollapseWalls(a, lt, lo, hi, mid, segs);
    ghost var parts;
    top', lo', hi', parts := NextSegment(stack, top, lo, hi, right, left, base);
    AfterSplit(lt, a[..], base, lo, right, left, hi, pivot, parts);
    segs' := base + parts;
  }

  // ----- the insertion phase -----

  ghost predicate Least<T>(lt: (T, T) -> bool, s: seq<T>, m: int) {
    0 <= m < |s| && forall k :: 0 <= k < |s| ==> Le(lt, s[m], s[k])
  }

  /** A smallest element of the first MAX_THRESH + 1 is a smallest element of all. */
  method FindSentinel<T(!new)>(a: array<T>, lt: (T, T) -> bool) returns (m: int)
    requires StrictWeakOrder(lt) && Settled(lt, a[..], []) && a.Length > 0
    ensures Least(lt, a[..], m)
  {
    var thresh := if MAX_THRESH > a.Length - 1 then a.Length - 1 else MAX_THRESH;
    m := 0;
    for run := 1 to thresh + 1
      invariant 0 <= m < run && forall k :: 0 <= k < run ==> Le(lt, a[m], a[k])
    {
      if lt(a[run], a[m]) {
        m := run;
      }
    }
    forall k | 0 <= k < a.Length
      ensures Le(lt, a[m], a[k])
    {
      if k > thresh {
        assert Le(lt, a[..][0], a[..][k]) || Together([], 0, k);
        LeTransitive(lt, a[m], a[0], a[k]);
      }
    }
  }

  /** Element r moved down to index t, with t..r moved up by one. */
  ghost function Inserted<T>(s: seq<T>, t: int, r: int): (i: seq<T>)
    requires 0 <= t <= r < |s|
    ensures |i| == |s|
  {
    s[..t] + [s[r]] + s[t..r] + s[r + 1..]
  }

  lemma InsertedPermutes<T>(s: seq<T>, t: int, r: int)
    requires 0 <= t <= r < |s|
    ensures multiset(Inserted(s, t, r)) == multiset(s)
  {
    assert s == s[..t] + s[t..r] + [s[r]] + s[r + 1..];
  }

  method MoveDown<T>(a: array<T>, t: int, r: int)
    requires 0 <= t < r < a.Length
    modifies a
    ensures a[..] == Inserted(old(a[..]), t, r)
  {
    var hold := a[r];
    var h, l := r, r - 1;
    while l >= t
      invariant t - 1 <= l == h - 1 < r
      invariant forall k :: 0 <= k < a.Length ==> a[k] == if h < k <= r then old(a[k - 1]) else old(a[k])
    {
      a[h] := a[l];
      h, l := l, l - 1;
    }
    a[h] := hold;
    InsertedCells(old(a[..]), a[..], t, r);
  }

  lemma InsertedCells<T>(s: seq<T>, i: seq<T>, t: int, r: int)
    requires 0 <= t <= r < |s| == |i|
    requires forall k {:trigger i[k]} :: 0 <= k < |s| ==>
      i[k] == if t < k <= r then s[k - 1] else if k == t then s[r] else s[k]
    ensures i == Inserted(s, t, r)
  {
    forall k | 0 <= k < |s|
      ensures i[k] == Inserted(s, t, r)[k]
    {
    }
  }

  /** The place where element r belongs among the sorted elements before it. */
  method FindPlace<T(!new)>(a: array<T>, lt: (T, T) -> bool, r: int) returns (t: int)
    requires StrictWeakOrder(lt) && 0 < r < a.Length && Least(lt, a[..], 0) && Sorted(lt, a[..r])
    ensures 0 < t <= r
    ensures (forall k :: 0 <= k < t ==> Le(lt, a[k], a[r])) && (forall k :: t <= k < r ==> Le(lt, a[r], a[k]))
  {
    var tmp := r - 1;
    while lt(a[r], a[tmp])
      invariant 0 <= tmp < r && forall k :: tmp < k < r ==> Le(lt, a[r], a[k])
      decreases tmp
    {
      assert Le(lt, a[..][0], a[..][r]);
      tmp := tmp - 1;
    }
    forall k | 0 <= k < tmp + 1
      ensures Le(lt, a[k], a[r])
    {
      if k < tmp {
        assert Le(lt, a[..r][k], a[..r][tmp]);
        LeTransitive(lt, a[k], a[tmp], a[r]);
      }
    }
    t := tmp + 1;
  }

  lemma InsertionSorts<T>(lt: (T, T) -> bool, s: seq<T>, t: int, r: int)
    requires 0 < t <= r < |s| && Sorted(lt, s[..r]) && Least(lt, s, 0)
    requires (forall k :: 0 <= k < t ==> Le(lt, s[k], s[r])) && (forall k :: t <= k < r ==> Le(lt, s[r], s[k]))
    ensures Sorted(lt, Inserted(s, t, r)[..r + 1]) && Least(lt, Inserted(s, t, r), 0)
  {
    var i := Inserted(s, t, r);
    forall k, l | 0 <= k < l < r + 1
      ensures Le(lt, i[k], i[l])
    {
      var k', l' := if k > t then k - 1 else if k == t then r else k, if l > t then l - 1 else if l == t then r else l;
      assert i[k] == s[k'] && i[l] == s[l'];
      assert k' != r && l' != r ==> Le(lt, s[..r][k'], s[..r][l']);
    }
    forall k | 0 <= k < |i|
      ensures Le(lt, i[0], i[k])
    {
      assert i[k] == s[if k > t && k <= r then k - 1 else if k == t then r else k];
    }
  }

  method InsertionPhase<T(!new)>(a: array<T>, lt: (T, T) -> bool)
    requires StrictWeakOrder(lt) && Settled(lt, a[..], [])
    modifies a
    ensures Sorted(lt, a[..]) && multiset(a[..]) == multiset(old(a[..]))
  {
    if a.Length == 0 {
      return;
    }
    var m := FindSentinel(a, lt);
    MoveSentinel(a, lt, m);
    var run := 1;
    while run + 1 <= a.Length - 1
      invariant 1 <= run <= a.Length && (run < a.Length || a.Length == 1)
      invariant Sorted(lt, a[..if run < a.Length then run + 1 else run]) && Least(lt, a[..], 0)
      invariant multiset(a[..]) == multiset(old(a[..]))
    {
      run := run + 1;
      var t := FindPlace(a, lt, run);
      InsertionSorts(lt, a[..], t, run);
      InsertedPermutes(a[..], t, run);
      if t != run {
        MoveDown(a, t, run);
      } else {
        InsertedCells(a[..], a[..], t, run);
      }
    }
  }

  method MoveSentinel<T>(a: array<T>, lt: (T, T) -> bool, m: int)
    requires Least(lt, a[..], m)
    modifies a
    ensures Least(lt, a[..], 0) && multiset(a[..]) == multiset(old(a[..]))
  {
    SwappedPermutes(a[..], m, 0);
    if m != 0 {
      var hold := a[m];
      a[m] := a[0];
      a[0] := hold;
    }
    assert a[..] == Swapped(old(a[..]), m, 0);
  }

  // ----- the macro -----

  /** Sorts any array whose length is an unsigned, by any strict weak order. */
  method Sort<T(!new)>(a: array<T>, lt: (T, T) -> bool)
    requires StrictWeakOrder(lt) && a.Length < 0x1_0000_0000
    modifies a
    ensures forall i, j :: 0 <= i < j < a.Length ==> !lt(a[j], a[i])
    ensures multiset(a[..]) == multiset(old(a[..]))
  {
    if a.Length > MAX_THRESH {
      QuickPhase(a, lt);
    }
    InsertionPhase(a, lt);
    assert forall i, j :: 0 <= i < j < a.Length ==> Le(lt, a[..][i], a[..][j]);
  }
}
