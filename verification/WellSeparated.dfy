/** The well-separated pair decomposition: ws_pairs walks a quadtree and lists pairs of nodes so that every
    two points are told apart by exactly one listed pair. */
module WellSeparated {
  import opened Counting

  /** A quadtree node: a leaf without a point, a leaf with one, or a node that was split into children.
      A node that holds a point differs as a value from every node beside it, so comparing values here
      is comparing addresses there. */
  datatype Node = Empty | Point(representative: nat) | Split(children: seq<Node>) {

    predicate Leaf() {
      !Split?
    }

    predicate Holds(x: nat) {
      match this
      case Empty => false
      case Point(p) => x == p
      case Split(cs) => exists i :: 0 <= i < |cs| && cs[i].Holds(x)
    }

    /** No point is held twice. */
    ghost predicate Partitioned() {
      Split? ==>
        && (forall i :: 0 <= i < |children| ==> children[i].Partitioned())
        && (forall i, j :: 0 <= i < j < |children| ==> Apart(children[i], children[j]))
    }

    function Size(): (n: nat)
      ensures n > 0
      decreases this, if Split? then |children| + 1 else 0
    {
      if Split? then 1 + Sizes(|children|) else 1
    }

    function Sizes(k: nat): (n: nat)
      requires Split? && k <= |children|
      decreases this, k
    {
      if k == 0 then 0 else Sizes(k - 1) + children[k - 1].Size()
    }

    lemma {:induction false} ChildSmaller(i: nat, k: nat)
      requires Split? && i < k <= |children|
      ensures children[i].Size() <= Sizes(k)
      decreases k
    {
      if i < k - 1 {
        ChildSmaller(i, k - 1);
      }
    }
  }

  ghost predicate Apart(u: Node, v: Node) {
    forall x :: !(u.Holds(x) && v.Holds(x))
  }

  /** One of x, y lies in u and the other in v. */
  predicate Covers(u: Node, v: Node, x: nat, y: nat) {
    (u.Holds(x) && v.Holds(y)) || (u.Holds(y) && v.Holds(x))
  }

  /** How many of the listed pairs cover x and y. */
  function Tally(pairs: seq<(Node, Node)>, x: nat, y: nat): nat {
    if pairs == [] then 0
    else Tally(pairs[..|pairs| - 1], x, y) + One(Covers(pairs[|pairs| - 1].0, pairs[|pairs| - 1].1, x, y))
  }

  /** A point held by one of the first k children. */
  predicate HeldBefore(cs: seq<Node>, k: nat, x: nat)
    requires k <= |cs|
  {
    exists i :: 0 <= i < k && cs[i].Holds(x)
  }

  lemma HeldNext(cs: seq<Node>, k: nat, x: nat)
    requires k < |cs|
    ensures HeldBefore(cs, k + 1, x) == (HeldBefore(cs, k, x) || cs[k].Holds(x))
  {
  }

  /** The separation test may be anything that accepts two leaves. */
  ghost predicate AcceptsLeaves(separated: (Node, Node) -> bool) {
    forall u: Node, v: Node :: u.Leaf() && v.Leaf() ==> separated(u, v)
  }

  ghost predicate Sound(pairs: seq<(Node, Node)>, separated: (Node, Node) -> bool) {
    forall k :: 0 <= k < |pairs| ==> separated(pairs[k].0, pairs[k].1) && Apart(pairs[k].0, pairs[k].1)
  }

  /** The list ws_pairs pushes its result onto. */
  class Deque {
    var pairs: seq<(Node, Node)>

    constructor ()
      ensures pairs == []
    {
      pairs := [];
    }

    method PushBack(u: Node, v: Node)
      modifies this
      ensures pairs == old(pairs) + [(u, v)]
      ensures forall x, y :: Tally(pairs, x, y) == Tally(old(pairs), x, y) + One(Covers(u, v, x, y))
    {
      pairs := pairs + [(u, v)];
      assert pairs[..|pairs| - 1] == old(pairs);
    }
  }

  /** Pushes pairs that cover every two points across u and v exactly once more, and no others. */
  method WsPairs(u: Node, v: Node, separated: (Node, Node) -> bool, wspd: Deque)
    requires AcceptsLeaves(separated)
    requires u.Partitioned() && v.Partitioned() && (u == v || Apart(u, v))
    requires Sound(wspd.pairs, separated)
    modifies wspd
    ensures Sound(wspd.pairs, separated)
    ensures forall x, y :: x != y ==>
      Tally(wspd.pairs, x, y) == Tally(old(wspd.pairs), x, y) + One(Covers(u, v, x, y))
    decreases u.Size() + v.Size(), 2, 0
  {
    if u == v {
      if !u.Leaf() {
        WithinNode(u, separated, wspd);
      }
    } else if separated(u, v) {
      wspd.PushBack(u, v);
    } else if u.Leaf() {
      AcrossNodes(v, u, separated, wspd);
    } else {
      AcrossNodes(u, v, separated, wspd);
    }
  }

  predicate BothBefore(cs: seq<Node>, k: nat, x: nat, y: nat)
    requires k <= |cs|
  {
    HeldBefore(cs, k, x) && HeldBefore(cs, k, y)
  }

  /** The branch for a node against itself: each child against itself and the children before it. */
  method WithinNode(u: Node, separated: (Node, Node) -> bool, wspd: Deque)
    requires AcceptsLeaves(separated)
    requires u.Split? && u.Partitioned()
    requires Sound(wspd.pairs, separated)
    modifies wspd
    ensures Sound(wspd.pairs, separated)
    ensures forall x, y :: x != y ==>
      Tally(wspd.pairs, x, y) == Tally(old(wspd.pairs), x, y) + One(Covers(u, u, x, y))
    decreases 2 * u.Size(), 1, 0
  {
    var cs := u.children;
    for i := 0 to |cs|
      invariant Sound(wspd.pairs, separated)
      invariant forall x, y :: x != y ==>
        Tally(wspd.pairs, x, y) == Tally(old(wspd.pairs), x, y) + One(BothBefore(cs, i, x, y))
    {
      ghost var before := wspd.pairs;
      if cs[i] != Empty {
        ChildPairs(u, i, separated, wspd);
      }
      forall x: nat, y: nat | x != y
        ensures Tally(wspd.pairs, x, y)
             == Tally(old(wspd.pairs), x, y) + One(BothBefore(cs, i + 1, x, y))
      {
        HeldNext(cs, i, x);
        HeldNext(cs, i, y);
        assert HeldBefore(cs, i, x) ==> !cs[i].Holds(x);
        assert HeldBefore(cs, i, y) ==> !cs[i].Holds(y);
        assert cs[i] == Empty ==> wspd.pairs == before;
      }
    }
  }

  /** A point of child i is covered against a point of one of the first k children. */
  predicate ReachesBack(cs: seq<Node>, i: nat, k: nat, x: nat, y: nat)
    requires i < |cs| && k <= |cs|
  {
    (cs[i].Holds(x) && HeldBefore(cs, k, y)) || (cs[i].Holds(y) && HeldBefore(cs, k, x))
  }

  /** Child i against the children up to and including itself. */
  method ChildPairs(u: Node, i: nat, separated: (Node, Node) -> bool, wspd: Deque)
    requires AcceptsLeaves(separated)
    requires u.Split? && u.Partitioned() && i < |u.children|
    requires Sound(wspd.pairs, separated)
    modifies wspd
    ensures Sound(wspd.pairs, separated)
    ensures forall x, y :: x != y ==>
      Tally(wspd.pairs, x, y) == Tally(old(wspd.pairs), x, y) + One(ReachesBack(u.children, i, i + 1, x, y))
    decreases 2 * u.Size(), 0, 0
  {
    var cs := u.children;
    for j := 0 to i + 1
      invariant Sound(wspd.pairs, separated)
      invariant forall x, y :: x != y ==>
        Tally(wspd.pairs, x, y) == Tally(old(wspd.pairs), x, y) + One(ReachesBack(cs, i, j, x, y))
    {
      ghost var before := wspd.pairs;
      if cs[j] != Empty {
        u.ChildSmaller(i, |cs|);
        u.ChildSmaller(j, |cs|);
        WsPairs(cs[i], cs[j], separated, wspd);
      }
      forall x: nat, y: nat | x != y
        ensures Tally(wspd.pairs, x, y) == Tally(old(wspd.pairs), x, y) + One(ReachesBack(cs, i, j + 1, x, y))
      {
        HeldNext(cs, j, x);
        HeldNext(cs, j, y);
        assert cs[j] == Empty ==> wspd.pairs == before;
        assert ReachesBack(cs, i, j, x, y) ==> !Covers(cs[i], cs[j], x, y);
      }
    }
  }

  /** The last branch: each child of u against v. */
  method AcrossNodes(u: Node, v: Node, separated: (Node, Node) -> bool, wspd: Deque)
    requires AcceptsLeaves(separated)
    requires u.Split? && u.Partitioned() && v.Partitioned() && Apart(u, v)
    requires Sound(wspd.pairs, separated)
    modifies wspd
    ensures Sound(wspd.pairs, separated)
    ensures forall x, y :: x != y ==>
      Tally(wspd.pairs, x, y) == Tally(old(wspd.pairs), x, y) + One(Covers(u, v, x, y))
    decreases u.Size() + v.Size(), 1, 0
  {
    var cs := u.children;
    for i := 0 to |cs|
      invariant Sound(wspd.pairs, separated)
      invariant forall x, y :: x != y ==>
        Tally(wspd.pairs, x, y) == Tally(old(wspd.pairs), x, y) + One(CoveredSoFar(cs, i, v, x, y))
    {
      ghost var before := wspd.pairs;
      if cs[i] != Empty {
        u.ChildSmaller(i, |cs|);
        WsPairs(cs[i], v, separated, wspd);
      }
      forall x: nat, y: nat | x != y
        ensures Tally(wspd.pairs, x, y) == Tally(old(wspd.pairs), x, y) + One(CoveredSoFar(cs, i + 1, v, x, y))
      {
        CoveredNext(u, i, v, x, y);
        assert cs[i] == Empty ==> wspd.pairs == before;
      }
    }
  }

  lemma CoveredNext(u: Node, i: nat, v: Node, x: nat, y: nat)
    requires u.Split? && u.Partitioned() && Apart(u, v) && i < |u.children| && x != y
    ensures One(CoveredSoFar(u.children, i + 1, v, x, y))
         == One(CoveredSoFar(u.children, i, v, x, y)) + One(Covers(u.children[i], v, x, y))
  {
    HeldNext(u.children, i, x);
    HeldNext(u.children, i, y);
  }

  predicate CoveredSoFar(cs: seq<Node>, k: nat, v: Node, x: nat, y: nat)
    requires k <= |cs|
  {
    (HeldBefore(cs, k, x) && v.Holds(y)) || (HeldBefore(cs, k, y) && v.Holds(x))
  }

  /** The whole decomposition: every two points of the tree are covered by exactly one pair. */
  method Decompose(root: Node, separated: (Node, Node) -> bool) returns (wspd: Deque)
    requires AcceptsLeaves(separated) && root.Partitioned()
    ensures Sound(wspd.pairs, separated)
    ensures forall x, y :: x != y ==> Tally(wspd.pairs, x, y) == One(root.Holds(x) && root.Holds(y))
    ensures TellsApart(wspd.pairs, root)
    ensures forall k :: 0 <= k < |wspd.pairs| ==> separated(wspd.pairs[k].0, wspd.pairs[k].1)
  {
    wspd := new Deque();
    WsPairs(root, root, separated, wspd);
    ghost var pairs := wspd.pairs;
    forall x: nat, y: nat | x != y
      ensures root.Holds(x) && root.Holds(y) ==> exists k :: OnlyCover(pairs, k, x, y)
      ensures !(root.Holds(x) && root.Holds(y)) ==> NoCover(pairs, x, y)
    {
      TallyIsExactlyOne(pairs, x, y);
    }
  }

  /** Two points of the tree are covered by exactly one pair, any others by none. */
  ghost predicate TellsApart(pairs: seq<(Node, Node)>, root: Node) {
    && (forall x: nat, y: nat :: x != y && root.Holds(x) && root.Holds(y) ==> exists k :: OnlyCover(pairs, k, x, y))
    && (forall x: nat, y: nat :: x != y && !(root.Holds(x) && root.Holds(y)) ==> NoCover(pairs, x, y))
  }

  predicate NoCover(pairs: seq<(Node, Node)>, x: nat, y: nat) {
    forall k :: 0 <= k < |pairs| ==> !Covers(pairs[k].0, pairs[k].1, x, y)
  }

  /** What a tally of one says: there is one covering pair, and no second. */
  lemma {:induction false} TallyIsExactlyOne(pairs: seq<(Node, Node)>, x: nat, y: nat)
    ensures Tally(pairs, x, y) == 0 <==> forall k :: 0 <= k < |pairs| ==> !Covers(pairs[k].0, pairs[k].1, x, y)
    ensures Tally(pairs, x, y) == 1 <==> exists k :: OnlyCover(pairs, k, x, y)
  {
    if pairs != [] {
      var n := |pairs| - 1;
      TallyIsExactlyOne(pairs[..n], x, y);
      if Tally(pairs[..n], x, y) == 1 {
        var k :| OnlyCover(pairs[..n], k, x, y);
        assert Tally(pairs, x, y) == 1 ==> OnlyCover(pairs, k, x, y);
        assert Covers(pairs[k].0, pairs[k].1, x, y);
      }
      if Tally(pairs, x, y) == 1 && Covers(pairs[n].0, pairs[n].1, x, y) {
        assert OnlyCover(pairs, n, x, y);
      }
      forall k | OnlyCover(pairs, k, x, y)
        ensures Tally(pairs, x, y) == 1
      {
        if k < n {
          assert OnlyCover(pairs[..n], k, x, y);
        }
      }
    }
  }

  predicate OnlyCover(pairs: seq<(Node, Node)>, k: int, x: nat, y: nat) {
    && 0 <= k < |pairs|
    && Covers(pairs[k].0, pairs[k].1, x, y)
    && forall m :: 0 <= m < |pairs| && m != k ==> !Covers(pairs[m].0, pairs[m].1, x, y)
  }
}
