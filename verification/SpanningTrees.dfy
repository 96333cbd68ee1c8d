/** Spanning trees by cuts: a set of edges connects the vertices when every cut is crossed.
    The exchange argument then needs no paths, only symmetric differences of vertex sets. */
module SpanningTrees {

  datatype Edge = Edge(u: nat, v: nat, weight: real)

  function Vertices(n: nat): (r: set<nat>)
    ensures forall x: nat :: x in r <==> x < n
    ensures |r| == n
  {
    if n == 0 then {} else Vertices(n - 1) + {n - 1}
  }

  predicate InRange(edges: set<Edge>, n: nat) {
    forall e :: e in edges ==> e.u < n && e.v < n
  }

  predicate Crosses(e: Edge, s: set<nat>) {
    (e.u in s) != (e.v in s)
  }

  /** A cut: a set of vertices that is neither empty nor everything. */
  ghost predicate Cut(s: set<nat>, n: nat) {
    s <= Vertices(n) && s != {} && s != Vertices(n)
  }

  predicate Closed(edges: set<Edge>, s: set<nat>) {
    forall e :: e in edges ==> !Crosses(e, s)
  }

  ghost predicate Connected(edges: set<Edge>, n: nat) {
    forall s :: Cut(s, n) ==> !Closed(edges, s)
  }

  ghost predicate Needed(t: set<Edge>, n: nat, f: Edge) {
    !Connected(t - {f}, n)
  }

  /** Connects all vertices, and no longer does when any edge is taken away. */
  ghost predicate MinimallyConnected(t: set<Edge>, n: nat) {
    InRange(t, n) && Connected(t, n) && forall f {:trigger Needed(t, n, f)} :: f in t ==> Needed(t, n, f)
  }

  ghost predicate SpanningTree(t: set<Edge>, edges: set<Edge>, n: nat) {
    t <= edges && MinimallyConnected(t, n)
  }

  ghost function Weight(t: set<Edge>): real {
    if t == {} then 0.0 else
      var e :| e in t;
      e.weight + Weight(t - {e})
  }

  lemma {:induction false} WeightSplit(t: set<Edge>, e: Edge)
    requires e in t
    ensures Weight(t) == e.weight + Weight(t - {e})
  {
    var g :| g in t && Weight(t) == g.weight + Weight(t - {g});
    if g != e {
      WeightSplit(t - {g}, e);
      WeightSplit(t - {e}, g);
      assert t - {g} - {e} == t - {e} - {g};
    }
  }

  predicate AllWeigh(t: set<Edge>, w: real) {
    forall e :: e in t ==> e.weight == w
  }

  /** Edges that all weigh w weigh w times their number. */
  lemma {:induction false} UniformWeight(t: set<Edge>, w: real)
    requires AllWeigh(t, w)
    ensures Weight(t) == |t| as real * w
  {
    if t == {} {
    } else {
      var e :| e in t;
      WeightSplit(t, e);
      UniformWeight(t - {e}, w);
      assert |t| as real == |t - {e}| as real + 1.0;
    }
  }

  // ----- walks: the usual reading of Connected -----

  /** Consecutive vertices of the walk are joined by an edge, in either direction. */
  ghost predicate Walk(edges: set<Edge>, p: seq<nat>) {
    |p| > 0 && forall i :: 0 < i < |p| ==> Joined(edges, p[i - 1], p[i])
  }

  ghost predicate Joined(edges: set<Edge>, x: nat, y: nat) {
    exists e :: e in edges && ((e.u == x && e.v == y) || (e.u == y && e.v == x))
  }

  ghost predicate Reaches(edges: set<Edge>, x: nat, y: nat) {
    exists p :: Walk(edges, p) && p[0] == x && p[|p| - 1] == y
  }

  lemma {:induction false} WalkStaysInside(edges: set<Edge>, s: set<nat>, p: seq<nat>)
    requires Closed(edges, s) && Walk(edges, p) && p[0] in s
    ensures p[|p| - 1] in s
  {
    if |p| > 1 {
      var q := p[..|p| - 1];
      WalkStaysInside(edges, s, q);
      assert Joined(edges, p[|p| - 2], p[|p| - 1]);
    }
  }

  /** Every cut is crossed exactly when there is a walk between any two vertices. */
  lemma ConnectedMeansReachable(edges: set<Edge>, n: nat)
    requires InRange(edges, n)
    ensures Connected(edges, n) <==> forall x: nat, y: nat :: 0 <= x < n && 0 <= y < n ==> Reaches(edges, x, y)
  {
    if Connected(edges, n) {
      forall x: nat, y: nat | 0 <= x < n && 0 <= y < n
        ensures Reaches(edges, x, y)
      {
        var s := set z | z in Vertices(n) && Reaches(edges, x, z);
        assert x in s by { assert Walk(edges, [x]); }
        forall e | e in edges
          ensures !Crosses(e, s)
        {
          ReachesFurther(edges, x, e);
        }
        assert !Cut(s, n);
        assert y in s;
      }
    } else if forall x: nat, y: nat :: 0 <= x < n && 0 <= y < n ==> Reaches(edges, x, y) {
      var s :| Cut(s, n) && Closed(edges, s);
      var x :| x in s;
      var y :| y in Vertices(n) && y !in s;
      assert Reaches(edges, x, y);
      var p :| Walk(edges, p) && p[0] == x && p[|p| - 1] == y;
      WalkStaysInside(edges, s, p);
      assert false;
    }
  }

  lemma ReachesFurther(edges: set<Edge>, x: nat, e: Edge)
    requires e in edges
    ensures Reaches(edges, x, e.u) <==> Reaches(edges, x, e.v)
  {
    if Reaches(edges, x, e.u) {
      var p :| Walk(edges, p) && p[0] == x && p[|p| - 1] == e.u;
      assert Walk(edges, p + [e.v]);
    }
    if Reaches(edges, x, e.v) {
      var p :| Walk(edges, p) && p[0] == x && p[|p| - 1] == e.v;
      assert Walk(edges, p + [e.u]);
    }
  }

  // ----- exchange -----

  function SymDiff(s: set<nat>, r: set<nat>): set<nat> {
    (s - r) + (r - s)
  }

  lemma CrossesSymDiff(e: Edge, s: set<nat>, r: set<nat>)
    ensures Crosses(e, SymDiff(s, r)) <==> (Crosses(e, s) != Crosses(e, r))
  {
  }

  /** Sets whose symmetric difference is no cut are equal or complementary, so the same edges cross them. */
  lemma SameCut(s: set<nat>, r: set<nat>, n: nat, e: Edge)
    requires s <= Vertices(n) && r <= Vertices(n) && !Cut(SymDiff(s, r), n) && e.u < n && e.v < n
    ensures Crosses(e, s) <==> Crosses(e, r)
  {
    assert SymDiff(s, r) == {} || SymDiff(s, r) == Vertices(n);
    assert e.u in SymDiff(s, r) <==> e.v in SymDiff(s, r);
  }

  /** Removing a tree edge f leaves a cut that f, and no other tree edge, crosses. */
  lemma CutBehind(t: set<Edge>, n: nat, f: Edge) returns (r: set<nat>)
    requires MinimallyConnected(t, n) && f in t
    ensures Cut(r, n) && Closed(t - {f}, r) && Crosses(f, r)
  {
    assert Needed(t, n, f);
    r :| Cut(r, n) && Closed(t - {f}, r);
    assert !Closed(t, r);
  }

  /** Some tree edge crosses s and, once removed, separates x from y: the tree path from x to y leaves s somewhere. */
  lemma {:induction false} FindExchange(t: set<Edge>, n: nat, s: set<nat>, x: nat, y: nat)
    returns (f: Edge, r: set<nat>)
    requires MinimallyConnected(t, n) && s <= Vertices(n) && x < n && y < n && (x in s) != (y in s)
    ensures f in t && Crosses(f, s)
    ensures Cut(r, n) && Closed(t - {f}, r) && Crosses(f, r) && (x in r) != (y in r)
    decreases set g | g in t && Crosses(g, s)
  {
    assert x in Vertices(n) && y in Vertices(n);
    assert Cut(s, n);
    f :| f in t && Crosses(f, s);
    r := CutBehind(t, n, f);
    if (x in r) == (y in r) {
      var s' := SymDiff(s, r);
      forall g | g in t
        ensures Crosses(g, s') <==> Crosses(g, s) && g != f
      {
        CrossesSymDiff(g, s, r);
      }
      assert (set g | g in t && Crosses(g, s')) == (set g | g in t && Crosses(g, s)) - {f};
      f, r := FindExchange(t, n, s', x, y);
    }
  }

  lemma ExchangeConnects(t: set<Edge>, n: nat, f: Edge, r: set<nat>, e: Edge)
    requires MinimallyConnected(t, n) && f in t && Cut(r, n) && Closed(t - {f}, r) && Crosses(f, r)
    requires e.u < n && e.v < n && Crosses(e, r)
    ensures Connected(t - {f} + {e}, n)
  {
    forall s | Cut(s, n)
      ensures !Closed(t - {f} + {e}, s)
    {
      if Closed(t - {f} + {e}, s) {
        var g :| g in t && Crosses(g, s);
        assert g == f;
        forall g | g in t
          ensures !Crosses(g, SymDiff(s, r))
        {
          CrossesSymDiff(g, s, r);
        }
        assert e in t - {f} + {e};
        SameCut(s, r, n, e);
        assert false;
      }
    }
  }

  lemma ExchangeMinimal(t: set<Edge>, n: nat, f: Edge, r: set<nat>, e: Edge, g: Edge)
    requires MinimallyConnected(t, n) && f in t && Cut(r, n) && Closed(t - {f}, r) && Crosses(f, r)
    requires e.u < n && e.v < n && e !in t && Crosses(e, r) && g in t - {f} + {e}
    ensures Needed(t - {f} + {e}, n, g)
  {
    var t' := t - {f} + {e} - {g};
    if g == e {
      assert Closed(t', r);
    } else if Connected(t', n) {
      var p := CutBehind(t, n, g);
      var h :| h in t' && Crosses(h, p);
      assert h == e;
      forall d | d in t'
        ensures !Crosses(d, SymDiff(p, r))
      {
        CrossesSymDiff(d, p, r);
      }
      assert g in t - {f};
      SameCut(p, r, n, g);
      assert false;
    }
  }

  /** Swapping a tree edge for a new edge across the cut behind it gives another spanning tree. */
  lemma Exchange(t: set<Edge>, edges: set<Edge>, n: nat, f: Edge, r: set<nat>, e: Edge)
    requires SpanningTree(t, edges, n) && f in t && Cut(r, n) && Closed(t - {f}, r) && Crosses(f, r)
    requires e in edges && e.u < n && e.v < n && e !in t && Crosses(e, r)
    ensures SpanningTree(t - {f} + {e}, edges, n)
    ensures Weight(t - {f} + {e}) == Weight(t) - f.weight + e.weight
  {
    ExchangeMinimallyConnects(t, n, f, r, e, t - {f} + {e});
    ExchangeWeight(t, f, e);
  }

  lemma ExchangeMinimallyConnects(t: set<Edge>, n: nat, f: Edge, r: set<nat>, e: Edge, t': set<Edge>)
    requires MinimallyConnected(t, n) && f in t && Cut(r, n) && Closed(t - {f}, r) && Crosses(f, r)
    requires e.u < n && e.v < n && e !in t && Crosses(e, r) && t' == t - {f} + {e}
    ensures MinimallyConnected(t', n)
  {
    ExchangeConnects(t, n, f, r, e);
    forall g | g in t'
      ensures Needed(t', n, g)
    {
      ExchangeMinimal(t, n, f, r, e, g);
    }
  }

  lemma ExchangeWeight(t: set<Edge>, f: Edge, e: Edge)
    requires f in t && e !in t
    ensures Weight(t - {f} + {e}) == Weight(t) - f.weight + e.weight
  {
    WeightSplit(t, f);
    WeightSplit(t - {f} + {e}, e);
    assert t - {f} + {e} - {e} == t - {f};
  }

  // ----- the greedy invariant -----

  /** Every spanning tree is matched by one that is no heavier and contains the forest. */
  ghost predicate Promising(forest: set<Edge>, edges: set<Edge>, n: nat) {
    forall t :: SpanningTree(t, edges, n) ==> Extends(forest, edges, n, t)
  }

  ghost predicate Extends(forest: set<Edge>, edges: set<Edge>, n: nat, t: set<Edge>) {
    exists t' :: SpanningTree(t', edges, n) && forest <= t' && Weight(t') <= Weight(t)
  }

  /** A spanning tree around the forest can be made to contain e without getting heavier. */
  lemma PullIn(forest: set<Edge>, edges: set<Edge>, n: nat, s: set<nat>, e: Edge, t: set<Edge>) returns (t': set<Edge>)
    requires SpanningTree(t, edges, n) && forest <= t
    requires s <= Vertices(n) && Closed(forest, s) && e in edges && e.u < n && e.v < n && Crosses(e, s)
    requires forall g :: g in edges && Crosses(g, s) ==> e.weight <= g.weight
    ensures SpanningTree(t', edges, n) && forest + {e} <= t' && Weight(t') <= Weight(t)
  {
    if e in t {
      return t;
    }
    var f, r := FindExchange(t, n, s, e.u, e.v);
    Exchange(t, edges, n, f, r, e);
    t' := t - {f} + {e};
  }

  /** The cut property: a lightest edge across a cut that the forest does not cross may join the forest. */
  lemma CutProperty(forest: set<Edge>, edges: set<Edge>, n: nat, s: set<nat>, e: Edge)
    requires Promising(forest, edges, n) && InRange(edges, n)
    requires s <= Vertices(n) && Closed(forest, s) && e in edges && Crosses(e, s)
    requires forall g :: g in edges && Crosses(g, s) ==> e.weight <= g.weight
    ensures Promising(forest + {e}, edges, n)
  {
    forall t | SpanningTree(t, edges, n)
      ensures Extends(forest + {e}, edges, n, t)
    {
      assert Extends(forest, edges, n, t);
      var t0 :| SpanningTree(t0, edges, n) && forest <= t0 && Weight(t0) <= Weight(t);
      var t1 := PullIn(forest, edges, n, s, e, t0);
    }
  }

  /** A connected set of edges contains a spanning tree. */
  lemma {:induction false} SpanningTreeExists(edges: set<Edge>, n: nat) returns (t: set<Edge>)
    requires InRange(edges, n) && Connected(edges, n)
    ensures SpanningTree(t, edges, n)
    decreases edges
  {
    if f :| f in edges && Connected(edges - {f}, n) {
      t := SpanningTreeExists(edges - {f}, n);
    } else {
      t := edges;
    }
  }

  lemma NotNeeded(forest: set<Edge>, t: set<Edge>, n: nat, f: Edge)
    requires forest <= t - {f} && Connected(forest, n)
    ensures !Needed(t, n, f)
  {
    forall s | Cut(s, n)
      ensures !Closed(t - {f}, s)
    {
      assert !Closed(forest, s);
    }
  }

  /** A minimally connected set has no room for a smaller connected one. */
  lemma NothingSpare(forest: set<Edge>, t: set<Edge>, n: nat)
    requires MinimallyConnected(t, n) && forest <= t && Connected(forest, n)
    ensures forest == t
  {
    forall f | f in t
      ensures f in forest
    {
      if f !in forest {
        NotNeeded(forest, t, n, f);
      }
    }
  }

  /** A promising forest that connects everything is a spanning tree, and no spanning tree is lighter. */
  lemma PromisingAndConnected(forest: set<Edge>, edges: set<Edge>, n: nat)
    requires InRange(edges, n) && Connected(edges, n) && Promising(forest, edges, n) && Connected(forest, n)
    ensures SpanningTree(forest, edges, n)
    ensures forall t :: SpanningTree(t, edges, n) ==> Weight(forest) <= Weight(t)
  {
    forall t | SpanningTree(t, edges, n)
      ensures SpanningTree(forest, edges, n) && Weight(forest) <= Weight(t)
    {
      assert Extends(forest, edges, n, t);
      var t' :| SpanningTree(t', edges, n) && forest <= t' && Weight(t') <= Weight(t);
      NothingSpare(forest, t', n);
    }
    var t := SpanningTreeExists(edges, n);
  }
}
