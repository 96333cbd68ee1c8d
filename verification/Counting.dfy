/** How often an element stands in a list. */
module Counting {

  function One(b: bool): nat {
    if b then 1 else 0
  }

  function Times<T(==)>(ts: seq<T>, t: T): nat {
    if ts == [] then 0 else Times(ts[..|ts| - 1], t) + One(ts[|ts| - 1] == t)
  }

  lemma TimesPush<T>(ts: seq<T>, x: T)
    ensures forall t :: Times(ts + [x], t) == Times(ts, t) + One(x == t)
  {
    assert (ts + [x])[..|ts|] == ts;
  }

  lemma {:induction false} TimesSplit<T>(a: seq<T>, b: seq<T>, t: T)
    ensures Times(a + b, t) == Times(a, t) + Times(b, t)
    decreases |b|
  {
    if b == [] {
      assert a + b == a;
    } else {
      TimesSplit(a, b[..|b| - 1], t);
      assert (a + b)[..|a + b| - 1] == a + b[..|b| - 1];
    }
  }

  /** What stands in a list once stands at one place only. */
  lemma OnceMeansDistinct<T>(s: seq<T>, p: nat, q: nat)
    requires p < q < |s| && Times(s, s[p]) <= 1
    ensures s[p] != s[q]
  {
    assert s == s[..q] + s[q..];
    TimesSplit(s[..q], s[q..], s[p]);
    assert s[..q][p] == s[p] && s[q..][0] == s[q];
    AbsentNever(s[..q], s[p]);
    AbsentNever(s[q..], s[p]);
  }

  lemma {:induction false} AbsentNever<T>(ts: seq<T>, t: T)
    ensures t !in ts <==> Times(ts, t) == 0
    decreases |ts|
  {
    if ts != [] {
      AbsentNever(ts[..|ts| - 1], t);
    }
  }
}
