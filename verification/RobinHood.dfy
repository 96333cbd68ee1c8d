/** The Robin Hood multimap behind hash_join: linear probing where the entry farther from home keeps the slot. */
module RobinHood {
  import opened Hashing

  /** One slot; `psl` is the probe sequence length, -1 in an empty slot. */
  datatype Entry = Entry(psl: int, key: int, value: int) {
    predicate Empty() {
      psl == -1
    }
  }

  const EMPTY := Entry(-1, 0, 0)

  /** The slot after i around a ring of n slots. */
  function Next(i: nat, n: nat): (j: nat)
    requires i < n
    ensures j < n
  {
    if i + 1 == n then 0 else i + 1
  }

  /** The slot d places after i around the ring. */
  function Plus(i: nat, d: nat, n: nat): (j: nat)
    requires i < n && d < n
    ensures j < n
  {
    if i + d < n then i + d else i + d - n
  }

  // ----- the ring invariant -----

  /** `psl` is the distance of slot i from the home slot of the key it holds. */
  ghost predicate AtDistance(hash: Hash, e: Entry, i: nat, n: nat)
    requires i < n
  {
    0 <= e.psl < n && Plus(Home(hash, e.key, n), e.psl, n) == i
  }

  /** Probe lengths are true distances, and grow by at most one from a slot to the next. */
  ghost predicate Ring(hash: Hash, s: seq<Entry>) {
    && |s| > 0
    && (forall i :: 0 <= i < |s| ==> s[i].Empty() || AtDistance(hash, s[i], i, |s|))
    && (forall i {:trigger Next(i, |s|)} :: 0 <= i < |s| ==> s[Next(i, |s|)].psl <= s[i].psl + 1)
  }

  /** An entry in hand, about to be tried at slot `cur`. */
  ghost predicate InHand(hash: Hash, s: seq<Entry>, cur: nat, e: Entry) {
    && cur < |s| && e.psl >= 0
    && (e.psl < |s| ==> AtDistance(hash, e, cur, |s|))
    && (forall i {:trigger Next(i, |s|)} :: 0 <= i < |s| && Next(i, |s|) == cur ==> e.psl <= s[i].psl + 1)
  }

  /** No entry is farther from home than the first empty slot before it allows. */
  lemma {:induction false} ProbeBound(hash: Hash, s: seq<Entry>, hole: nat, d: nat)
    requires Ring(hash, s) && hole < |s| && d < |s| && s[hole].Empty()
    ensures s[Plus(hole, d, |s|)].psl <= d - 1
  {
    if d > 0 {
      ProbeBound(hash, s, hole, d - 1);
      assert Next(Plus(hole, d - 1, |s|), |s|) == Plus(hole, d, |s|);
    }
  }

  lemma InHandBound(hash: Hash, s: seq<Entry>, hole: nat, cur: nat, e: Entry)
    requires Ring(hash, s) && hole < |s| && s[hole].Empty() && InHand(hash, s, cur, e)
    ensures e.psl < |s|
  {
    var prev := if cur == 0 then |s| - 1 else cur - 1;
    assert Next(prev, |s|) == cur;
    var d := if prev >= hole then prev - hole else prev + |s| - hole;
    assert Plus(hole, d, |s|) == prev;
    ProbeBound(hash, s, hole, d);
  }

  lemma Place(hash: Hash, s: seq<Entry>, cur: nat, e: Entry)
    requires Ring(hash, s) && InHand(hash, s, cur, e) && e.psl < |s| && e.psl > s[cur].psl
    ensures Ring(hash, s[cur := e])
  {
  }

  lemma PassOn(hash: Hash, s: seq<Entry>, hole: nat, cur: nat, e: Entry)
    requires Ring(hash, s) && InHand(hash, s, cur, e) && hole < |s| && s[hole].Empty() && e.psl <= s[cur].psl
    ensures InHand(hash, s, Next(cur, |s|), e.(psl := e.psl + 1))
  {
    InHandBound(hash, s, hole, cur, e);
    var n, home := |s|, Home(hash, e.key, |s|);
    assert e.psl + 1 < n ==> Plus(home, e.psl + 1, n) == Next(Plus(home, e.psl, n), n);
    assert forall i :: 0 <= i < n && Next(i, n) == Next(cur, n) ==> i == cur;
  }

  lemma SwapOut(hash: Hash, s: seq<Entry>, cur: nat, e: Entry)
    requires Ring(hash, s) && InHand(hash, s, cur, e) && e.psl < |s| && e.psl > s[cur].psl && !s[cur].Empty()
    ensures InHand(hash, s[cur := e], Next(cur, |s|), s[cur].(psl := s[cur].psl + 1))
  {
  }

  // ----- contents -----

  function Is(e: Entry, key: int, value: int): nat {
    if !e.Empty() && e.key == key && e.value == value then 1 else 0
  }

  /** How many slots hold the pair: the multimap the slots stand for. */
  ghost function Count(s: seq<Entry>, key: int, value: int): nat {
    if s == [] then 0 else Count(s[..|s| - 1], key, value) + Is(s[|s| - 1], key, value)
  }

  /** How many slots are in use. */
  ghost function Used(s: seq<Entry>): nat {
    if s == [] then 0 else Used(s[..|s| - 1]) + if s[|s| - 1].Empty() then 0 else 1
  }

  lemma {:induction false} CountUpdate(s: seq<Entry>, i: nat, e: Entry, key: int, value: int)
    requires i < |s|
    ensures Count(s[i := e], key, value) == Count(s, key, value) - Is(s[i], key, value) + Is(e, key, value)
  {
    var t, n := s[i := e], |s| - 1;
    if i < n {
      CountUpdate(s[..n], i, e, key, value);
      assert t[..n] == s[..n][i := e];
    } else {
      assert t[..n] == s[..n];
    }
  }

  lemma {:induction false} UsedUpdate(s: seq<Entry>, i: nat, e: Entry)
    requires i < |s|
    ensures Used(s[i := e]) == Used(s) - (if s[i].Empty() then 0 else 1) + (if e.Empty() then 0 else 1)
  {
    var t, n := s[i := e], |s| - 1;
    if i < n {
      UsedUpdate(s[..n], i, e);
      assert t[..n] == s[..n][i := e];
    } else {
      assert t[..n] == s[..n];
    }
  }

  lemma {:induction false} AllEmpty(s: seq<Entry>, key: int, value: int)
    requires forall i :: 0 <= i < |s| ==> s[i].Empty()
    ensures Count(s, key, value) == 0 && Used(s) == 0
  {
    if s != [] {
      AllEmpty(s[..|s| - 1], key, value);
    }
  }

  lemma {:induction false} HoleExists(s: seq<Entry>) returns (hole: nat)
    requires Used(s) < |s|
    ensures hole < |s| && s[hole].Empty()
  {
    hole := |s| - 1;
    if !s[hole].Empty() {
      hole := HoleExists(s[..hole]);
    }
  }

  lemma {:induction false} CountAppend(s: seq<Entry>, t: seq<Entry>, key: int, value: int)
    ensures Count(s + t, key, value) == Count(s, key, value) + Count(t, key, value)
    decreases |t|
  {
    if t == [] {
      assert s + t == s;
    } else {
      CountAppend(s, t[..|t| - 1], key, value);
      assert (s + t)[..|s + t| - 1] == s + t[..|t| - 1];
    }
  }

  lemma {:induction false} CountNone(s: seq<Entry>, key: int, value: int)
    requires forall i :: 0 <= i < |s| ==> s[i].Empty() || s[i].key != key
    ensures Count(s, key, value) == 0
  {
    if s != [] {
      CountNone(s[..|s| - 1], key, value);
    }
  }

  // ----- looking up -----

  /** The slots in the order a probe starting at `home` visits them. */
  ghost function From(s: seq<Entry>, home: nat): (r: seq<Entry>)
    requires home < |s|
    ensures |r| == |s| && forall d :: 0 <= d < |s| ==> r[d] == s[Plus(home, d, |s|)]
  {
    s[home..] + s[..home]
  }

  /** In probe order a present key leaves no empty slot before its entries. */
  lemma {:induction false} NoHoleBefore(hash: Hash, s: seq<Entry>, key: int, d: nat, b: nat)
    requires Ring(hash, s) && d < |s| && b <= d
    requires var e := From(s, Home(hash, key, |s|))[d]; !e.Empty() && e.key == key
    ensures From(s, Home(hash, key, |s|))[d - b].psl >= d - b
    decreases b
  {
    var n, home := |s|, Home(hash, key, |s|);
    if b == 0 {
      assert AtDistance(hash, s[Plus(home, d, n)], Plus(home, d, n), n);
    } else {
      NoHoleBefore(hash, s, key, d, b - 1);
      assert Next(Plus(home, d - b, n), n) == Plus(home, d - b + 1, n);
    }
  }

  /** A probe that has reached an empty slot has seen every entry of its key. */
  lemma ProbeComplete(hash: Hash, s: seq<Entry>, key: int, d: nat, value: int)
    requires Ring(hash, s) && d < |s| && From(s, Home(hash, key, |s|))[d].Empty()
    ensures Count(From(s, Home(hash, key, |s|))[..d], key, value) == Count(s, key, value)
  {
    var home := Home(hash, key, |s|);
    var r := From(s, home);
    forall i | d <= i < |s|
      ensures r[i].Empty() || r[i].key != key
    {
      if !r[i].Empty() && r[i].key == key {
        NoHoleBefore(hash, s, key, i, i - d);
      }
    }
    CountNone(r[d..], key, value);
    CountAppend(r[..d], r[d..], key, value);
    assert r[..d] + r[d..] == r;
    FromCount(s, home, key, value);
  }

  lemma FromCount(s: seq<Entry>, home: nat, key: int, value: int)
    requires home < |s|
    ensures Count(From(s, home), key, value) == Count(s, key, value)
  {
    CountAppend(s[home..], s[..home], key, value);
    CountAppend(s[..home], s[home..], key, value);
    assert s[..home] + s[home..] == s;
  }

  // ----- one insertion -----

  /** Slots s with the entry e in hand at `cur`: together the original slots s0 and the new pair. */
  ghost predicate Probing(hash: Hash, s0: seq<Entry>, s: seq<Entry>, cur: nat, e: Entry, hole: nat, key: int,
                          value: int) {
    && Ring(hash, s) && |s| == |s0| && InHand(hash, s, cur, e)
    && hole < |s| && s[hole].Empty() && Used(s) == Used(s0)
    && forall k, v :: Count(s, k, v) + Is(e, k, v) == Count(s0, k, v) + Is(Entry(0, key, value), k, v)
  }

  lemma ProbeStart(hash: Hash, s: seq<Entry>, hole: nat, key: int, value: int)
    requires Ring(hash, s) && hole < |s| && s[hole].Empty()
    ensures Probing(hash, s, s, Home(hash, key, |s|), Entry(0, key, value), hole, key, value)
  {
    forall i | 0 <= i < |s|
      ensures s[i].psl >= -1
    {
      assert s[i].Empty() || AtDistance(hash, s[i], i, |s|);
    }
  }

  lemma ProbeSwap(hash: Hash, s0: seq<Entry>, s: seq<Entry>, cur: nat, e: Entry, hole: nat, key: int, value: int)
    requires Probing(hash, s0, s, cur, e, hole, key, value) && !s[cur].Empty() && e.psl > s[cur].psl
    ensures Probing(hash, s0, s[cur := e], Next(cur, |s|), s[cur].(psl := s[cur].psl + 1), hole, key, value)
  {
    InHandBound(hash, s, hole, cur, e);
    Place(hash, s, cur, e);
    SwapOut(hash, s, cur, e);
    UsedUpdate(s, cur, e);
    assert AtDistance(hash, s[cur], cur, |s|);
    forall k, v
      ensures Count(s[cur := e], k, v) == Count(s, k, v) - Is(s[cur], k, v) + Is(e, k, v)
    {
      CountUpdate(s, cur, e, k, v);
    }
  }

  lemma ProbePass(hash: Hash, s0: seq<Entry>, s: seq<Entry>, cur: nat, e: Entry, hole: nat, key: int, value: int)
    requires Probing(hash, s0, s, cur, e, hole, key, value) && !s[cur].Empty() && e.psl <= s[cur].psl
    ensures Probing(hash, s0, s, Next(cur, |s|), e.(psl := e.psl + 1), hole, key, value)
  {
    PassOn(hash, s, hole, cur, e);
  }

  lemma ProbeEnd(hash: Hash, s0: seq<Entry>, s: seq<Entry>, cur: nat, e: Entry, hole: nat, key: int, value: int)
    requires Probing(hash, s0, s, cur, e, hole, key, value) && s[cur].Empty()
    ensures Ring(hash, s[cur := e]) && Used(s[cur := e]) == Used(s0) + 1
    ensures forall k, v :: Count(s[cur := e], k, v) == Count(s0, k, v) + if k == key && v == value then 1 else 0
  {
    InHandBound(hash, s, hole, cur, e);
    Place(hash, s, cur, e);
    UsedUpdate(s, cur, e);
    forall k, v
      ensures Count(s[cur := e], k, v) == Count(s, k, v) + Is(e, k, v)
    {
      CountUpdate(s, cur, e, k, v);
    }
  }

  /** Steps from slot i forward to slot j. */
  function Ahead(i: nat, j: nat, n: nat): nat
    requires i < n && j < n
  {
    if i <= j then j - i else j + n - i
  }

  /** Where the probe loop leaves an entry in hand at `cur`, after at most `left` further slots. */
  ghost function Settled(s: seq<Entry>, cur: nat, e: Entry, left: nat): (r: seq<Entry>)
    requires cur < |s|
    ensures |r| == |s|
    decreases left
  {
    var n := |s|;
    if left == 0 || s[cur].Empty() then s[cur := e]
    else if e.psl > s[cur].psl then Settled(s[cur := e], Next(cur, n), s[cur].(psl := s[cur].psl + 1), left - 1)
    else Settled(s, Next(cur, n), e.(psl := e.psl + 1), left - 1)
  }

  ghost function AfterPut(hash: Hash, s: seq<Entry>, key: int, value: int): (r: seq<Entry>)
    requires |s| > 0
    ensures |r| == |s|
  {
    Settled(s, Home(hash, key, |s|), Entry(0, key, value), |s|)
  }

  /** The probe ends within the ring, keeps it, and adds exactly the new pair. */
  lemma {:induction false} SettledKeeps(hash: Hash, s0: seq<Entry>, s: seq<Entry>, cur: nat, e: Entry, hole: nat,
                                        key: int, value: int, left: nat)
    requires Probing(hash, s0, s, cur, e, hole, key, value) && left > Ahead(cur, hole, |s|)
    ensures var r := Settled(s, cur, e, left);
      Ring(hash, r) && Used(r) == Used(s0) + 1 && GrownBy(s0, r, key, value)
    decreases left
  {
    if s[cur].Empty() {
      ProbeEnd(hash, s0, s, cur, e, hole, key, value);
    } else {
      var s', cur', e' := ProbeStep(hash, s0, s, cur, e, hole, key, value, left);
      Nearer(cur, hole, |s|);
      SettledKeeps(hash, s0, s', cur', e', hole, key, value, left - 1);
    }
  }

  lemma ProbeStep(hash: Hash, s0: seq<Entry>, s: seq<Entry>, cur: nat, e: Entry, hole: nat, key: int, value: int,
                  left: nat)
    returns (s': seq<Entry>, cur': nat, e': Entry)
    requires Probing(hash, s0, s, cur, e, hole, key, value) && !s[cur].Empty() && left > 0
    ensures Probing(hash, s0, s', cur', e', hole, key, value) && |s'| == |s| && cur' == Next(cur, |s|)
    ensures Settled(s, cur, e, left) == Settled(s', cur', e', left - 1)
  {
    cur' := Next(cur, |s|);
    if e.psl > s[cur].psl {
      ProbeSwap(hash, s0, s, cur, e, hole, key, value);
      s', e' := s[cur := e], s[cur].(psl := s[cur].psl + 1);
    } else {
      ProbePass(hash, s0, s, cur, e, hole, key, value);
      s', e' := s, e.(psl := e.psl + 1);
    }
  }

  lemma Nearer(i: nat, j: nat, n: nat)
    requires i < n && j < n && i != j
    ensures Ahead(Next(i, n), j, n) == Ahead(i, j, n) - 1
  {
  }

  ghost predicate GrownBy(s: seq<Entry>, r: seq<Entry>, key: int, value: int) {
    forall k, v :: Count(r, k, v) == Count(s, k, v) + if k == key && v == value then 1 else 0
  }

  lemma PutKeeps(hash: Hash, s: seq<Entry>, hole: nat, key: int, value: int)
    requires Ring(hash, s) && hole < |s| && s[hole].Empty()
    ensures var r := AfterPut(hash, s, key, value);
      Ring(hash, r) && Used(r) == Used(s) + 1 && GrownBy(s, r, key, value)
  {
    ProbeStart(hash, s, hole, key, value);
    SettledKeeps(hash, s, s, Home(hash, key, |s|), Entry(0, key, value), hole, key, value, |s|);
  }

  // ----- what a probe finds -----

  /** The first empty slot from d on, in probe order. */
  ghost function HoleAt(r: seq<Entry>, d: nat): (h: nat)
    requires d <= |r|
    ensures d <= h <= |r| && (h < |r| ==> r[h].Empty()) && forall i :: d <= i < h ==> !r[i].Empty()
    decreases |r| - d
  {
    if d < |r| && !r[d].Empty() then HoleAt(r, d + 1) else d
  }

  /** How often a probe for the key meets the pair before it stops. */
  ghost function Seen(hash: Hash, s: seq<Entry>, key: int, value: int): nat
    requires |s| > 0
  {
    var r := From(s, Home(hash, key, |s|));
    Count(r[..HoleAt(r, 0)], key, value)
  }

  lemma SeenUpTo(hash: Hash, s: seq<Entry>, key: int, d: nat)
    requires d < |s| && From(s, Home(hash, key, |s|))[d].Empty()
    requires forall i :: 0 <= i < d ==> !From(s, Home(hash, key, |s|))[i].Empty()
    ensures HoleAt(From(s, Home(hash, key, |s|)), 0) == d
  {
  }

  /** How far along its probe a key meets an empty slot. */
  lemma DistanceToHole(hash: Hash, s: seq<Entry>, key: int) returns (d: nat)
    requires Used(s) < |s|
    ensures d < |s| && From(s, Home(hash, key, |s|))[d].Empty()
  {
    var hole := HoleExists(s);
    var home := Home(hash, key, |s|);
    d := Ahead(home, hole, |s|);
  }

  /** Every lookup finds exactly what is stored. */
  ghost predicate AllFound(hash: Hash, s: seq<Entry>)
    requires |s| > 0
  {
    forall k, v :: Seen(hash, s, k, v) == Count(s, k, v)
  }

  /** In an intact ring with an empty slot, probes find everything. */
  lemma RingSeesAll(hash: Hash, s: seq<Entry>, hole: nat, key: int, value: int)
    requires Ring(hash, s) && hole < |s| && s[hole].Empty()
    ensures Seen(hash, s, key, value) == Count(s, key, value)
  {
    var home := Home(hash, key, |s|);
    var r := From(s, home);
    assert r[Ahead(home, hole, |s|)].Empty();
    ProbeComplete(hash, s, key, HoleAt(r, 0), value);
  }

  lemma RingSeesKey(hash: Hash, s: seq<Entry>, hole: nat, key: int)
    requires Ring(hash, s) && hole < |s| && s[hole].Empty()
    ensures forall v :: Seen(hash, s, key, v) == Count(s, key, v)
  {
    forall v
      ensures Seen(hash, s, key, v) == Count(s, key, v)
    {
      RingSeesAll(hash, s, hole, key, v);
    }
  }

  /** An entry away from home right behind an empty slot is never found. */
  lemma HiddenEntry(hash: Hash, s: seq<Entry>, h: nat)
    requires h < |s| && s[h].Empty()
    requires var e := s[Next(h, |s|)]; e.psl > 0 && AtDistance(hash, e, Next(h, |s|), |s|)
    ensures var e := s[Next(h, |s|)]; Seen(hash, s, e.key, e.value) < Count(s, e.key, e.value)
  {
    var n, e := |s|, s[Next(h, |s|)];
    var home := Home(hash, e.key, n);
    BehindInProbe(home, e.psl, h, n);
    var r := From(s, home);
    assert r[e.psl] == s[Plus(home, e.psl, n)] == e && r[e.psl - 1] == s[Plus(home, e.psl - 1, n)] == s[h];
    BeyondHole(r, e.psl, e.key, e.value);
    FromCount(s, home, e.key, e.value);
  }

  lemma BehindInProbe(home: nat, p: nat, h: nat, n: nat)
    requires home < n && 0 < p < n && h < n && Plus(home, p, n) == Next(h, n)
    ensures Plus(home, p - 1, n) == h
  {
  }

  /** What stands behind an empty slot is not counted by a probe. */
  lemma BeyondHole(r: seq<Entry>, p: nat, key: int, value: int)
    requires 0 < p < |r| && r[p - 1].Empty() && Is(r[p], key, value) == 1
    ensures Count(r[..HoleAt(r, 0)], key, value) < Count(r, key, value)
  {
    var d := HoleAt(r, 0);
    CountAppend(r[..d], r[d..], key, value);
    assert r[..d] + r[d..] == r;
    CountHere(r[d..], p - d, key, value);
  }

  lemma {:induction false} CountHere(s: seq<Entry>, i: nat, key: int, value: int)
    requires i < |s| && Is(s[i], key, value) == 1
    ensures Count(s, key, value) > 0
  {
    if i < |s| - 1 {
      CountHere(s[..|s| - 1], i, key, value);
    }
  }

  // ----- removal -----

  const REMOVED := -1

  ghost predicate Distances(hash: Hash, s: seq<Entry>) {
    forall i :: 0 <= i < |s| ==> s[i].Empty() || AtDistance(hash, s[i], i, |s|)
  }

  /** Ring, except that nothing is known about the slot after the empty slot h. */
  ghost predicate LooseRing(hash: Hash, s: seq<Entry>, h: nat) {
    && h < |s| && s[h].Empty() && Distances(hash, s)
    && forall i {:trigger Next(i, |s|)} :: 0 <= i < |s| && i != h ==> s[Next(i, |s|)].psl <= s[i].psl + 1
  }

  /** Ring, except that the slot after the empty slot h may still be one place too far from home. */
  ghost predicate HoledRing(hash: Hash, s: seq<Entry>, h: nat) {
    && LooseRing(hash, s, h)
    && forall i {:trigger Next(i, |s|)} :: 0 <= i < |s| && Next(i, |s|) == h ==> s[Next(h, |s|)].psl <= s[i].psl + 2
  }

  lemma PslBounded(hash: Hash, s: seq<Entry>)
    requires Distances(hash, s)
    ensures forall i :: 0 <= i < |s| ==> s[i].psl >= -1
  {
    forall i | 0 <= i < |s|
      ensures s[i].psl >= -1
    {
      assert s[i].Empty() || AtDistance(hash, s[i], i, |s|);
    }
  }

  lemma PunchHole(hash: Hash, s: seq<Entry>, h: nat)
    requires Ring(hash, s) && h < |s| && |s| > 1
    ensures HoledRing(hash, s[h := s[h].(psl := REMOVED)], h)
  {
    PslBounded(hash, s);
  }

  /** Emptying the slot after the hole as well. */
  lemma WidenHole(hash: Hash, s: seq<Entry>, h: nat, c: nat)
    requires LooseRing(hash, s, h) && c == Next(h, |s|) && |s| > 1
    ensures LooseRing(hash, s[c := s[c].(psl := REMOVED)], c) && s[c := s[c].(psl := REMOVED)][h].Empty()
  {
    PslBounded(hash, s);
  }

  /** The slots after the entry after the hole has moved back into it. */
  ghost function ShiftedBack(s: seq<Entry>, h: nat, c: nat): (r: seq<Entry>)
    requires h < |s| && c < |s|
    ensures |r| == |s|
  {
    var e := s[c].(psl := s[c].psl - 1);
    s[h := e][c := e.(psl := REMOVED)]
  }

  lemma ShiftBack(hash: Hash, s: seq<Entry>, h: nat, c: nat)
    requires HoledRing(hash, s, h) && c == Next(h, |s|) && c != h && s[c].psl > 0
    ensures HoledRing(hash, ShiftedBack(s, h, c), c)
  {
    ShiftDistances(hash, s, h, c);
    PslBounded(hash, s);
  }

  lemma ShiftDistances(hash: Hash, s: seq<Entry>, h: nat, c: nat)
    requires Distances(hash, s) && h < |s| && c == Next(h, |s|) && c != h && s[c].psl > 0
    ensures Distances(hash, ShiftedBack(s, h, c))
  {
    assert AtDistance(hash, s[c], c, |s|);
    assert AtDistance(hash, ShiftedBack(s, h, c)[h], h, |s|);
  }

  lemma ShiftBackCounts(s: seq<Entry>, h: nat, c: nat, key: int, value: int)
    requires h < |s| && c < |s| && h != c && s[h].Empty() && s[c].psl > 0
    ensures Count(ShiftedBack(s, h, c), key, value) == Count(s, key, value)
    ensures Used(ShiftedBack(s, h, c)) == Used(s)
  {
    var e := s[c].(psl := s[c].psl - 1);
    CountUpdate(s, h, e, key, value);
    CountUpdate(s[h := e], c, e.(psl := REMOVED), key, value);
    UsedUpdate(s, h, e);
    UsedUpdate(s[h := e], c, e.(psl := REMOVED));
  }

  lemma CloseHole(hash: Hash, s: seq<Entry>, h: nat)
    requires LooseRing(hash, s, h) && s[Next(h, |s|)].psl <= 0
    ensures Ring(hash, s)
  {
  }

  // ----- when one pass closes every hole -----

  /** Whether the pass over the slots r, in probe order, comes to slot d with a hole behind it: a copy of the key opens
      one, an entry at home closes it, and any other entry moves it along. */
  ghost predicate Open(r: seq<Entry>, key: int, d: nat)
    requires d <= |r|
  {
    d > 0 && (r[d - 1].key == key || (r[d - 1].psl > 0 && Open(r, key, d - 1)))
  }

  /** A copy of the key met with a hole behind it makes the hole two slots wide. */
  ghost predicate Wide(r: seq<Entry>, key: int, d: nat)
    requires d <= |r|
  {
    d > 0 && r[d - 1].key == key && Open(r, key, d - 1)
  }

  /** An entry of another key that would have to move back over a wide hole, and moves one place only. */
  ghost predicate StuckAt(r: seq<Entry>, key: int, d: nat)
    requires d < |r|
  {
    Wide(r, key, d) && r[d].key != key && r[d].psl > 1
  }

  /** The condition under which one pass suffices: along the probe for the key, up to the first empty slot, no copy of
      the key that is met with a hole open is directly followed by an entry of another key more than one place away
      from its home. */
  ghost predicate GapsClose(hash: Hash, s: seq<Entry>, key: int)
    requires |s| > 0
  {
    var r := From(s, Home(hash, key, |s|));
    forall d :: 0 <= d < HoleAt(r, 0) ==> !StuckAt(r, key, d)
  }

  ghost predicate AtMostOnce(s: seq<Entry>, key: int) {
    forall i, j :: 0 <= i < j < |s| ==> s[i].Empty() || s[j].Empty() || s[i].key != key || s[j].key != key
  }

  /** A key stored at most once always meets it. */
  lemma AtMostOnceCloses(hash: Hash, s: seq<Entry>, key: int)
    requires |s| > 0 && AtMostOnce(s, key)
    ensures GapsClose(hash, s, key)
  {
    var home := Home(hash, key, |s|);
    var r := From(s, home);
    forall d | 0 <= d < HoleAt(r, 0)
      ensures !StuckAt(r, key, d)
    {
      if Wide(r, key, d) {
        assert r[d - 1] == s[Plus(home, d - 1, |s|)];
        var c := Opener(r, key, d - 1);
        assert false;
      }
    }
  }

  lemma {:induction false} Opener(r: seq<Entry>, key: int, d: nat) returns (c: nat)
    requires d <= |r| && Open(r, key, d)
    ensures c < d && r[c].key == key
  {
    if r[d - 1].key == key {
      c := d - 1;
    } else {
      c := Opener(r, key, d - 1);
    }
  }

  // ----- the pass -----

  /** What the body of the pass does to the slots: empty the slot if it holds the key, then move it back one place
      if the slot before it is empty and it is away from home. */
  ghost function StepOf(s: seq<Entry>, prev: int, cur: nat, key: int): (r: seq<Entry>)
    requires cur < |s| && -1 <= prev < |s|
    ensures |r| == |s|
  {
    var s1 := Marked(s, cur, key);
    if prev != -1 && s1[prev].Empty() && s1[cur].psl > 0 then ShiftedBack(s1, prev, cur) else s1
  }

  ghost function Marked(s: seq<Entry>, cur: nat, key: int): (r: seq<Entry>)
    requires cur < |s|
    ensures |r| == |s|
  {
    if s[cur].key == key then s[cur := s[cur].(psl := REMOVED)] else s
  }

  /** The slot before place d of the probe, or -1 before its start. */
  function Behind(home: nat, d: nat, n: nat): (i: int)
    requires home < n && d <= n
    ensures -1 <= i < n
  {
    if d == 0 then -1 else Plus(home, d - 1, n)
  }

  lemma FromUpdate(s: seq<Entry>, home: nat, d: nat, e: Entry)
    requires home < |s| && d < |s|
    ensures From(s[Plus(home, d, |s|) := e], home) == From(s, home)[d := e]
  {
    var after, expected := From(s[Plus(home, d, |s|) := e], home), From(s, home)[d := e];
    forall i | 0 <= i < |s|
      ensures after[i] == expected[i]
    {
      assert Plus(home, i, |s|) == Plus(home, d, |s|) ==> i == d;
    }
  }

  /** Some entry away from home was left right behind an empty slot, out of the pass's reach. */
  ghost predicate Broken(r: seq<Entry>, d: nat)
    requires d <= |r|
  {
    exists w :: 0 <= w && w + 1 < d - 1 && r[w].Empty() && r[w + 1].psl > 0
  }

  ghost predicate StuckBefore(r: seq<Entry>, key: int, d: nat)
    requires d <= |r|
  {
    exists c :: 0 <= c < d && StuckAt(r, key, c)
  }

  /** What the pass knows of the ring as long as no entry was left behind. */
  ghost predicate Mended(hash: Hash, s: seq<Entry>, r: seq<Entry>, r0: seq<Entry>, prev: int, key: int, d: nat)
    requires |r| == |r0| == |s| && d <= |s| && -1 <= prev < |s| && (d > 0 ==> prev >= 0)
  {
    if Wide(r0, key, d) then LooseRing(hash, s, prev) && d > 1 && r[d - 2].Empty()
    else if Open(r0, key, d) then HoledRing(hash, s, prev)
    else Ring(hash, s)
  }

  /** Before slot d of the probe: the slots behind hold no copy of the key, those ahead are as they were, an empty slot
      right behind is an open hole, and no pair of another key got lost. */
  ghost predicate Passed(hash: Hash, s0: seq<Entry>, s: seq<Entry>, key: int, d: nat) {
    && |s| == |s0| > 1 && d < |s| && Distances(hash, s0) && Distances(hash, s)
    && var home := Home(hash, key, |s|);
       var r0, r := From(s0, home), From(s, home);
       && (forall j :: 0 <= j < d ==> !r0[j].Empty() && (r[j].Empty() || r[j].key != key))
       && (forall j :: d <= j < |s| ==> r[j] == r0[j])
       && (d > 0 ==> (r[d - 1].Empty() <==> Open(r0, key, d)))
       && (forall k, v :: k != key ==> Count(s, k, v) == Count(s0, k, v))
  }

  /** The state of jh_erase's pass before slot d of the probe. */
  ghost predicate Erasing(hash: Hash, s0: seq<Entry>, s: seq<Entry>, key: int, d: nat) {
    && Passed(hash, s0, s, key, d)
    && var home := Home(hash, key, |s|);
       var r0, r := From(s0, home), From(s, home);
       if StuckBefore(r0, key, d) then Broken(r, d) else Mended(hash, s, r, r0, Behind(home, d, |s|), key, d)
  }

  lemma EraseStart(hash: Hash, s: seq<Entry>, key: int)
    requires Ring(hash, s) && |s| > 1
    ensures Erasing(hash, s, s, key, 0)
  {
  }

  /** The slots in probe order after one step of the pass. */
  ghost function Stepped(r: seq<Entry>, d: nat, key: int): (r': seq<Entry>)
    requires d < |r|
    ensures |r'| == |r|
  {
    if r[d].key == key then r[d := r[d].(psl := REMOVED)]
    else if d > 0 && r[d - 1].Empty() && r[d].psl > 0 then
      var e := r[d].(psl := r[d].psl - 1);
      r[d - 1 := e][d := e.(psl := REMOVED)]
    else r
  }

  lemma StepView(s: seq<Entry>, home: nat, key: int, d: nat)
    requires home < |s| && d < |s|
    ensures From(StepOf(s, Behind(home, d, |s|), Plus(home, d, |s|), key), home) == Stepped(From(s, home), d, key)
  {
    var n := |s|;
    var cur, prev := Plus(home, d, n), Behind(home, d, n);
    if s[cur].key == key {
      FromUpdate(s, home, d, s[cur].(psl := REMOVED));
    } else if d > 0 && s[prev].Empty() && s[cur].psl > 0 {
      ShiftView(s, home, d);
    }
  }

  lemma ShiftView(s: seq<Entry>, home: nat, d: nat)
    requires home < |s| && 0 < d < |s|
    ensures var r := From(s, home);
      var e := r[d].(psl := r[d].psl - 1);
      From(ShiftedBack(s, Plus(home, d - 1, |s|), Plus(home, d, |s|)), home) == r[d - 1 := e][d := e.(psl := REMOVED)]
  {
    var cur, prev := Plus(home, d, |s|), Plus(home, d - 1, |s|);
    var e := s[cur].(psl := s[cur].psl - 1);
    FromUpdate(s, home, d - 1, e);
    FromUpdate(s[prev := e], home, d, e.(psl := REMOVED));
  }

  lemma StepCounts(hash: Hash, s: seq<Entry>, home: nat, key: int, d: nat)
    requires home < |s| && d < |s| && |s| > 1 && Distances(hash, s) && !s[Plus(home, d, |s|)].Empty()
    ensures var s' := StepOf(s, Behind(home, d, |s|), Plus(home, d, |s|), key);
      Distances(hash, s') && forall k, v :: k != key ==> Count(s', k, v) == Count(s, k, v)
  {
    var n := |s|;
    var cur, prev := Plus(home, d, n), Behind(home, d, n);
    assert d > 0 ==> cur == Next(prev, n);
    if s[cur].key == key {
      forall k, v | k != key
        ensures Count(Marked(s, cur, key), k, v) == Count(s, k, v)
      {
        CountUpdate(s, cur, s[cur].(psl := REMOVED), k, v);
      }
    } else if d > 0 && s[prev].Empty() && s[cur].psl > 0 {
      ShiftDistances(hash, s, prev, cur);
      forall k, v
        ensures Count(ShiftedBack(s, prev, cur), k, v) == Count(s, k, v)
      {
        ShiftBackCounts(s, prev, cur, k, v);
      }
    }
  }

  /** Behind the step no copy is left, ahead nothing has changed, and the open hole is right behind. */
  lemma StepMoves(r0: seq<Entry>, r: seq<Entry>, key: int, d: nat)
    requires |r| == |r0| && d < |r| && r[d] == r0[d] && r[d].psl >= 0
    requires forall j :: 0 <= j < d ==> r[j].Empty() || r[j].key != key
    requires forall j :: d <= j < |r| ==> r[j] == r0[j]
    requires d > 0 ==> (r[d - 1].Empty() <==> Open(r0, key, d))
    ensures var r' := Stepped(r, d, key);
      && (forall j :: 0 <= j < d + 1 ==> r'[j].Empty() || r'[j].key != key)
      && (forall j :: d + 1 <= j < |r| ==> r'[j] == r0[j])
      && (r'[d].Empty() <==> Open(r0, key, d + 1))
  {
  }

  lemma StepPasses(hash: Hash, s0: seq<Entry>, s: seq<Entry>, key: int, d: nat)
    requires Passed(hash, s0, s, key, d) && d + 1 < |s| && !From(s, Home(hash, key, |s|))[d].Empty()
    ensures var home := Home(hash, key, |s|);
      Passed(hash, s0, StepOf(s, Behind(home, d, |s|), Plus(home, d, |s|), key), key, d + 1)
  {
    var home := Home(hash, key, |s|);
    StepView(s, home, key, d);
    StepCounts(hash, s, home, key, d);
    PslBounded(hash, s);
    StepMoves(From(s0, home), From(s, home), key, d);
  }

  lemma StaysBroken(r: seq<Entry>, key: int, d: nat)
    requires d < |r| && Broken(r, d)
    ensures Broken(Stepped(r, d, key), d + 1)
  {
    var w :| 0 <= w && w + 1 < d - 1 && r[w].Empty() && r[w + 1].psl > 0;
    var r' := Stepped(r, d, key);
    assert r'[w] == r[w] && r'[w + 1] == r[w + 1];
  }

  /** A pass that is not stuck meets a copy of the key. */
  lemma CopyMends(hash: Hash, s0: seq<Entry>, s: seq<Entry>, key: int, d: nat)
    requires Passed(hash, s0, s, key, d) && d + 1 < |s| && From(s, Home(hash, key, |s|))[d].key == key
    requires Mended(hash, s, From(s, Home(hash, key, |s|)), From(s0, Home(hash, key, |s|)),
                    Behind(Home(hash, key, |s|), d, |s|), key, d)
    ensures var home := Home(hash, key, |s|);
      var s' := Marked(s, Plus(home, d, |s|), key);
      Mended(hash, s', Stepped(From(s, home), d, key), From(s0, home), Plus(home, d, |s|), key, d + 1)
  {
    var n, home := |s|, Home(hash, key, |s|);
    var r0, cur, prev := From(s0, home), Plus(home, d, n), Behind(home, d, n);
    if Open(r0, key, d) {
      assert cur == Next(prev, n);
      WidenHole(hash, s, prev, cur);
    } else {
      PunchHole(hash, s, cur);
    }
  }

  /** A pass that is not stuck meets an entry of another key with a hole behind it, and moves it back. */
  lemma MoveMends(hash: Hash, s0: seq<Entry>, s: seq<Entry>, key: int, d: nat)
    requires Passed(hash, s0, s, key, d) && d + 1 < |s| && Open(From(s0, Home(hash, key, |s|)), key, d)
    requires var e := From(s, Home(hash, key, |s|))[d]; e.key != key && e.psl > 0
    requires Mended(hash, s, From(s, Home(hash, key, |s|)), From(s0, Home(hash, key, |s|)),
                    Behind(Home(hash, key, |s|), d, |s|), key, d)
    requires !StuckAt(From(s0, Home(hash, key, |s|)), key, d)
    ensures var home := Home(hash, key, |s|);
      HoledRing(hash, ShiftedBack(s, Plus(home, d - 1, |s|), Plus(home, d, |s|)), Plus(home, d, |s|))
  {
    var n, home := |s|, Home(hash, key, |s|);
    var r, cur, prev := From(s, home), Plus(home, d, n), Plus(home, d - 1, n);
    assert cur == Next(prev, n) && s[cur] == r[d];
    if Wide(From(s0, home), key, d) {
      var before := Plus(home, d - 2, n);
      assert s[before] == r[d - 2] && Next(before, n) == prev;
      NarrowHole(hash, s, before, prev);
    }
    ShiftBack(hash, s, prev, cur);
  }

  /** A pass that is not stuck meets an entry of another key that does not move. */
  lemma RestMends(hash: Hash, s0: seq<Entry>, s: seq<Entry>, key: int, d: nat)
    requires Passed(hash, s0, s, key, d) && d + 1 < |s|
    requires var e := From(s, Home(hash, key, |s|))[d]; e.key != key
    requires Open(From(s0, Home(hash, key, |s|)), key, d) ==> From(s, Home(hash, key, |s|))[d].psl <= 0
    requires Mended(hash, s, From(s, Home(hash, key, |s|)), From(s0, Home(hash, key, |s|)),
                    Behind(Home(hash, key, |s|), d, |s|), key, d)
    ensures Ring(hash, s)
  {
    var n, home := |s|, Home(hash, key, |s|);
    if Open(From(s0, home), key, d) {
      var cur, prev := Plus(home, d, n), Plus(home, d - 1, n);
      assert cur == Next(prev, n) && s[cur] == From(s, home)[d];
      CloseHole(hash, s, prev);
    }
  }

  /** One step of an unbroken pass: the ring stays mended, unless the pass gets stuck here. */
  lemma StepMends(hash: Hash, s0: seq<Entry>, s: seq<Entry>, key: int, d: nat)
    requires Passed(hash, s0, s, key, d) && d + 1 < |s| && !From(s, Home(hash, key, |s|))[d].Empty()
    requires Mended(hash, s, From(s, Home(hash, key, |s|)), From(s0, Home(hash, key, |s|)),
                    Behind(Home(hash, key, |s|), d, |s|), key, d)
    requires !StuckAt(From(s0, Home(hash, key, |s|)), key, d)
    ensures var home := Home(hash, key, |s|);
      var s' := StepOf(s, Behind(home, d, |s|), Plus(home, d, |s|), key);
      Mended(hash, s', From(s', home), From(s0, home), Plus(home, d, |s|), key, d + 1)
  {
    var n, home := |s|, Home(hash, key, |s|);
    var r0, r := From(s0, home), From(s, home);
    StepView(s, home, key, d);
    assert r[d] == r0[d] == s[Plus(home, d, n)];
    if r0[d].key == key {
      CopyMends(hash, s0, s, key, d);
    } else if Open(r0, key, d) && r0[d].psl > 0 {
      MoveMends(hash, s0, s, key, d);
    } else {
      RestMends(hash, s0, s, key, d);
    }
  }

  /** Where the pass gets stuck, the entry it meets stays away from home behind an empty slot. */
  lemma StepBreaks(r0: seq<Entry>, r: seq<Entry>, key: int, d: nat)
    requires |r| == |r0| && d < |r| && r[d] == r0[d] && StuckAt(r0, key, d)
    requires d > 1 && r[d - 2].Empty() && r[d - 1].Empty()
    ensures Broken(Stepped(r, d, key), d + 1)
  {
    var r' := Stepped(r, d, key);
    assert r'[d - 2].Empty() && r'[d - 1].psl > 0;
  }

  /** A wide hole is as good as a narrow one for an entry one place from home. */
  lemma NarrowHole(hash: Hash, s: seq<Entry>, before: nat, h: nat)
    requires LooseRing(hash, s, h) && before < |s| && Next(before, |s|) == h && s[before].Empty()
    requires s[Next(h, |s|)].psl <= 1
    ensures HoledRing(hash, s, h)
  {
  }

  lemma StepKeeps(hash: Hash, s0: seq<Entry>, s: seq<Entry>, key: int, d: nat)
    requires Erasing(hash, s0, s, key, d) && d + 1 < |s| && !From(s, Home(hash, key, |s|))[d].Empty()
    ensures var home := Home(hash, key, |s|);
      Erasing(hash, s0, StepOf(s, Behind(home, d, |s|), Plus(home, d, |s|), key), key, d + 1)
  {
    var home := Home(hash, key, |s|);
    var r0, r := From(s0, home), From(s, home);
    StepPasses(hash, s0, s, key, d);
    StepView(s, home, key, d);
    if StuckBefore(r0, key, d) {
      StaysBroken(r, key, d);
    } else if StuckAt(r0, key, d) {
      StepBreaks(r0, r, key, d);
    } else {
      StepMends(hash, s0, s, key, d);
    }
    assert StuckBefore(r0, key, d + 1) <==> StuckBefore(r0, key, d) || StuckAt(r0, key, d);
  }

  /** The pass ends at an empty slot, with nothing left under the key.  The ring is intact exactly when every gap
      closed; otherwise some pair of another key is no longer found. */
  lemma EraseEnd(hash: Hash, s0: seq<Entry>, s: seq<Entry>, key: int, d: nat)
    requires Ring(hash, s0) && Erasing(hash, s0, s, key, d) && From(s, Home(hash, key, |s|))[d].Empty()
    ensures forall k, v :: Count(s, k, v) == if k == key then 0 else Count(s0, k, v)
    ensures GapsClose(hash, s0, key) <==> Ring(hash, s)
    ensures GapsClose(hash, s0, key) <==> AllFound(hash, s)
  {
    var n, home := |s|, Home(hash, key, |s|);
    var r0, r := From(s0, home), From(s, home);
    NothingLeft(hash, s0, s, key, d);
    SeenUpTo(hash, s0, key, d);
    assert GapsClose(hash, s0, key) <==> !StuckBefore(r0, key, d);
    var hole := Plus(home, d, n);
    if StuckBefore(r0, key, d) {
      LeftBehind(hash, s, home, d);
    } else {
      if Open(r0, key, d) {
        CloseHole(hash, s, Plus(home, d - 1, n));
      }
      forall k, v
        ensures Seen(hash, s, k, v) == Count(s, k, v)
      {
        RingSeesAll(hash, s, hole, k, v);
      }
    }
  }

  lemma LeftBehind(hash: Hash, s: seq<Entry>, home: nat, d: nat)
    requires Distances(hash, s) && home < |s| && d < |s| && Broken(From(s, home), d)
    ensures !Ring(hash, s) && !AllFound(hash, s)
  {
    var n, r := |s|, From(s, home);
    var w: nat :| w + 1 < d - 1 && r[w].Empty() && r[w + 1].psl > 0;
    var h := Plus(home, w, n);
    assert Next(h, n) == Plus(home, w + 1, n) && s[h] == r[w] && s[Next(h, n)] == r[w + 1];
    HiddenEntry(hash, s, h);
  }

  lemma NoCopyBeyond(hash: Hash, s: seq<Entry>, key: int, d: nat, i: nat)
    requires Ring(hash, s) && d <= i < |s| && From(s, Home(hash, key, |s|))[d].Empty()
    ensures var e := From(s, Home(hash, key, |s|))[i]; e.Empty() || e.key != key
  {
    var e := From(s, Home(hash, key, |s|))[i];
    if !e.Empty() && e.key == key {
      NoHoleBefore(hash, s, key, i, i - d);
    }
  }

  lemma NothingLeft(hash: Hash, s0: seq<Entry>, s: seq<Entry>, key: int, d: nat)
    requires Ring(hash, s0) && Passed(hash, s0, s, key, d) && From(s, Home(hash, key, |s|))[d].Empty()
    ensures forall v :: Count(s, key, v) == 0
  {
    var home := Home(hash, key, |s|);
    var r0, r := From(s0, home), From(s, home);
    forall i: nat | d <= i < |s|
      ensures r0[i].Empty() || r0[i].key != key
    {
      NoCopyBeyond(hash, s0, key, d, i);
    }
    forall v
      ensures Count(s, key, v) == 0
    {
      CountNone(r, key, v);
      FromCount(s, home, key, v);
    }
  }

  class Table {
    const hash: Hash
    var entries: array<Entry>
    var targetSize: nat
    var size: nat

    /** Between operations there are at least two slots more than the target, and at most one entry more. */
    ghost predicate Valid()
      reads this, entries
    {
      && Ring(hash, entries[..]) && size == Used(entries[..])
      && size <= targetSize + 1 && targetSize + 2 <= entries.Length
    }

    /** How often the pair is stored. */
    ghost function Stored(key: int, value: int): nat
      reads this, entries
    {
      Count(entries[..], key, value)
    }

    /** A table five times as large as the number of entries it is meant for: the load factor is 0.2. */
    constructor Allocate(hash: Hash, capacity: nat)
      ensures fresh(entries) && this.hash == hash && targetSize == capacity && size == 0
      ensures entries.Length == 5 * capacity && (capacity > 0 ==> Valid())
      ensures forall i :: 0 <= i < entries.Length ==> entries[i] == EMPTY
      ensures forall k, v :: Stored(k, v) == 0
    {
      this.hash := hash;
      var slots := new Entry[5 * capacity](_ => EMPTY);
      entries, targetSize, size := slots, capacity, 0;
      new;
      forall k, v
        ensures Count(entries[..], k, v) == 0
      {
        AllEmpty(entries[..], k, v);
      }
      AllEmpty(entries[..], 0, 0);
    }

    /** The probe loop of jh_put: an entry closer to home gives way to the one in hand. */
    method Insert(key: int, value: int)
      requires Ring(hash, entries[..]) && Used(entries[..]) < entries.Length
      modifies entries
      ensures Ring(hash, entries[..]) && Used(entries[..]) == old(Used(entries[..])) + 1
      ensures forall k, v :: Stored(k, v) == old(Stored(k, v)) + if k == key && v == value then 1 else 0
      ensures entries[..] == AfterPut(hash, old(entries[..]), key, value)
    {
      ghost var s0, left := entries[..], entries.Length;
      ghost var hole := HoleExists(s0);
      PutKeeps(hash, s0, hole, key, value);
      var current: nat, toInsert := Home(hash, key, entries.Length), Entry(0, key, value);
      while !entries[current].Empty()
        invariant current < entries.Length && entries[hole].Empty() && left > Ahead(current, hole, |s0|)
        invariant Settled(entries[..], current, toInsert, left) == AfterPut(hash, s0, key, value)
        decreases left
      {
        Nearer(current, hole, entries.Length);
        current, toInsert := ProbeRound(current, toInsert, left);
        left := left - 1;
      }
      ghost var s := entries[..];
      entries[current] := toInsert;
      assert entries[..] == s[current := toInsert];
    }

    /** One round of the probe loop: the entry closer to home is taken in hand, for the next slot. */
    method ProbeRound(current: nat, toInsert: Entry, ghost left: nat) returns (next: nat, hand: Entry)
      requires current < entries.Length && !entries[current].Empty() && left > 0
      modifies entries
      ensures next == Next(current, entries.Length)
      ensures forall i :: 0 <= i < entries.Length && i != current ==> entries[i] == old(entries[i])
      ensures Settled(entries[..], next, hand, left - 1) == Settled(old(entries[..]), current, toInsert, left)
    {
      ghost var s := entries[..];
      hand := toInsert;
      if toInsert.psl > entries[current].psl {
        hand, entries[current] := entries[current], toInsert;
        assert entries[..] == s[current := toInsert];
      }
      hand := hand.(psl := hand.psl + 1);
      next := Next(current, entries.Length);
    }

    /** jh_put: inserts, and grows the table when it held more than its target before. */
    method Put(key: int, value: int)
      requires Valid()
      modifies this, entries
      ensures Valid() && (entries == old(entries) || fresh(entries))
      ensures size == old(size) + 1
      ensures old(size) <= old(targetSize) ==>
        targetSize == old(targetSize) && entries == old(entries) &&
        entries[..] == AfterPut(hash, old(entries[..]), key, value)
      ensures old(size) > old(targetSize) ==>
        targetSize == 2 * old(entries.Length) && entries.Length == 10 * old(entries.Length)
      ensures forall k, v :: Stored(k, v) == old(Stored(k, v)) + if k == key && v == value then 1 else 0
      decreases if size > targetSize then 1 else 0, 1
    {
      Insert(key, value);
      size := size + 1;
      if size - 1 > targetSize {
        Reallocate(entries.Length * 2);
      }
    }

    /** jh_reallocate: puts every stored entry into a larger table and takes that table over. */
    method Reallocate(capacity: nat)
      requires entries.Length > 0 && size == Used(entries[..]) <= capacity && capacity > 0
      modifies this
      ensures Valid() && fresh(entries) && size == old(size)
      ensures targetSize == capacity && entries.Length == 5 * capacity
      ensures forall k, v :: Stored(k, v) == old(Stored(k, v))
      decreases 1, 0
    {
      var larger := new Table.Allocate(hash, capacity);
      var old_entries := entries;
      ghost var s := old_entries[..];
      for i := 0 to old_entries.Length
        invariant entries == old_entries == old(entries) && size == Used(s) <= capacity == larger.targetSize
        invariant old_entries[..] == s
        invariant fresh(larger) && fresh(larger.entries) && larger.Valid() && larger.hash == hash
        invariant larger.size == Used(s[..i]) && larger.entries.Length == 5 * capacity
        invariant forall k, v :: larger.Stored(k, v) == Count(s[..i], k, v)
      {
        assert s[..i + 1][..i] == s[..i];
        UsedPrefix(s, i + 1);
        if !old_entries[i].Empty() {
          larger.Put(old_entries[i].key, old_entries[i].value);
        }
      }
      assert s[..|s|] == s;
      entries, targetSize, size := larger.entries, larger.targetSize, larger.size;
    }

    /** jh_fast_get: clears the result and collects the values found before the first empty slot.  In a valid table
        these are all values stored under the key. */
    method FastGet(key: int) returns (out: seq<int>)
      requires Used(entries[..]) < entries.Length
      ensures forall v :: multiset(out)[v] == Found(key, v)
      ensures Valid() ==> forall v :: multiset(out)[v] == Stored(key, v)
    {
      out := [];
      ghost var s, d := entries[..], 0;
      ghost var hole := HoleExists(s);
      var current := Home(hash, key, entries.Length);
      ghost var home := current;
      ghost var r := From(s, home);
      assert r[Ahead(home, hole, |s|)].Empty();
      while !entries[current].Empty()
        invariant 0 <= d <= Ahead(home, hole, |s|) && current == Plus(home, d, |s|)
        invariant Collected(out, r[..d], key) && forall i :: 0 <= i < d ==> !r[i].Empty()
        decreases |s| - d
      {
        assert r[d] == entries[current];
        Collect(out, r, d, key);
        if entries[current].key == key {
          out := out + [entries[current].value];
        }
        current, d := Next(current, entries.Length), d + 1;
      }
      SeenUpTo(hash, s, key, d);
      if Valid() {
        RingSeesKey(hash, s, hole, key);
      }
    }

    /** How often a probe for the key meets the pair. */
    ghost function Found(key: int, value: int): nat
      reads this, entries
      requires entries.Length > 0
    {
      Seen(hash, entries[..], key, value)
    }

    /** jh_erase: every copy of the key is removed and no other pair is lost.  One pass leaves a valid table, and every
        other key's values where a probe finds them, exactly when every gap closes. */
    method Erase(key: int)
      requires Valid()
      modifies entries, `size
      ensures size == Used(entries[..]) < entries.Length
      ensures forall k, v :: Stored(k, v) == if k == key then 0 else old(Stored(k, v))
      ensures Valid() <==> old(GapsClose(hash, entries[..], key))
      ensures AllFound(hash, entries[..]) <==> old(GapsClose(hash, entries[..], key))
    {
      ErasePass(key);
    }

    /** The loop: from the key's home to the first empty slot. */
    method ErasePass(key: int)
      requires Ring(hash, entries[..]) && size == Used(entries[..]) < entries.Length && entries.Length > 1
      modifies entries, `size
      ensures size == Used(entries[..]) <= old(size)
      ensures forall k, v :: Stored(k, v) == if k == key then 0 else old(Stored(k, v))
      ensures Ring(hash, entries[..]) <==> old(GapsClose(hash, entries[..], key))
      ensures AllFound(hash, entries[..]) <==> old(GapsClose(hash, entries[..], key))
    {
      ghost var s0 := entries[..];
      ghost var distance := DistanceToHole(hash, s0, key);
      ghost var d: nat := 0;
      EraseStart(hash, s0, key);
      var current := Home(hash, key, entries.Length);
      var prev: int := -1;
      while !entries[current].Empty()
        invariant Erasing(hash, s0, entries[..], key, d) && d <= distance
        invariant current == Plus(Home(hash, key, |s0|), d, |s0|) && prev == Behind(Home(hash, key, |s0|), d, |s0|)
        invariant size == Used(entries[..]) <= Used(s0)
        decreases |s0| - d
      {
        EraseRound(key, prev, current, s0, d, distance);
        d, prev, current := d + 1, current, Next(current, entries.Length);
      }
      EraseEnd(hash, s0, entries[..], key, d);
    }

    /** One round of the pass, and what it keeps. */
    method EraseRound(key: int, prev: int, current: nat, ghost s0: seq<Entry>, ghost d: nat, ghost distance: nat)
      requires Erasing(hash, s0, entries[..], key, d) && d <= distance < |s0|
      requires From(s0, Home(hash, key, |s0|))[distance].Empty()
      requires current == Plus(Home(hash, key, |s0|), d, |s0|) && prev == Behind(Home(hash, key, |s0|), d, |s0|)
      requires !entries[current].Empty() && size == Used(entries[..])
      modifies entries, `size
      ensures Erasing(hash, s0, entries[..], key, d + 1) && d < distance
      ensures size == Used(entries[..]) <= old(size)
    {
      StepKeeps(hash, s0, entries[..], key, d);
      EraseStep(key, prev, current);
    }

    /** The body of the pass at one slot. */
    method EraseStep(key: int, prev: int, current: nat)
      requires current < entries.Length && -1 <= prev < entries.Length && prev != current
      requires !entries[current].Empty() && size == Used(entries[..])
      modifies entries, `size
      ensures entries[..] == StepOf(old(entries[..]), prev, current, key)
      ensures size == Used(entries[..]) <= old(size)
    {
      ghost var s := entries[..];
      if entries[current].key == key {
        UsedUpdate(s, current, s[current].(psl := REMOVED));
        size := size - 1;
        entries[current] := entries[current].(psl := REMOVED);
      }
      ghost var s1 := entries[..];
      assert s1 == Marked(s, current, key);
      if prev != -1 && entries[prev].psl == -1 && entries[current].psl > 0 {
        ShiftBackCounts(s1, prev, current, 0, 0);
        entries[current] := entries[current].(psl := entries[current].psl - 1);
        entries[prev] := entries[current];
        entries[current] := entries[current].(psl := REMOVED);
        assert entries[..] == ShiftedBack(s1, prev, current);
      }
    }
  }

  /** The values are those of the first entries of a probe that have the key. */
  ghost predicate Collected(out: seq<int>, r: seq<Entry>, key: int) {
    forall v :: multiset(out)[v] == Count(r, key, v)
  }

  lemma Collect(out: seq<int>, r: seq<Entry>, d: nat, key: int)
    requires d < |r| && !r[d].Empty() && Collected(out, r[..d], key)
    ensures r[d].key == key ==> Collected(out + [r[d].value], r[..d + 1], key)
    ensures r[d].key != key ==> Collected(out, r[..d + 1], key)
  {
    assert r[..d + 1][..d] == r[..d];
  }

  lemma {:induction false} UsedPrefix(s: seq<Entry>, i: nat)
    requires i <= |s|
    ensures Used(s[..i]) <= Used(s)
    decreases |s| - i
  {
    if i < |s| {
      UsedPrefix(s, i + 1);
      assert s[..i + 1][..i] == s[..i];
    } else {
      assert s[..i] == s;
    }
  }
}
