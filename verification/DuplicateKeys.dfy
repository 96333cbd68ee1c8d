/** Erasing a key that is stored twice: a run, with the repository's own hash function, after which a lookup of another
    key fails. */
module DuplicateKeys {
  import opened Hashing
  import opened RobinHood

  function TenEmpty(): seq<Entry> {
    [EMPTY, EMPTY, EMPTY, EMPTY, EMPTY, EMPTY, EMPTY, EMPTY, EMPTY, EMPTY]
  }

  /** Ten slots that hold key 1 twice and then key 4, which has the same home. */
  function OneOneFour(): seq<Entry> {
    [EMPTY, EMPTY, EMPTY, EMPTY, EMPTY, Entry(0, 1, 10), Entry(1, 1, 11), Entry(2, 4, 30), EMPTY, EMPTY]
  }

  lemma ThreePuts()
    ensures AfterPut(HashInt, AfterPut(HashInt, AfterPut(HashInt, TenEmpty(), 1, 10), 1, 11), 4, 30) == OneOneFour()
  {
    OneMeetsFour();
    var s1 := TenEmpty()[5 := Entry(0, 1, 10)];
    var s2 := s1[6 := Entry(1, 1, 11)];
    var n: nat := 10;
    assert AfterPut(HashInt, TenEmpty(), 1, 10) == s1;
    assert Settled(s1, 6, Entry(1, 1, 11), n - 1) == s2;
    assert AfterPut(HashInt, s1, 1, 11) == s2;
    assert Settled(s2, 7, Entry(2, 4, 30), n - 2) == OneOneFour();
    assert Settled(s2, 6, Entry(1, 4, 30), n - 1) == OneOneFour();
    assert AfterPut(HashInt, s2, 4, 30) == OneOneFour();
  }

  /** There the gap left by the two copies does not close. */
  lemma GapStaysOpen()
    ensures !GapsClose(HashInt, OneOneFour(), 1)
  {
    OneMeetsFour();
    var s := OneOneFour();
    var r := From(s, 5);
    assert r[0] == s[5] && r[1] == s[6] && r[2] == s[7];
    assert Open(r, 1, 1);
    assert StuckAt(r, 1, 2);
    assert HoleAt(r, 0) > 2;
  }

  /** A table for two entries, of ten slots: after putting key 1 twice and key 4 once, one pass does not erase key 1
      cleanly. */
  lemma DuplicatesBreakTheRing(s: seq<Entry>)
    requires |s| == 10 && forall i :: 0 <= i < |s| ==> s[i] == EMPTY
    ensures !GapsClose(HashInt, AfterPut(HashInt, AfterPut(HashInt, AfterPut(HashInt, s, 1, 10), 1, 11), 4, 30), 1)
  {
    assert s == TenEmpty();
    ThreePuts();
    GapStaysOpen();
  }

  lemma SeenAreStored(hash: Hash, s: seq<Entry>, key: int, value: int)
    requires |s| > 0
    ensures Seen(hash, s, key, value) <= Count(s, key, value)
  {
    var home := Home(hash, key, |s|);
    var r := From(s, home);
    PrefixCount(r, HoleAt(r, 0), key, value);
    FromCount(s, home, key, value);
  }

  lemma PrefixCount(r: seq<Entry>, d: nat, key: int, value: int)
    requires d <= |r|
    ensures Count(r[..d], key, value) <= Count(r, key, value)
  {
    CountAppend(r[..d], r[d..], key, value);
    assert r[..d] + r[d..] == r;
  }

  ghost predicate OnlyPair(s: seq<Entry>, key: int, value: int) {
    forall k, u :: Count(s, k, u) == if k == key && u == value then 1 else 0
  }

  /** If only one pair is stored and something is not found, then it is that pair. */
  lemma OnePairHidden(hash: Hash, s: seq<Entry>, key: int, value: int, v: int)
    requires |s| > 0 && !AllFound(hash, s)
    requires OnlyPair(s, key, value)
    ensures Seen(hash, s, key, v) == 0
  {
    var k, u :| Seen(hash, s, k, u) != Count(s, k, u);
    SeenAreStored(hash, s, k, u);
    SeenAreStored(hash, s, key, v);
  }

  function Pairs(k: int, v: int): nat {
    if (k == 1 && (v == 10 || v == 11)) || (k == 4 && v == 30) then 1 else 0
  }

  method PutOneOneFour(table: Table)
    requires table.Valid() && table.targetSize == 2 && table.size == 0
    requires forall k, v :: table.Stored(k, v) == 0
    modifies table, table.entries
    ensures table.Valid() && table.entries == old(table.entries)
    ensures forall k, v :: table.Stored(k, v) == Pairs(k, v)
    ensures table.entries[..] == AfterPut(table.hash, AfterPut(table.hash,
                                   AfterPut(table.hash, old(table.entries[..]), 1, 10), 1, 11), 4, 30)
  {
    table.Put(1, 10);
    table.Put(1, 11);
    table.Put(4, 30);
  }

  method LookUpFour(table: Table) returns (values: seq<int>)
    requires table.Valid() && forall k, v :: table.Stored(k, v) == Pairs(k, v)
    ensures values == [30]
  {
    values := table.FastGet(4);
    Singleton(values, 30);
  }

  method LookUpHidden(table: Table) returns (values: seq<int>)
    requires Used(table.entries[..]) < table.entries.Length && !AllFound(table.hash, table.entries[..])
    requires OnlyPair(table.entries[..], 4, 30)
    ensures values == []
  {
    values := table.FastGet(4);
    forall v
      ensures multiset(values)[v] == 0
    {
      OnePairHidden(table.hash, table.entries[..], 4, 30, v);
    }
    Nothing(values);
  }

  /** Looking up key 4, erasing key 1, and looking up key 4 again. */
  method EraseOne(table: Table) returns (before: seq<int>, after: seq<int>)
    requires table.Valid() && !GapsClose(table.hash, table.entries[..], 1)
    requires forall k, v :: table.Stored(k, v) == Pairs(k, v)
    modifies table, table.entries
    ensures before == [30] && after == []
  {
    before := LookUpFour(table);
    table.Erase(1);
    forall k, v
      ensures Count(table.entries[..], k, v) == if k == 4 && v == 30 then 1 else 0
    {
      assert table.Stored(k, v) == Count(table.entries[..], k, v);
    }
    after := LookUpHidden(table);
  }

  /** With hash_int and a table for two entries, erasing key 1, which is stored twice, hides what is stored under
      key 4. */
  method ErasingADuplicateHidesAnother() returns (before: seq<int>, after: seq<int>)
    ensures before == [30] && after == []
  {
    var table := new Table.Allocate(HashInt, 2);
    ghost var s := table.entries[..];
    PutOneOneFour(table);
    DuplicatesBreakTheRing(s);
    before, after := EraseOne(table);
  }

  lemma Singleton(xs: seq<int>, x: int)
    requires forall v :: multiset(xs)[v] == if v == x then 1 else 0
    ensures xs == [x]
  {
    assert multiset(xs)[x] == 1;
    var y := xs[0];
    assert multiset(xs)[y] > 0;
    assert xs == [y] + xs[1..];
    forall v
      ensures multiset(xs[1..])[v] == 0
    {
      assert multiset(xs)[v] == multiset([y])[v] + multiset(xs[1..])[v];
    }
    Nothing(xs[1..]);
  }

  lemma Nothing(xs: seq<int>)
    requires forall v :: multiset(xs)[v] == 0
    ensures xs == []
  {
    var x := if xs == [] then 0 else xs[0];
    assert multiset(xs)[x] == 0;
  }
}
