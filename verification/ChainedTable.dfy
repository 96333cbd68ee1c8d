/** The chained multimap behind grace_hash_join. */
module ChainedTable {
  import opened Hashing
  import opened Rows

  /** Every row is in the bucket its key hashes to. */
  ghost predicate Hashed(hash: Hash, buckets: seq<seq<Row>>) {
    forall b :: 0 <= b < |buckets| ==> InBucket(hash, buckets[b], b, |buckets|)
  }

  ghost predicate InBucket(hash: Hash, bucket: seq<Row>, b: nat, n: nat)
    requires b < n
  {
    forall i :: 0 <= i < |bucket| ==> Home(hash, bucket[i].0, n) == b
  }

  class Table {
    const hash: Hash
    var buckets: array<seq<Row>>
    var targetSize: nat
    var size: nat

    ghost predicate Valid()
      reads this, buckets
    {
      Hashed(hash, buckets[..])
    }

    /** The values stored under a key, oldest first. */
    ghost function Lookup(key: int): seq<int>
      reads this, buckets
      requires buckets.Length > 0
    {
      LookupIn(hash, buckets[..], key)
    }

    constructor Allocate(hash: Hash, capacity: nat, scale: bool)
      ensures Valid() && fresh(buckets) && this.hash == hash && size == 0 && targetSize == capacity
      ensures buckets.Length == (if scale then 5 * capacity else capacity)
      ensures forall b :: 0 <= b < buckets.Length ==> buckets[b] == []
    {
      this.hash := hash;
      var slots := new seq<Row>[if scale then 5 * capacity else capacity](_ => []);
      buckets, targetSize, size := slots, capacity, 0;
    }

    /** Appends at the tail of the bucket's chain. */
    method Append(key: int, value: int)
      requires Valid() && buckets.Length > 0
      modifies buckets
      ensures Valid()
      ensures var b := Home(hash, key, buckets.Length);
        buckets[..] == old(buckets[..])[b := old(buckets[b]) + [(key, value)]]
      ensures forall k :: Lookup(k) == old(Lookup(k)) + if k == key then [value] else []
    {
      var b := Home(hash, key, buckets.Length);
      ghost var chain := buckets[b];
      buckets[b] := buckets[b] + [(key, value)];
      assert buckets[b][..|chain|] == chain;
    }

    method Put(key: int, value: int)
      requires Valid() && buckets.Length > 0
      modifies this, buckets
      ensures Valid() && buckets.Length > 0 && (buckets == old(buckets) || fresh(buckets)) && size == old(size) + 1
      ensures forall k :: Lookup(k) == old(Lookup(k)) + if k == key then [value] else []
      ensures old(size) <= old(targetSize) ==> buckets == old(buckets) && targetSize == old(targetSize)
      ensures old(size) > old(targetSize) ==>
        buckets.Length == 2 * old(buckets.Length) && targetSize == 20 * old(buckets.Length) / 9 + 1
      ensures old(size) <= old(targetSize) ==>
        (var b := Home(hash, key, buckets.Length);
         buckets[..] == old(buckets[..])[b := old(buckets[b]) + [(key, value)]])
    {
      Append(key, value);
      size := size + 1;
      if size - 1 > targetSize {
        Reallocate(buckets.Length * 2);
      }
    }

    /** Moves every chain, node by node, into a new array of buckets. */
    method Reallocate(capacity: nat)
      requires Valid() && 0 < buckets.Length <= capacity
      modifies this
      ensures Valid() && fresh(buckets) && buckets.Length == capacity && size == old(size)
      ensures targetSize == capacity * 10 / 9 + 1
      ensures forall k :: Lookup(k) == old(Lookup(k))
    {
      ghost var rows := buckets[..];
      var larger := new Table.Allocate(hash, capacity, false);
      MoveAll(larger, buckets);
      assert buckets[..] == rows;
      buckets, targetSize := larger.buckets, capacity * 10 / 9 + 1;
    }

    /** The outer loop: one chain after the other. */
    static method MoveAll(larger: Table, was: array<seq<Row>>)
      requires larger.Valid() && larger.buckets.Length > 0 && larger.buckets != was && was.Length > 0
      requires Hashed(larger.hash, was[..]) && forall b :: 0 <= b < larger.buckets.Length ==> larger.buckets[b] == []
      modifies larger.buckets
      ensures larger.Valid()
      ensures forall k :: larger.Lookup(k) == LookupIn(larger.hash, was[..], k)
    {
      for i := 0 to was.Length
        invariant larger.Valid()
        invariant forall k :: LookupIn(larger.hash, larger.buckets[..], k) == MovedSoFar(larger.hash, was[..], i, k)
      {
        ghost var before := larger.buckets[..];
        Move(larger, was[i]);
        forall k
          ensures LookupIn(larger.hash, larger.buckets[..], k) == MovedSoFar(larger.hash, was[..], i + 1, k)
        {
          AppendedLookup(larger.hash, before, was[i], k);
          MovesOne(larger.hash, was[..], i, k);
        }
      }
    }

    /** The inner loop: one chain is appended to the larger table. */
    static method Move(larger: Table, chain: seq<Row>)
      requires larger.Valid() && larger.buckets.Length > 0
      modifies larger.buckets
      ensures larger.Valid() && larger.buckets[..] == Appended(larger.hash, old(larger.buckets[..]), chain)
    {
      for j := 0 to |chain|
        invariant larger.Valid()
        invariant larger.buckets[..] == Appended(larger.hash, old(larger.buckets[..]), chain[..j])
      {
        larger.Append(chain[j].0, chain[j].1);
        assert chain[..j + 1][..j] == chain[..j];
      }
      assert chain[..|chain|] == chain;
    }

    method FastGet(key: int) returns (out: seq<int>)
      requires Valid() && buckets.Length > 0
      ensures out == Lookup(key)
    {
      out := [];
      var chain := buckets[Home(hash, key, buckets.Length)];
      for i := 0 to |chain|
        invariant out == ValuesOf(chain[..i], key)
      {
        assert chain[..i + 1][..i] == chain[..i];
        if chain[i].0 == key {
          out := out + [chain[i].1];
        }
      }
      assert chain[..|chain|] == chain;
    }
  }

  /** The values under a key, in the buckets as a value. */
  ghost function LookupIn(hash: Hash, buckets: seq<seq<Row>>, key: int): seq<int>
    requires |buckets| > 0
  {
    ValuesOf(buckets[Home(hash, key, |buckets|)], key)
  }

  /** The buckets after appending these rows, one by one. */
  ghost function Appended(hash: Hash, buckets: seq<seq<Row>>, rows: seq<Row>): (r: seq<seq<Row>>)
    requires |buckets| > 0
    ensures |r| == |buckets|
    decreases |rows|
  {
    if rows == [] then buckets
    else
      var before, row := Appended(hash, buckets, rows[..|rows| - 1]), rows[|rows| - 1];
      var b := Home(hash, row.0, |buckets|);
      before[b := before[b] + [row]]
  }

  lemma {:induction false} AppendedLookup(hash: Hash, buckets: seq<seq<Row>>, rows: seq<Row>, key: int)
    requires |buckets| > 0
    ensures LookupIn(hash, Appended(hash, buckets, rows), key) == LookupIn(hash, buckets, key) + ValuesOf(rows, key)
    decreases |rows|
  {
    if rows != [] {
      var rest, row := rows[..|rows| - 1], rows[|rows| - 1];
      AppendedLookup(hash, buckets, rest, key);
      var before := Appended(hash, buckets, rest);
      var b := Home(hash, row.0, |buckets|);
      assert (before[b] + [row])[..|before[b]|] == before[b];
    }
  }

  /** The values under a key in the chains already moved. */
  ghost function MovedSoFar(hash: Hash, was: seq<seq<Row>>, i: nat, key: int): seq<int>
    requires i <= |was| && |was| > 0
  {
    if Home(hash, key, |was|) < i then LookupIn(hash, was, key) else []
  }

  lemma MovesOne(hash: Hash, was: seq<seq<Row>>, i: nat, key: int)
    requires i < |was| && Hashed(hash, was)
    ensures MovedSoFar(hash, was, i + 1, key) == MovedSoFar(hash, was, i, key) + ValuesOf(was[i], key)
  {
    if Home(hash, key, |was|) != i {
      NoneElsewhere(hash, was[i], i, |was|, key);
    }
  }

  lemma {:induction false} NoneElsewhere(hash: Hash, chain: seq<Row>, b: nat, n: nat, key: int)
    requires b < n && InBucket(hash, chain, b, n) && Home(hash, key, n) != b
    ensures ValuesOf(chain, key) == []
  {
    if chain != [] {
      NoneElsewhere(hash, chain[..|chain| - 1], b, n, key);
    }
  }
}
