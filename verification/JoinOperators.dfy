/** nested_loop_join, hash_join and grace_hash_join. */
module JoinOperators {
  import opened Hashing
  import opened Rows
  import opened Sequences
  import opened Vectors
  import RobinHood
  import ChainedTable

  /** Where a join leaves its pairs; the operators may exchange the two references. */
  class JoinResult {
    var first: IndexVector
    var second: IndexVector

    constructor (first: IndexVector, second: IndexVector)
      ensures this.first == first && this.second == second
    {
      this.first, this.second := first, second;
    }

    method Swap()
      modifies this
      ensures first == old(second) && second == old(first)
    {
      first, second := second, first;
    }
  }

  /** From columns f, s to columns f', s' the result has grown by exactly the pairs of the join. */
  ghost predicate Gained(f: seq<int>, s: seq<int>, f': seq<int>, s': seq<int>, left: seq<Row>, right: seq<Row>) {
    && |f| == |s| && |f'| == |s'|
    && forall x, y :: PairCount(f', s', x, y) == PairCount(f, s, x, y) + JoinCount(left, right, x, y)
  }

  /** The same by indexes: x stands beside y as often more as there are a value on the left that was fetched from
      position x and an equal value on the right that was fetched from position y. */
  ghost predicate GainedPairs(f: seq<int>, s: seq<int>, f': seq<int>, s': seq<int>,
                              fetch1: seq<int>, selection1: seq<int>, fetch2: seq<int>, selection2: seq<int>)
    requires |fetch1| == |selection1| && |fetch2| == |selection2|
  {
    && |f| == |s| && |f'| == |s'|
    && forall x, y {:trigger Places(f', s', x, y)} ::
         |Places(f', s', x, y)|
           == |Places(f, s, x, y)| + |JoinedPairs(fetch1, selection1, fetch2, selection2, x, y)|
  }

  lemma GainedMeans(f: seq<int>, s: seq<int>, f': seq<int>, s': seq<int>,
                    fetch1: seq<int>, selection1: seq<int>, fetch2: seq<int>, selection2: seq<int>)
    requires |fetch1| == |selection1| && |fetch2| == |selection2|
    requires Gained(f, s, f', s', Zip(fetch1, selection1), Zip(fetch2, selection2))
    ensures GainedPairs(f, s, f', s', fetch1, selection1, fetch2, selection2)
  {
    forall x, y
      ensures |Places(f', s', x, y)|
           == |Places(f, s, x, y)| + |JoinedPairs(fetch1, selection1, fetch2, selection2, x, y)|
    {
      PairCountIs(f', s', x, y);
      PairCountIs(f, s, x, y);
      JoinCountIs(Zip(fetch1, selection1), Zip(fetch2, selection2), x, y);
      JoinedPairsOfRows(fetch1, selection1, fetch2, selection2, x, y);
    }
  }

  lemma GainedMirror(f: seq<int>, s: seq<int>, f': seq<int>, s': seq<int>, left: seq<Row>, right: seq<Row>)
    requires Gained(f, s, f', s', left, right)
    ensures Gained(s, f, s', f', right, left)
  {
    forall x, y
      ensures PairCount(s', f', x, y) == PairCount(s, f, x, y) + JoinCount(right, left, x, y)
    {
      PairMirror(f', s', y, x);
      PairMirror(f, s, y, x);
      JoinCountMirror(left, right, y, x);
    }
  }

  /** The result has grown by the pairs of one left row at `position`, counted by `hits`. */
  ghost predicate GainedRow(f: seq<int>, s: seq<int>, f': seq<int>, s': seq<int>, position: int, key: int,
                            right: seq<Row>) {
    && |f| == |s| && |f'| == |s'|
    && forall x, y ::
         PairCount(f', s', x, y) == PairCount(f, s, x, y) + if position == x then Matches(right, key, y) else 0
  }

  lemma GainMore(f: seq<int>, s: seq<int>, f': seq<int>, s': seq<int>, f'': seq<int>, s'': seq<int>,
                 left: seq<Row>, r: Row, right: seq<Row>)
    requires Gained(f, s, f', s', left, right) && GainedRow(f', s', f'', s'', r.1, r.0, right)
    ensures Gained(f, s, f'', s'', left + [r], right)
  {
    assert (left + [r])[..|left|] == left;
  }

  lemma GainRowMore(f: seq<int>, s: seq<int>, f': seq<int>, s': seq<int>, position: int, key: int, right: seq<Row>,
                    q: Row)
    requires GainedRow(f, s, f', s', position, key, right)
    ensures q.0 == key ==> GainedRow(f, s, f' + [position], s' + [q.1], position, key, right + [q])
    ensures q.0 != key ==> GainedRow(f, s, f', s', position, key, right + [q])
  {
    assert (right + [q])[..|right|] == right;
    forall x, y
      ensures PairCount(f' + [position], s' + [q.1], x, y)
           == PairCount(f', s', x, y) + if position == x && q.1 == y then 1 else 0
    {
      PairPush(f', s', position, q.1, x, y);
    }
  }

  lemma ZipPrefix(keys: seq<int>, positions: seq<int>, i: nat)
    requires |keys| == |positions| && i < |keys|
    ensures Zip(keys, positions)[..i + 1] == Zip(keys, positions)[..i] + [(keys[i], positions[i])]
  {
  }

  lemma NothingMatches(key: int)
    ensures forall y :: Matches([], key, y) == 0
  {
    assert ValuesOf([], key) == [];
  }

  // ----- nested loops -----

  /** One row of the outer loop. */
  method InnerLoop(key: int, position: int, fetch: seq<int>, selection: seq<int>, first: IndexVector,
                   second: IndexVector)
    requires |fetch| == |selection| && first != second && |first.data| == |second.data|
    modifies first, second
    ensures GainedRow(old(first.data), old(second.data), first.data, second.data, position, key, Zip(fetch, selection))
  {
    ghost var rows := Zip(fetch, selection);
    NothingMatches(key);
    assert rows[..0] == [];
    for j := 0 to |selection|
      invariant GainedRow(old(first.data), old(second.data), first.data, second.data, position, key, rows[..j])
    {
      ZipPrefix(fetch, selection, j);
      GainRowMore(old(first.data), old(second.data), first.data, second.data, position, key, rows[..j], rows[j]);
      if key == fetch[j] {
        first.Push(position);
        second.Push(selection[j]);
      }
    }
    assert rows[..|rows|] == rows;
  }

  method NestedLoops(fetch1: seq<int>, selection1: seq<int>, fetch2: seq<int>, selection2: seq<int>,
                     first: IndexVector, second: IndexVector)
    requires |fetch1| == |selection1| && |fetch2| == |selection2| && first != second && |first.data| == |second.data|
    modifies first, second
    ensures Gained(old(first.data), old(second.data), first.data, second.data,
                   Zip(fetch1, selection1), Zip(fetch2, selection2))
  {
    ghost var left, right := Zip(fetch1, selection1), Zip(fetch2, selection2);
    for i := 0 to |selection1|
      invariant Gained(old(first.data), old(second.data), first.data, second.data, left[..i], right)
    {
      ghost var f, s := first.data, second.data;
      InnerLoop(fetch1[i], selection1[i], fetch2, selection2, first, second);
      ZipPrefix(fetch1, selection1, i);
      GainMore(old(first.data), old(second.data), f, s, first.data, second.data, left[..i], left[i], right);
    }
    assert left[..|left|] == left;
  }

  method NestedLoopJoin(fetch1: seq<int>, selection1: seq<int>, fetch2: seq<int>, selection2: seq<int>, res: JoinResult)
    requires |fetch1| == |selection1| && |fetch2| == |selection2|
    requires res.first != res.second && |res.first.data| == |res.second.data|
    modifies res, res.first, res.second
    ensures var a, b := old(res.first), old(res.second);
      Gained(old(a.data), old(b.data), a.data, b.data, Zip(fetch1, selection1), Zip(fetch2, selection2))
      && GainedPairs(old(a.data), old(b.data), a.data, b.data, fetch1, selection1, fetch2, selection2)
  {
    ghost var a, b := res.first, res.second;
    ghost var f, s := a.data, b.data;
    if |selection1| > |selection2| {
      res.Swap();
      NestedLoops(fetch2, selection2, fetch1, selection1, res.first, res.second);
      GainedMirror(s, f, res.first.data, res.second.data, Zip(fetch2, selection2), Zip(fetch1, selection1));
    } else {
      NestedLoops(fetch1, selection1, fetch2, selection2, res.first, res.second);
    }
    GainedMeans(f, s, a.data, b.data, fetch1, selection1, fetch2, selection2);
  }

  // ----- hash join -----

  /** Pairs one probing row at position `other` with everything the table holds under its key. */
  method Probe(table: RobinHood.Table, key: int, other: int, first: IndexVector, second: IndexVector,
               ghost built: seq<Row>)
    requires Holds(table, built)
    requires first != second && |first.data| == |second.data|
    modifies first, second
    ensures GainedRow(old(second.data), old(first.data), second.data, first.data, other, key, built)
  {
    var vals := table.FastGet(key);
    for i := 0 to |vals|
      invariant Paired(old(second.data), old(first.data), second.data, first.data, other, vals[..i])
    {
      PairedMore(old(second.data), old(first.data), second.data, first.data, other, vals, i);
      first.Push(vals[i]);
      second.Push(other);
    }
    assert vals[..|vals|] == vals;
  }

  /** The result has grown by `position` paired with each of the values. */
  ghost predicate Paired(f: seq<int>, s: seq<int>, f': seq<int>, s': seq<int>, position: int, values: seq<int>) {
    && |f| == |s| && |f'| == |s'|
    && forall x, y ::
         PairCount(f', s', x, y) == PairCount(f, s, x, y) + if position == x then multiset(values)[y] else 0
  }

  lemma PairedMore(f: seq<int>, s: seq<int>, f': seq<int>, s': seq<int>, position: int, values: seq<int>, i: nat)
    requires i < |values| && Paired(f, s, f', s', position, values[..i])
    ensures Paired(f, s, f' + [position], s' + [values[i]], position, values[..i + 1])
  {
    assert values[..i + 1] == values[..i] + [values[i]];
    forall x, y
      ensures PairCount(f' + [position], s' + [values[i]], x, y)
           == PairCount(f', s', x, y) + if position == x && values[i] == y then 1 else 0
    {
      PairPush(f', s', position, values[i], x, y);
    }
  }

  /** The table answers every lookup as the rows do. */
  ghost predicate Holds(table: RobinHood.Table, rows: seq<Row>)
    reads table, table.entries
  {
    table.Valid() && forall k, v :: table.Stored(k, v) == Matches(rows, k, v)
  }

  method BuildTable(hash: Hash, fetch: seq<int>, selection: seq<int>) returns (table: RobinHood.Table)
    requires |fetch| == |selection|
    ensures fresh(table) && fresh(table.entries)
    ensures if selection == [] then table.entries.Length == 0 else Holds(table, Zip(fetch, selection))
  {
    ghost var rows := Zip(fetch, selection);
    table := new RobinHood.Table.Allocate(hash, |selection|);
    assert rows[..0] == [];
    NothingHeld();
    for i := 0 to |selection|
      invariant fresh(table) && fresh(table.entries)
      invariant if selection == [] then table.entries.Length == 0 else Holds(table, rows[..i])
    {
      ZipPrefix(fetch, selection, i);
      PutRow(table, fetch[i], selection[i], rows[..i]);
    }
    assert rows[..|rows|] == rows;
  }

  lemma NothingHeld()
    ensures forall k, v :: Matches([], k, v) == 0
  {
    forall k, v
      ensures Matches([], k, v) == 0
    {
      NothingMatches(k);
    }
  }

  method PutRow(table: RobinHood.Table, key: int, position: int, ghost rows: seq<Row>)
    requires Holds(table, rows)
    modifies table, table.entries
    ensures Holds(table, rows + [(key, position)]) && (table.entries == old(table.entries) || fresh(table.entries))
  {
    assert (rows + [(key, position)])[..|rows|] == rows;
    table.Put(key, position);
  }

  /** False stands for the division by zero of a probe of a table without slots. */
  method HashLoops(hash: Hash, fetch1: seq<int>, selection1: seq<int>, fetch2: seq<int>, selection2: seq<int>,
                   first: IndexVector, second: IndexVector) returns (ok: bool)
    requires |fetch1| == |selection1| && |fetch2| == |selection2|
    requires first != second && |first.data| == |second.data|
    modifies first, second
    ensures ok <==> (selection1 == [] ==> selection2 == [])
    ensures ok ==> Gained(old(first.data), old(second.data), first.data, second.data,
                          Zip(fetch1, selection1), Zip(fetch2, selection2))
  {
    ghost var left, right := Zip(fetch1, selection1), Zip(fetch2, selection2);
    var table := BuildTable(hash, fetch1, selection1);
    for j := 0 to |selection2|
      invariant fresh(table) && fresh(table.entries)
      invariant if selection1 == [] then table.entries.Length == 0 && j == 0 else Holds(table, left)
      invariant Gained(old(second.data), old(first.data), second.data, first.data, right[..j], left)
    {
      if table.entries.Length == 0 {
        return false;
      }
      ghost var f, s := first.data, second.data;
      Probe(table, fetch2[j], selection2[j], first, second, left);
      ZipPrefix(fetch2, selection2, j);
      GainMore(old(second.data), old(first.data), s, f, second.data, first.data, right[..j], right[j], left);
    }
    assert right[..|right|] == right;
    GainedMirror(old(second.data), old(first.data), second.data, first.data, right, left);
    return true;
  }

  /** For any hash function, hash_join adds the same pairs as nested_loop_join, unless exactly one side is empty: then
      it divides by zero. */
  method HashJoin(hash: Hash, fetch1: seq<int>, selection1: seq<int>, fetch2: seq<int>, selection2: seq<int>,
                  res: JoinResult)
    returns (ok: bool)
    requires |fetch1| == |selection1| && |fetch2| == |selection2|
    requires res.first != res.second && |res.first.data| == |res.second.data|
    modifies res, res.first, res.second
    ensures ok <==> (selection1 == [] <==> selection2 == [])
    ensures ok ==>
      var a, b := old(res.first), old(res.second);
      Gained(old(a.data), old(b.data), a.data, b.data, Zip(fetch1, selection1), Zip(fetch2, selection2))
      && GainedPairs(old(a.data), old(b.data), a.data, b.data, fetch1, selection1, fetch2, selection2)
  {
    ghost var a, b := res.first, res.second;
    ghost var f, s := a.data, b.data;
    if |selection1| > |selection2| {
      res.Swap();
      ok := HashLoops(hash, fetch2, selection2, fetch1, selection1, res.first, res.second);
      if ok {
        GainedMirror(s, f, res.first.data, res.second.data, Zip(fetch2, selection2), Zip(fetch1, selection1));
      }
    } else {
      ok := HashLoops(hash, fetch1, selection1, fetch2, selection2, res.first, res.second);
    }
    if ok {
      GainedMeans(f, s, a.data, b.data, fetch1, selection1, fetch2, selection2);
    }
  }

  // ----- grace hash join -----

  lemma {:induction false} JoinCountAppend(l: seq<Row>, m: seq<Row>, right: seq<Row>, x: int, y: int)
    ensures JoinCount(l + m, right, x, y) == JoinCount(l, right, x, y) + JoinCount(m, right, x, y)
    decreases |m|
  {
    if m == [] {
      assert l + m == l;
    } else {
      var n := |m| - 1;
      JoinCountAppend(l, m[..n], right, x, y);
      assert l + m == (l + m[..n]) + [m[n]];
      JoinCountPush(l + m[..n], m[n], right, x, y);
    }
  }

  lemma JoinCountPush(left: seq<Row>, r: Row, right: seq<Row>, x: int, y: int)
    ensures JoinCount(left + [r], right, x, y)
         == JoinCount(left, right, x, y) + if r.1 == x then Matches(right, r.0, y) else 0
  {
    assert (left + [r])[..|left|] == left;
  }

  /** A row joins with the same rows whichever bucket it is appended to. */
  lemma {:induction false} FlattenUpdate(buckets: seq<seq<Row>>, b: nat, r: Row, right: seq<Row>, x: int, y: int)
    requires b < |buckets|
    ensures JoinCount(Flatten(buckets[b := buckets[b] + [r]]), right, x, y)
         == JoinCount(Flatten(buckets), right, x, y) + if r.1 == x then Matches(right, r.0, y) else 0
  {
    var n := |buckets| - 1;
    var after := buckets[b := buckets[b] + [r]];
    JoinCountAppend(Flatten(buckets[..n]), buckets[n], right, x, y);
    JoinCountAppend(Flatten(after[..n]), after[n], right, x, y);
    if b < n {
      FlattenUpdate(buckets[..n], b, r, right, x, y);
      assert after[..n] == buckets[..n][b := buckets[b] + [r]];
    } else {
      assert after[..n] == buckets[..n];
      JoinCountPush(buckets[n], r, right, x, y);
    }
  }

  lemma {:induction false} FlattenEmpty(buckets: seq<seq<Row>>)
    requires forall b :: 0 <= b < |buckets| ==> buckets[b] == []
    ensures Flatten(buckets) == []
  {
    if buckets != [] {
      FlattenEmpty(buckets[..|buckets| - 1]);
    }
  }

  /** The table answers every lookup as the rows do, and joins with anything as the rows do. */
  ghost predicate Represents(table: ChainedTable.Table, rows: seq<Row>)
    reads table, table.buckets
  {
    && table.Valid()
    && (forall k :: table.buckets.Length > 0 ==> table.Lookup(k) == ValuesOf(rows, k))
    && JoinsAlike(table.buckets[..], rows)
  }

  /** The buckets, joined to anything, give what the rows give. */
  ghost predicate JoinsAlike(buckets: seq<seq<Row>>, rows: seq<Row>) {
    forall right, x, y :: JoinCount(Flatten(buckets), right, x, y) == JoinCount(rows, right, x, y)
  }

  lemma JoinsAlikeMore(buckets: seq<seq<Row>>, b: nat, rows: seq<Row>, r: Row)
    requires b < |buckets| && JoinsAlike(buckets, rows)
    ensures JoinsAlike(buckets[b := buckets[b] + [r]], rows + [r])
  {
    forall right, x, y
      ensures JoinCount(Flatten(buckets[b := buckets[b] + [r]]), right, x, y) == JoinCount(rows + [r], right, x, y)
    {
      FlattenUpdate(buckets, b, r, right, x, y);
      JoinCountPush(rows, r, right, x, y);
    }
  }

  /** Stores one row in a table that does not have to grow for it. */
  method StoreRow(table: ChainedTable.Table, key: int, position: int, ghost rows: seq<Row>)
    requires Represents(table, rows) && table.buckets.Length > 0 && table.size <= table.targetSize
    modifies table, table.buckets
    ensures Represents(table, rows + [(key, position)])
    ensures table.buckets == old(table.buckets) && table.size == old(table.size) + 1
    ensures table.targetSize == old(table.targetSize)
  {
    JoinsAlikeMore(table.buckets[..], Home(table.hash, key, table.buckets.Length), rows, (key, position));
    table.Put(key, position);
    assert (rows + [(key, position)])[..|rows|] == rows;
  }

  /** Fills a chained table that is large enough never to grow. */
  method BuildChained(hash: Hash, fetch: seq<int>, selection: seq<int>, capacity: nat, scale: bool)
    returns (table: ChainedTable.Table)
    requires |fetch| == |selection| <= capacity
    ensures fresh(table) && fresh(table.buckets) && table.hash == hash
    ensures table.buckets.Length == (if scale then 5 * capacity else capacity)
    ensures Represents(table, Zip(fetch, selection))
  {
    ghost var rows := Zip(fetch, selection);
    table := new ChainedTable.Table.Allocate(hash, capacity, scale);
    FlattenEmpty(table.buckets[..]);
    ghost var stored: seq<Row> := [];
    for i := 0 to |selection|
      invariant fresh(table) && fresh(table.buckets) && table.hash == hash && table.size == i
      invariant table.targetSize == capacity && table.buckets.Length == (if scale then 5 * capacity else capacity)
      invariant Represents(table, stored) && stored == rows[..i]
    {
      StoreRow(table, fetch[i], selection[i], stored);
      ZipPrefix(fetch, selection, i);
      stored := stored + [(fetch[i], selection[i])];
    }
    assert stored == rows;
  }

  /** One entry of the first table against one chain of the second. */
  method ChainLoop(r: Row, chain: seq<Row>, first: IndexVector, second: IndexVector)
    requires first != second && |first.data| == |second.data|
    modifies first, second
    ensures GainedRow(old(first.data), old(second.data), first.data, second.data, r.1, r.0, chain)
  {
    NothingMatches(r.0);
    assert chain[..0] == [];
    for j := 0 to |chain|
      invariant GainedRow(old(first.data), old(second.data), first.data, second.data, r.1, r.0, chain[..j])
    {
      GainRowMore(old(first.data), old(second.data), first.data, second.data, r.1, r.0, chain[..j], chain[j]);
      assert chain[..j + 1] == chain[..j] + [chain[j]];
      if chain[j].0 == r.0 {
        first.Push(r.1);
        second.Push(chain[j].1);
      }
    }
    assert chain[..|chain|] == chain;
  }

  /** Bucket b of the first table against bucket b of the second. */
  method BucketLoop(table: ChainedTable.Table, chain: seq<Row>, b: nat, ghost rows: seq<Row>, ghost left: seq<Row>,
                    ghost f: seq<int>, ghost s: seq<int>, first: IndexVector, second: IndexVector)
    requires Represents(table, rows) && b < table.buckets.Length
    requires ChainedTable.InBucket(table.hash, chain, b, table.buckets.Length)
    requires first != second && Gained(f, s, first.data, second.data, left, rows)
    modifies first, second
    ensures Gained(f, s, first.data, second.data, left + chain, rows)
  {
    assert left + chain[..0] == left;
    for i := 0 to |chain|
      invariant Gained(f, s, first.data, second.data, left + chain[..i], rows)
    {
      ghost var f', s' := first.data, second.data;
      ChainLoop(chain[i], table.buckets[b], first, second);
      assert table.Lookup(chain[i].0) == ValuesOf(rows, chain[i].0);
      GainMore(f, s, f', s', first.data, second.data, left + chain[..i], chain[i], rows);
      assert left + chain[..i + 1] == left + chain[..i] + [chain[i]];
    }
    assert chain[..|chain|] == chain;
  }

  /** A bucket that is empty on either side joins with nothing. */
  lemma {:induction false} SkippedBucket(table: ChainedTable.Table, chain: seq<Row>, b: nat, rows: seq<Row>,
                                         left: seq<Row>, f: seq<int>, s: seq<int>, f': seq<int>, s': seq<int>)
    requires Represents(table, rows) && b < table.buckets.Length && (chain == [] || table.buckets[b] == [])
    requires ChainedTable.InBucket(table.hash, chain, b, table.buckets.Length)
    requires Gained(f, s, f', s', left, rows)
    ensures Gained(f, s, f', s', left + chain, rows)
    decreases |chain|
  {
    if chain == [] {
      assert left + chain == left;
    } else {
      var n := |chain| - 1;
      SkippedBucket(table, chain[..n], b, rows, left, f, s, f', s');
      assert table.Lookup(chain[n].0) == [] == ValuesOf(rows, chain[n].0);
      assert forall y :: Matches(rows, chain[n].0, y) == multiset([])[y];
      GainMore(f, s, f', s', f', s', left + chain[..n], chain[n], rows);
      assert left + chain[..n] + [chain[n]] == left + chain;
    }
  }

  /** Both tables and their join; ok says whether the two capacities agree, as the code asserts. */
  method GraceLoops(hash: Hash, fetch1: seq<int>, selection1: seq<int>, fetch2: seq<int>, selection2: seq<int>,
                    first: IndexVector, second: IndexVector)
    returns (ok: bool)
    requires |fetch1| == |selection1| <= |fetch2| == |selection2|
    requires first != second && |first.data| == |second.data|
    modifies first, second
    ensures ok
    ensures Gained(old(first.data), old(second.data), first.data, second.data,
                   Zip(fetch1, selection1), Zip(fetch2, selection2))
  {
    ghost var left, right := Zip(fetch1, selection1), Zip(fetch2, selection2);
    var secondTable := BuildChained(hash, fetch2, selection2, |selection2|, true);
    var firstTable := BuildChained(hash, fetch1, selection1, secondTable.buckets.Length, false);
    ok := firstTable.buckets.Length == secondTable.buckets.Length;
    BucketLoops(firstTable, secondTable, left, right, first, second);
  }

  /** The final loop over the buckets of two tables of equal capacity. */
  method BucketLoops(firstTable: ChainedTable.Table, secondTable: ChainedTable.Table, ghost left: seq<Row>,
                     ghost right: seq<Row>, first: IndexVector, second: IndexVector)
    requires Represents(firstTable, left) && Represents(secondTable, right) && firstTable.hash == secondTable.hash
    requires firstTable.buckets.Length == secondTable.buckets.Length
    requires first != second && |first.data| == |second.data|
    modifies first, second
    ensures Gained(old(first.data), old(second.data), first.data, second.data, left, right)
  {
    ghost var buckets := firstTable.buckets[..];
    assert Flatten(buckets[..0]) == [];
    for b := 0 to firstTable.buckets.Length
      invariant Gained(old(first.data), old(second.data), first.data, second.data, Flatten(buckets[..b]), right)
    {
      assert buckets[..b + 1][..b] == buckets[..b];
      JoinBuckets(secondTable, firstTable.buckets[b], b, right, Flatten(buckets[..b]),
                  old(first.data), old(second.data), first, second);
    }
    assert buckets[..|buckets|] == buckets;
  }

  method JoinBuckets(table: ChainedTable.Table, chain: seq<Row>, b: nat, ghost rows: seq<Row>, ghost left: seq<Row>,
                     ghost f: seq<int>, ghost s: seq<int>, first: IndexVector, second: IndexVector)
    requires Represents(table, rows) && b < table.buckets.Length
    requires ChainedTable.InBucket(table.hash, chain, b, table.buckets.Length)
    requires first != second && Gained(f, s, first.data, second.data, left, rows)
    modifies first, second
    ensures Gained(f, s, first.data, second.data, left + chain, rows)
  {
    if table.buckets[b] != [] && chain != [] {
      BucketLoop(table, chain, b, rows, left, f, s, first, second);
    } else {
      SkippedBucket(table, chain, b, rows, left, f, s, first.data, second.data);
    }
  }

  /** For any hash function, grace_hash_join adds the same pairs as nested_loop_join, and its assertion that the two
      tables have equal capacities never fails. */
  method GraceHashJoin(hash: Hash, fetch1: seq<int>, selection1: seq<int>, fetch2: seq<int>, selection2: seq<int>,
                       res: JoinResult)
    returns (ok: bool)
    requires |fetch1| == |selection1| && |fetch2| == |selection2|
    requires res.first != res.second && |res.first.data| == |res.second.data|
    modifies res, res.first, res.second
    ensures ok
    ensures var a, b := old(res.first), old(res.second);
      Gained(old(a.data), old(b.data), a.data, b.data, Zip(fetch1, selection1), Zip(fetch2, selection2))
      && GainedPairs(old(a.data), old(b.data), a.data, b.data, fetch1, selection1, fetch2, selection2)
  {
    ghost var a, b := res.first, res.second;
    ghost var f, s := a.data, b.data;
    if |selection1| > |selection2| {
      res.Swap();
      ok := GraceLoops(hash, fetch2, selection2, fetch1, selection1, res.first, res.second);
      GainedMirror(s, f, res.first.data, res.second.data, Zip(fetch2, selection2), Zip(fetch1, selection1));
    } else {
      ok := GraceLoops(hash, fetch1, selection1, fetch2, selection2, res.first, res.second);
    }
    GainedMeans(f, s, a.data, b.data, fetch1, selection1, fetch2, selection2);
  }
}
