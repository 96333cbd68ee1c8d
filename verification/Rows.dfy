/** Rows of a join, and how often a join pairs two positions. */
module Rows {

  /** A joined column value with the position it was fetched from. */
  type Row = (int, int)

  /** The values stored under a key, in order. */
  function ValuesOf(rows: seq<Row>, key: int): seq<int> {
    if rows == [] then []
    else
      var r := rows[|rows| - 1];
      ValuesOf(rows[..|rows| - 1], key) + if r.0 == key then [r.1] else []
  }

  /** How many rows with this key sit at position y. */
  ghost function Matches(rows: seq<Row>, key: int, y: int): nat {
    multiset(ValuesOf(rows, key))[y]
  }

  /** How often the join pairs position x on the left with position y on the right. */
  ghost function JoinCount(left: seq<Row>, right: seq<Row>, x: int, y: int): nat {
    if left == [] then 0
    else
      var r := left[|left| - 1];
      JoinCount(left[..|left| - 1], right, x, y) + if r.1 == x then Matches(right, r.0, y) else 0
  }

  lemma {:induction false} JoinCountRight(left: seq<Row>, right: seq<Row>, q: Row, x: int, y: int)
    ensures JoinCount(left, right + [q], x, y)
         == JoinCount(left, right, x, y) + if q.1 == y then Matches(left, q.0, x) else 0
  {
    if left != [] {
      var r := left[|left| - 1];
      JoinCountRight(left[..|left| - 1], right, q, x, y);
      assert (right + [q])[..|right|] == right;
      assert Matches(right + [q], r.0, y) == Matches(right, r.0, y) + if q.0 == r.0 && q.1 == y then 1 else 0;
    }
  }

  /** Joining the other way round gives the same pairs, mirrored. */
  lemma {:induction false} JoinCountMirror(left: seq<Row>, right: seq<Row>, x: int, y: int)
    ensures JoinCount(left, right, x, y) == JoinCount(right, left, y, x)
    decreases |right|
  {
    if right == [] {
      JoinCountNoRight(left, x, y);
    } else {
      var n := |right| - 1;
      JoinCountMirror(left, right[..n], x, y);
      JoinCountRight(left, right[..n], right[n], x, y);
      assert right[..n] + [right[n]] == right;
    }
  }

  lemma {:induction false} JoinCountNoRight(left: seq<Row>, x: int, y: int)
    ensures JoinCount(left, [], x, y) == 0
  {
    if left != [] {
      JoinCountNoRight(left[..|left| - 1], x, y);
    }
  }

  /** How often the pair (x, y) stands at the same index of two result columns. */
  ghost function PairCount(first: seq<int>, second: seq<int>, x: int, y: int): nat
    requires |first| == |second|
  {
    if first == [] then 0
    else
      var n := |first| - 1;
      PairCount(first[..n], second[..n], x, y) + if first[n] == x && second[n] == y then 1 else 0
  }

  lemma PairPush(first: seq<int>, second: seq<int>, a: int, b: int, x: int, y: int)
    requires |first| == |second|
    ensures PairCount(first + [a], second + [b], x, y)
         == PairCount(first, second, x, y) + if a == x && b == y then 1 else 0
  {
    assert (first + [a])[..|first|] == first && (second + [b])[..|second|] == second;
  }

  lemma {:induction false} PairMirror(first: seq<int>, second: seq<int>, x: int, y: int)
    requires |first| == |second|
    ensures PairCount(first, second, x, y) == PairCount(second, first, y, x)
  {
    if first != [] {
      PairMirror(first[..|first| - 1], second[..|first| - 1], x, y);
    }
  }

  // ----- the counts, without recursion -----

  /** The indexes at which the pair (x, y) stands. */
  ghost function Places(first: seq<int>, second: seq<int>, x: int, y: int): set<int>
    requires |first| == |second|
  {
    set i | 0 <= i < |first| && first[i] == x && second[i] == y
  }

  /** The rows, by their numbers on the left and on the right, that join position x with position y. */
  ghost function Pairings(left: seq<Row>, right: seq<Row>, x: int, y: int): set<(int, int)> {
    set i, j | 0 <= i < |left| && 0 <= j < |right| && left[i].0 == right[j].0 && left[i].1 == x && right[j].1 == y
      :: (i, j)
  }

  /** The same, by the numbers of two values and the positions they were fetched from. */
  ghost function JoinedPairs(fetch1: seq<int>, selection1: seq<int>, fetch2: seq<int>, selection2: seq<int>,
                             x: int, y: int): set<(int, int)>
    requires |fetch1| == |selection1| && |fetch2| == |selection2|
  {
    set i, j | 0 <= i < |fetch1| && 0 <= j < |fetch2| && fetch1[i] == fetch2[j]
               && selection1[i] == x && selection2[j] == y
      :: (i, j)
  }

  lemma JoinedPairsOfRows(fetch1: seq<int>, selection1: seq<int>, fetch2: seq<int>, selection2: seq<int>,
                          x: int, y: int)
    requires |fetch1| == |selection1| && |fetch2| == |selection2|
    ensures JoinedPairs(fetch1, selection1, fetch2, selection2, x, y)
         == Pairings(Zip(fetch1, selection1), Zip(fetch2, selection2), x, y)
  {
  }

  lemma {:induction false} PairCountIs(first: seq<int>, second: seq<int>, x: int, y: int)
    requires |first| == |second|
    ensures PairCount(first, second, x, y) == |Places(first, second, x, y)|
  {
    if first == [] {
    } else {
      var n := |first| - 1;
      PairCountIs(first[..n], second[..n], x, y);
      var before := Places(first[..n], second[..n], x, y);
      assert Places(first, second, x, y) == before + if first[n] == x && second[n] == y then {n} else {};
    }
  }

  /** Those of the rows with this key at position y, for left row number n. */
  ghost function RowPairings(n: int, rows: seq<Row>, key: int, y: int): set<(int, int)> {
    set j | 0 <= j < |rows| && rows[j].0 == key && rows[j].1 == y :: (n, j)
  }

  lemma MatchesNext(rows: seq<Row>, key: int, y: int)
    requires rows != []
    ensures var r := rows[|rows| - 1];
      Matches(rows, key, y) == Matches(rows[..|rows| - 1], key, y) + if r.0 == key && r.1 == y then 1 else 0
  {
  }

  lemma RowPairingsNext(n: int, rows: seq<Row>, key: int, y: int)
    requires rows != []
    ensures var m := |rows| - 1;
      |RowPairings(n, rows, key, y)|
        == |RowPairings(n, rows[..m], key, y)| + if rows[m].0 == key && rows[m].1 == y then 1 else 0
  {
    var m := |rows| - 1;
    var before := RowPairings(n, rows[..m], key, y);
    assert RowPairings(n, rows, key, y) == before + if rows[m].0 == key && rows[m].1 == y then {(n, m)} else {};
    assert (n, m) !in before;
  }

  lemma {:induction false} MatchesIs(n: int, rows: seq<Row>, key: int, y: int)
    ensures |RowPairings(n, rows, key, y)| == Matches(rows, key, y)
  {
    if rows == [] {
      assert ValuesOf(rows, key) == [];
    } else {
      MatchesIs(n, rows[..|rows| - 1], key, y);
      MatchesNext(rows, key, y);
      RowPairingsNext(n, rows, key, y);
    }
  }

  lemma PairingsNext(left: seq<Row>, right: seq<Row>, x: int, y: int)
    requires left != []
    ensures var n := |left| - 1;
      |Pairings(left, right, x, y)|
        == |Pairings(left[..n], right, x, y)| + if left[n].1 == x then |RowPairings(n, right, left[n].0, y)| else 0
  {
    var n := |left| - 1;
    var before := Pairings(left[..n], right, x, y);
    var added := if left[n].1 == x then RowPairings(n, right, left[n].0, y) else {};
    assert Pairings(left, right, x, y) == before + added;
    assert before !! added;
  }

  lemma {:induction false} JoinCountIs(left: seq<Row>, right: seq<Row>, x: int, y: int)
    ensures JoinCount(left, right, x, y) == |Pairings(left, right, x, y)|
  {
    if left == [] {
      assert Pairings(left, right, x, y) == {};
    } else {
      var n := |left| - 1;
      JoinCountIs(left[..n], right, x, y);
      MatchesIs(n, right, left[n].0, y);
      PairingsNext(left, right, x, y);
    }
  }

  /** Rows of two parallel columns. */
  function Zip(keys: seq<int>, positions: seq<int>): (rows: seq<Row>)
    requires |keys| == |positions|
    ensures |rows| == |keys|
  {
    seq(|keys|, i requires 0 <= i < |keys| => (keys[i], positions[i]))
  }
}
