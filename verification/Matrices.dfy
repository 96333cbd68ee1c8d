/** Square integer matrices as values, and the block algebra behind Strassen's scheme. */
module Matrices {

  type Matrix = seq<seq<int>>

  ghost predicate IsSquare(m: Matrix, n: nat) {
    |m| == n && forall i :: 0 <= i < n ==> |m[i]| == n
  }

  ghost function Zero(n: nat): (r: Matrix)
    ensures IsSquare(r, n)
  {
    seq(n, _ => seq(n, _ => 0))
  }

  ghost function Plus(a: Matrix, b: Matrix, n: nat): (r: Matrix)
    requires IsSquare(a, n) && IsSquare(b, n)
    ensures IsSquare(r, n)
  {
    seq(n, i requires 0 <= i < n => seq(n, j requires 0 <= j < n => a[i][j] + b[i][j]))
  }

  ghost function Minus(a: Matrix, b: Matrix, n: nat): (r: Matrix)
    requires IsSquare(a, n) && IsSquare(b, n)
    ensures IsSquare(r, n)
  {
    seq(n, i requires 0 <= i < n => seq(n, j requires 0 <= j < n => a[i][j] - b[i][j]))
  }

  /** Inner product of row `i` of `a` with column `j` of `b`, over their first `k` terms. */
  ghost function Dot(a: Matrix, b: Matrix, n: nat, i: nat, j: nat, k: nat): int
    requires IsSquare(a, n) && IsSquare(b, n)
    requires i < n && j < n && k <= n
  {
    if k == 0 then 0 else Dot(a, b, n, i, j, k - 1) + a[i][k - 1] * b[k - 1][j]
  }

  /** The matrix product, by its definition. */
  ghost function Product(a: Matrix, b: Matrix, n: nat): (r: Matrix)
    requires IsSquare(a, n) && IsSquare(b, n)
    ensures IsSquare(r, n)
  {
    seq(n, i requires 0 <= i < n => seq(n, j requires 0 <= j < n => Dot(a, b, n, i, j, n)))
  }

  /** First row or column of block number `x` when blocks have size h. */
  function Off(h: nat, x: nat): nat
    requires x < 2
  {
    if x == 0 then 0 else h
  }

  /** Block (x, y) of a matrix of size 2h. */
  ghost function Block(m: Matrix, h: nat, x: nat, y: nat): (r: Matrix)
    requires IsSquare(m, 2 * h) && x < 2 && y < 2
    ensures IsSquare(r, h)
  {
    seq(h, i requires 0 <= i < h => seq(h, j requires 0 <= j < h => m[Off(h, x) + i][Off(h, y) + j]))
  }

  lemma BlocksDetermine(m: Matrix, w: Matrix, h: nat)
    requires IsSquare(m, 2 * h) && IsSquare(w, 2 * h)
    requires Block(m, h, 0, 0) == Block(w, h, 0, 0) && Block(m, h, 0, 1) == Block(w, h, 0, 1)
    requires Block(m, h, 1, 0) == Block(w, h, 1, 0) && Block(m, h, 1, 1) == Block(w, h, 1, 1)
    ensures m == w
  {
    forall i | 0 <= i < 2 * h
      ensures m[i] == w[i]
    {
      forall j | 0 <= j < 2 * h
        ensures m[i][j] == w[i][j]
      {
        var x, y := if i < h then 0 else 1, if j < h then 0 else 1;
        assert Block(m, h, x, y)[i - Off(h, x)][j - Off(h, y)] == Block(w, h, x, y)[i - Off(h, x)][j - Off(h, y)];
      }
    }
  }

  // ----- Dot is bilinear -----

  lemma Distributes(x: int, y: int, z: int)
    ensures x * (y + z) == x * y + x * z && (y + z) * x == y * x + z * x
    ensures x * (y - z) == x * y - x * z && (y - z) * x == y * x - z * x
  {
  }

  lemma {:induction false} DotPlusLeft(a: Matrix, b: Matrix, c: Matrix, n: nat, i: nat, j: nat, k: nat)
    requires IsSquare(a, n) && IsSquare(b, n) && IsSquare(c, n) && i < n && j < n && k <= n
    ensures Dot(Plus(a, b, n), c, n, i, j, k) == Dot(a, c, n, i, j, k) + Dot(b, c, n, i, j, k)
  {
    if k > 0 {
      DotPlusLeft(a, b, c, n, i, j, k - 1);
      var x, y, z := c[k - 1][j], a[i][k - 1], b[i][k - 1];
      assert Plus(a, b, n)[i][k - 1] == y + z;
      Distributes(x, y, z);
      assert Plus(a, b, n)[i][k - 1] * x == y * x + z * x;
    }
  }

  lemma {:induction false} DotMinusLeft(a: Matrix, b: Matrix, c: Matrix, n: nat, i: nat, j: nat, k: nat)
    requires IsSquare(a, n) && IsSquare(b, n) && IsSquare(c, n) && i < n && j < n && k <= n
    ensures Dot(Minus(a, b, n), c, n, i, j, k) == Dot(a, c, n, i, j, k) - Dot(b, c, n, i, j, k)
  {
    if k > 0 {
      DotMinusLeft(a, b, c, n, i, j, k - 1);
      var x, y, z := c[k - 1][j], a[i][k - 1], b[i][k - 1];
      assert Minus(a, b, n)[i][k - 1] == y - z;
      Distributes(x, y, z);
      assert Minus(a, b, n)[i][k - 1] * x == y * x - z * x;
    }
  }

  lemma {:induction false} DotPlusRight(a: Matrix, b: Matrix, c: Matrix, n: nat, i: nat, j: nat, k: nat)
    requires IsSquare(a, n) && IsSquare(b, n) && IsSquare(c, n) && i < n && j < n && k <= n
    ensures Dot(a, Plus(b, c, n), n, i, j, k) == Dot(a, b, n, i, j, k) + Dot(a, c, n, i, j, k)
  {
    if k > 0 {
      DotPlusRight(a, b, c, n, i, j, k - 1);
      var x, y, z := a[i][k - 1], b[k - 1][j], c[k - 1][j];
      assert Plus(b, c, n)[k - 1][j] == y + z;
      Distributes(x, y, z);
      assert x * Plus(b, c, n)[k - 1][j] == x * y + x * z;
    }
  }

  lemma {:induction false} DotMinusRight(a: Matrix, b: Matrix, c: Matrix, n: nat, i: nat, j: nat, k: nat)
    requires IsSquare(a, n) && IsSquare(b, n) && IsSquare(c, n) && i < n && j < n && k <= n
    ensures Dot(a, Minus(b, c, n), n, i, j, k) == Dot(a, b, n, i, j, k) - Dot(a, c, n, i, j, k)
  {
    if k > 0 {
      DotMinusRight(a, b, c, n, i, j, k - 1);
      var x, y, z := a[i][k - 1], b[k - 1][j], c[k - 1][j];
      assert Minus(b, c, n)[k - 1][j] == y - z;
      Distributes(x, y, z);
      assert x * Minus(b, c, n)[k - 1][j] == x * y - x * z;
    }
  }

  // ----- what the product is -----

  ghost predicate IsIdentity(m: Matrix, n: nat)
    requires IsSquare(m, n)
  {
    forall i, j :: 0 <= i < n && 0 <= j < n ==> m[i][j] == if i == j then 1 else 0
  }

  /** Row i holds nothing but possibly its entry at t. */
  ghost predicate RowOnlyAt(m: Matrix, n: nat, i: nat, t: nat)
    requires IsSquare(m, n)
  {
    i < n && t < n && forall s :: 0 <= s < n && s != t ==> m[i][s] == 0
  }

  ghost predicate ColumnOnlyAt(m: Matrix, n: nat, t: nat, j: nat)
    requires IsSquare(m, n)
  {
    t < n && j < n && forall s :: 0 <= s < n && s != t ==> m[s][j] == 0
  }

  lemma {:induction false} DotOfOne(a: Matrix, b: Matrix, n: nat, i: nat, j: nat, t: nat, k: nat)
    requires IsSquare(a, n) && IsSquare(b, n) && i < n && j < n && t < n && k <= n
    requires RowOnlyAt(a, n, i, t) || ColumnOnlyAt(b, n, t, j)
    ensures Dot(a, b, n, i, j, k) == if t < k then a[i][t] * b[t][j] else 0
  {
    if k > 0 {
      DotOfOne(a, b, n, i, j, t, k - 1);
      assert k - 1 != t ==> a[i][k - 1] * b[k - 1][j] == 0;
    }
  }

  /** A row, or a column, with a single entry contributes a single term. */
  lemma ProductOfOne(a: Matrix, b: Matrix, n: nat, i: nat, j: nat, t: nat)
    requires IsSquare(a, n) && IsSquare(b, n) && i < n && j < n && t < n
    requires RowOnlyAt(a, n, i, t) || ColumnOnlyAt(b, n, t, j)
    ensures Product(a, b, n)[i][j] == a[i][t] * b[t][j]
  {
    DotOfOne(a, b, n, i, j, t, n);
  }

  /** The identity leaves a matrix alone on either side. */
  lemma ProductWithIdentity(a: Matrix, b: Matrix, n: nat)
    requires IsSquare(a, n) && IsSquare(b, n)
    ensures IsIdentity(a, n) ==> Product(a, b, n) == b
    ensures IsIdentity(b, n) ==> Product(a, b, n) == a
  {
    if IsIdentity(a, n) {
      forall i, j | 0 <= i < n && 0 <= j < n
        ensures Product(a, b, n)[i][j] == b[i][j]
      {
        ProductOfOne(a, b, n, i, j, i);
      }
      SameCells(Product(a, b, n), b, n);
    }
    if IsIdentity(b, n) {
      forall i, j | 0 <= i < n && 0 <= j < n
        ensures Product(a, b, n)[i][j] == a[i][j]
      {
        ProductOfOne(a, b, n, i, j, j);
      }
      SameCells(Product(a, b, n), a, n);
    }
  }

  /** The product is additive in either factor: with ProductOfOne this fixes it. */
  lemma ProductIsAdditive(a: Matrix, b: Matrix, c: Matrix, n: nat, i: nat, j: nat)
    requires IsSquare(a, n) && IsSquare(b, n) && IsSquare(c, n) && i < n && j < n
    ensures Product(Plus(a, b, n), c, n)[i][j] == Product(a, c, n)[i][j] + Product(b, c, n)[i][j]
    ensures Product(a, Plus(b, c, n), n)[i][j] == Product(a, b, n)[i][j] + Product(a, c, n)[i][j]
  {
    DotPlusLeft(a, b, c, n, i, j, n);
    DotPlusRight(a, b, c, n, i, j, n);
  }

  // ----- products by blocks -----

  /** Terms s..s+k of one inner product are all the terms of another when the factors agree there. */
  lemma {:induction false} DotSegment(a: Matrix, b: Matrix, n: nat, i: nat, j: nat, s: nat,
                                      a': Matrix, b': Matrix, h: nat, i': nat, j': nat, k: nat)
    requires IsSquare(a, n) && IsSquare(b, n) && i < n && j < n && s + k <= n
    requires IsSquare(a', h) && IsSquare(b', h) && i' < h && j' < h && k <= h
    requires forall t :: 0 <= t < k ==> a'[i'][t] == a[i][s + t]
    requires forall t :: 0 <= t < k ==> b'[t][j'] == b[s + t][j]
    ensures Dot(a, b, n, i, j, s + k) == Dot(a, b, n, i, j, s) + Dot(a', b', h, i', j', k)
  {
    if k > 0 {
      DotSegment(a, b, n, i, j, s, a', b', h, i', j', k - 1);
    }
  }

  lemma DotHalf(a: Matrix, b: Matrix, h: nat, x: nat, y: nat, z: nat, i: nat, j: nat)
    requires IsSquare(a, 2 * h) && IsSquare(b, 2 * h) && x < 2 && y < 2 && z < 2 && i < h && j < h
    ensures Dot(a, b, 2 * h, Off(h, x) + i, Off(h, y) + j, Off(h, z) + h)
         == Dot(a, b, 2 * h, Off(h, x) + i, Off(h, y) + j, Off(h, z))
          + Dot(Block(a, h, x, z), Block(b, h, z, y), h, i, j, h)
  {
    var l, r, s := Block(a, h, x, z), Block(b, h, z, y), Off(h, z);
    var row, col := Off(h, x) + i, Off(h, y) + j;
    forall t | 0 <= t < h
      ensures l[i][t] == a[row][s + t] && r[t][j] == b[s + t][col]
    {
    }
    DotSegment(a, b, 2 * h, row, col, s, l, r, h, i, j, h);
  }

  lemma DotByBlocks(a: Matrix, b: Matrix, h: nat, x: nat, y: nat, i: nat, j: nat)
    requires IsSquare(a, 2 * h) && IsSquare(b, 2 * h) && x < 2 && y < 2 && i < h && j < h
    ensures Dot(a, b, 2 * h, Off(h, x) + i, Off(h, y) + j, 2 * h)
         == Dot(Block(a, h, x, 0), Block(b, h, 0, y), h, i, j, h)
          + Dot(Block(a, h, x, 1), Block(b, h, 1, y), h, i, j, h)
  {
    DotHalf(a, b, h, x, y, 0, i, j);
    DotHalf(a, b, h, x, y, 1, i, j);
  }

  lemma BlockOfProduct(a: Matrix, b: Matrix, h: nat, x: nat, y: nat)
    requires IsSquare(a, 2 * h) && IsSquare(b, 2 * h) && x < 2 && y < 2
    ensures Block(Product(a, b, 2 * h), h, x, y)
         == Plus(Product(Block(a, h, x, 0), Block(b, h, 0, y), h), Product(Block(a, h, x, 1), Block(b, h, 1, y), h), h)
  {
    var l := Block(Product(a, b, 2 * h), h, x, y);
    var r := Plus(Product(Block(a, h, x, 0), Block(b, h, 0, y), h),
                  Product(Block(a, h, x, 1), Block(b, h, 1, y), h), h);
    forall i, j | 0 <= i < h && 0 <= j < h
      ensures l[i][j] == r[i][j]
    {
      DotByBlocks(a, b, h, x, y, i, j);
    }
    SameCells(l, r, h);
  }

  // ----- the seven products -----

  datatype Blocks = Blocks(b00: Matrix, b01: Matrix, b10: Matrix, b11: Matrix)

  ghost predicate AllSquare(q: Blocks, h: nat) {
    IsSquare(q.b00, h) && IsSquare(q.b01, h) && IsSquare(q.b10, h) && IsSquare(q.b11, h)
  }

  ghost function Split(m: Matrix, h: nat): (q: Blocks)
    requires IsSquare(m, 2 * h)
    ensures AllSquare(q, h)
  {
    Blocks(Block(m, h, 0, 0), Block(m, h, 0, 1), Block(m, h, 1, 0), Block(m, h, 1, 1))
  }

  /** Left factor of Strassen's product number k. */
  ghost function LeftFactor(a: Blocks, h: nat, k: nat): (r: Matrix)
    requires AllSquare(a, h) && 1 <= k <= 7
    ensures IsSquare(r, h)
  {
    if k == 1 then Plus(a.b00, a.b11, h)
    else if k == 2 then Plus(a.b10, a.b11, h)
    else if k == 3 then a.b00
    else if k == 4 then a.b11
    else if k == 5 then Plus(a.b00, a.b01, h)
    else if k == 6 then Minus(a.b10, a.b00, h)
    else Minus(a.b01, a.b11, h)
  }

  /** Right factor of Strassen's product number k. */
  ghost function RightFactor(b: Blocks, h: nat, k: nat): (r: Matrix)
    requires AllSquare(b, h) && 1 <= k <= 7
    ensures IsSquare(r, h)
  {
    if k == 1 then Plus(b.b00, b.b11, h)
    else if k == 2 then b.b00
    else if k == 3 then Minus(b.b01, b.b11, h)
    else if k == 4 then Minus(b.b10, b.b00, h)
    else if k == 5 then b.b11
    else if k == 6 then Plus(b.b00, b.b01, h)
    else Plus(b.b10, b.b11, h)
  }

  ghost function M(a: Blocks, b: Blocks, h: nat, k: nat): (r: Matrix)
    requires AllSquare(a, h) && AllSquare(b, h) && 1 <= k <= 7
    ensures IsSquare(r, h)
  {
    Product(LeftFactor(a, h, k), RightFactor(b, h, k), h)
  }

  /** The blocks of the target after product number k has been added to those it belongs to. */
  ghost function AddProduct(c: Blocks, a: Blocks, b: Blocks, h: nat, k: nat): (d: Blocks)
    requires AllSquare(a, h) && AllSquare(b, h) && AllSquare(c, h) && 1 <= k <= 7
    ensures AllSquare(d, h)
  {
    var m := M(a, b, h, k);
    if k == 1 then c.(b00 := Plus(c.b00, m, h), b11 := Plus(c.b11, m, h))
    else if k == 2 then c.(b10 := Plus(c.b10, m, h), b11 := Minus(c.b11, m, h))
    else if k == 3 then c.(b01 := Plus(c.b01, m, h), b11 := Plus(c.b11, m, h))
    else if k == 4 then c.(b00 := Plus(c.b00, m, h), b10 := Plus(c.b10, m, h))
    else if k == 5 then c.(b00 := Minus(c.b00, m, h), b01 := Plus(c.b01, m, h))
    else if k == 6 then c.(b11 := Plus(c.b11, m, h))
    else c.(b00 := Plus(c.b00, m, h))
  }

  /** A cleared target after the first k products. */
  ghost function Accumulated(a: Blocks, b: Blocks, h: nat, k: nat): (c: Blocks)
    requires AllSquare(a, h) && AllSquare(b, h) && k <= 7
    ensures AllSquare(c, h)
  {
    if k == 0 then Blocks(Zero(h), Zero(h), Zero(h), Zero(h))
    else AddProduct(Accumulated(a, b, h, k - 1), a, b, h, k)
  }

  /** Each cell of the seven products, as a combination of plain block products. */
  lemma SevenCells(a: Blocks, b: Blocks, h: nat, i: nat, j: nat)
    requires AllSquare(a, h) && AllSquare(b, h) && i < h && j < h
    ensures M(a, b, h, 1)[i][j] == Dot(a.b00, b.b00, h, i, j, h) + Dot(a.b00, b.b11, h, i, j, h)
                                 + Dot(a.b11, b.b00, h, i, j, h) + Dot(a.b11, b.b11, h, i, j, h)
    ensures M(a, b, h, 2)[i][j] == Dot(a.b10, b.b00, h, i, j, h) + Dot(a.b11, b.b00, h, i, j, h)
    ensures M(a, b, h, 3)[i][j] == Dot(a.b00, b.b01, h, i, j, h) - Dot(a.b00, b.b11, h, i, j, h)
    ensures M(a, b, h, 4)[i][j] == Dot(a.b11, b.b10, h, i, j, h) - Dot(a.b11, b.b00, h, i, j, h)
    ensures M(a, b, h, 5)[i][j] == Dot(a.b00, b.b11, h, i, j, h) + Dot(a.b01, b.b11, h, i, j, h)
    ensures M(a, b, h, 6)[i][j] == Dot(a.b10, b.b00, h, i, j, h) + Dot(a.b10, b.b01, h, i, j, h)
                                 - Dot(a.b00, b.b00, h, i, j, h) - Dot(a.b00, b.b01, h, i, j, h)
    ensures M(a, b, h, 7)[i][j] == Dot(a.b01, b.b10, h, i, j, h) + Dot(a.b01, b.b11, h, i, j, h)
                                 - Dot(a.b11, b.b10, h, i, j, h) - Dot(a.b11, b.b11, h, i, j, h)
  {
    DotPlusLeft(a.b00, a.b11, Plus(b.b00, b.b11, h), h, i, j, h);
    DotPlusRight(a.b00, b.b00, b.b11, h, i, j, h);
    DotPlusRight(a.b11, b.b00, b.b11, h, i, j, h);
    DotPlusLeft(a.b10, a.b11, b.b00, h, i, j, h);
    DotMinusRight(a.b00, b.b01, b.b11, h, i, j, h);
    DotMinusRight(a.b11, b.b10, b.b00, h, i, j, h);
    DotPlusLeft(a.b00, a.b01, b.b11, h, i, j, h);
    DotMinusLeft(a.b10, a.b00, Plus(b.b00, b.b01, h), h, i, j, h);
    DotPlusRight(a.b10, b.b00, b.b01, h, i, j, h);
    DotPlusRight(a.b00, b.b00, b.b01, h, i, j, h);
    DotMinusLeft(a.b01, a.b11, Plus(b.b10, b.b11, h), h, i, j, h);
    DotPlusRight(a.b01, b.b10, b.b11, h, i, j, h);
    DotPlusRight(a.b11, b.b10, b.b11, h, i, j, h);
  }

  /** Adding in all seven products leaves exactly the four blocks of the product. */
  lemma SevenProductsSuffice(a: Matrix, b: Matrix, h: nat)
    requires IsSquare(a, 2 * h) && IsSquare(b, 2 * h)
    ensures Accumulated(Split(a, h), Split(b, h), h, 7) == Split(Product(a, b, 2 * h), h)
  {
    var c, p := Accumulated(Split(a, h), Split(b, h), h, 7), Split(Product(a, b, 2 * h), h);
    BlockOfProduct(a, b, h, 0, 0);
    BlockOfProduct(a, b, h, 0, 1);
    BlockOfProduct(a, b, h, 1, 0);
    BlockOfProduct(a, b, h, 1, 1);
    forall i, j | 0 <= i < h && 0 <= j < h
      ensures c.b00[i][j] == p.b00[i][j] && c.b01[i][j] == p.b01[i][j]
      ensures c.b10[i][j] == p.b10[i][j] && c.b11[i][j] == p.b11[i][j]
    {
      AccumulatedCell(Split(a, h), Split(b, h), h, i, j);
    }
    SameCells(c.b00, p.b00, h);
    SameCells(c.b01, p.b01, h);
    SameCells(c.b10, p.b10, h);
    SameCells(c.b11, p.b11, h);
  }

  lemma SameCells(m: Matrix, w: Matrix, n: nat)
    requires IsSquare(m, n) && IsSquare(w, n)
    requires forall i, j :: 0 <= i < n && 0 <= j < n ==> m[i][j] == w[i][j]
    ensures m == w
  {
    forall i | 0 <= i < n
      ensures m[i] == w[i]
    {
    }
  }

  lemma AccumulatedCell(a: Blocks, b: Blocks, h: nat, i: nat, j: nat)
    requires AllSquare(a, h) && AllSquare(b, h) && i < h && j < h
    ensures var c := Accumulated(a, b, h, 7);
      && c.b00[i][j] == Dot(a.b00, b.b00, h, i, j, h) + Dot(a.b01, b.b10, h, i, j, h)
      && c.b01[i][j] == Dot(a.b00, b.b01, h, i, j, h) + Dot(a.b01, b.b11, h, i, j, h)
      && c.b10[i][j] == Dot(a.b10, b.b00, h, i, j, h) + Dot(a.b11, b.b10, h, i, j, h)
      && c.b11[i][j] == Dot(a.b10, b.b01, h, i, j, h) + Dot(a.b11, b.b11, h, i, j, h)
  {
    SevenCells(a, b, h, i, j);
    CellsAfter3(a, b, h, i, j);
    CellsAfter7(a, b, h, i, j);
  }

  lemma CellsAfter3(a: Blocks, b: Blocks, h: nat, i: nat, j: nat)
    requires AllSquare(a, h) && AllSquare(b, h) && i < h && j < h
    ensures var c := Accumulated(a, b, h, 3);
      && c.b00[i][j] == M(a, b, h, 1)[i][j]
      && c.b01[i][j] == M(a, b, h, 3)[i][j]
      && c.b10[i][j] == M(a, b, h, 2)[i][j]
      && c.b11[i][j] == M(a, b, h, 1)[i][j] - M(a, b, h, 2)[i][j] + M(a, b, h, 3)[i][j]
  {
    var c0, c1, c2 := Accumulated(a, b, h, 0), Accumulated(a, b, h, 1), Accumulated(a, b, h, 2);
  }

  lemma CellsAfter7(a: Blocks, b: Blocks, h: nat, i: nat, j: nat)
    requires AllSquare(a, h) && AllSquare(b, h) && i < h && j < h
    ensures var c, d := Accumulated(a, b, h, 3), Accumulated(a, b, h, 7);
      && d.b00[i][j] == c.b00[i][j] + M(a, b, h, 4)[i][j] - M(a, b, h, 5)[i][j] + M(a, b, h, 7)[i][j]
      && d.b01[i][j] == c.b01[i][j] + M(a, b, h, 5)[i][j]
      && d.b10[i][j] == c.b10[i][j] + M(a, b, h, 4)[i][j]
      && d.b11[i][j] == c.b11[i][j] + M(a, b, h, 6)[i][j]
  {
    var c4, c5, c6 := Accumulated(a, b, h, 4), Accumulated(a, b, h, 5), Accumulated(a, b, h, 6);
  }
}
