/** Strassen multiplication in place, over windows onto shared flat storage. */
module Strassen {
  import opened Numbers
  import opened Matrices

  /** A square of integers kept row by row in one shared array. */
  datatype MatrixData = MatrixData(dimension: nat, cells: array<int>) {
    ghost predicate Valid() {
      cells.Length == dimension * dimension
    }

    ghost function Cell(r: nat, c: nat): int
      requires Valid() && r < dimension && c < dimension
      reads cells
    {
      CellInside(dimension, r, c);
      cells[c + dimension * r]
    }
  }

  lemma CellInside(d: nat, r: nat, c: nat)
    requires r < d && c < d
    ensures 0 <= c + d * r < d * d
  {
    assert d * r <= d * (d - 1);
  }

  lemma RowsOrdered(d: nat, r: nat, c: nat, r': nat, c': nat)
    requires r < r' && c < d
    ensures c + d * r < c' + d * r'
  {
    assert d * (r + 1) <= d * r';
  }

  lemma CellsDistinct(d: nat, r: nat, c: nat, r': nat, c': nat)
    requires c < d && c' < d && c + d * r == c' + d * r'
    ensures r == r' && c == c'
  {
    if r < r' {
      RowsOrdered(d, r, c, r', c');
    } else if r' < r {
      RowsOrdered(d, r', c', r, c);
    }
  }

  /** A window whose top-left corner is cell (i, j) of its storage. */
  datatype View = View(data: MatrixData, i: nat, j: nat, dimension: nat) {
    ghost predicate Valid() {
      data.Valid()
    }

    /** Every cell of the window exists in the storage. */
    ghost predicate Fits() {
      Valid() && i + dimension <= data.dimension && j + dimension <= data.dimension
    }

    predicate InStorage(x: nat, y: nat) {
      x < dimension && y < dimension && i + x < data.dimension && j + y < data.dimension
    }

    /** The cell (x, y) of the window; cells outside the storage are padding and hold 0. */
    ghost function At(x: nat, y: nat): int
      requires Valid()
      reads data.cells
    {
      if InStorage(x, y) then data.Cell(i + x, j + y) else 0
    }

    ghost function Contents(): (m: Matrix)
      requires Valid()
      reads data.cells
      ensures IsSquare(m, dimension)
    {
      seq(dimension, x requires 0 <= x < dimension reads data.cells =>
        seq(dimension, y requires 0 <= y < dimension reads data.cells => At(x, y)))
    }

    method Get(x: nat, y: nat) returns (value: int)
      requires Valid()
      ensures value == At(x, y)
    {
      if InStorage(x, y) {
        CellInside(data.dimension, i + x, j + y);
        return data.cells[(j + y) + data.dimension * (i + x)];
      }
      return 0;
    }

    /** Quadrant (x, y); its side is the half rounded up. */
    function Sub(x: nat, y: nat): View {
      var half := CeilHalf(dimension);
      View(data, i + x * half, j + y * half, half)
    }
  }

  function CeilHalf(x: nat): nat { x / 2 + x % 2 }

  /** Two windows that share no cell. */
  ghost predicate Apart(v: View, w: View) {
    || v.data.cells != w.data.cells
    || (v.data == w.data && (v.i + v.dimension <= w.i || w.i + w.dimension <= v.i
                             || v.j + v.dimension <= w.j || w.j + w.dimension <= v.j))
  }

  lemma ContentsFromCells(v: View, m: Matrix)
    requires v.Valid() && IsSquare(m, v.dimension)
    requires forall x, y :: 0 <= x < v.dimension && 0 <= y < v.dimension ==> v.At(x, y) == m[x][y]
    ensures v.Contents() == m
  {
    SameCells(v.Contents(), m, v.dimension);
  }

  method Put(c: View, x: nat, y: nat, value: int)
    requires c.Fits() && x < c.dimension && y < c.dimension
    modifies c.data.cells
    ensures forall x', y' :: 0 <= x' < c.dimension && 0 <= y' < c.dimension ==>
      c.At(x', y') == if x' == x && y' == y then value else old(c.At(x', y'))
    ensures forall v: View :: old(allocated(v)) && v.Valid() && Apart(v, c) ==> v.Contents() == old(v.Contents())
  {
    var d := c.data.dimension;
    CellInside(d, c.i + x, c.j + y);
    c.data.cells[(c.j + y) + d * (c.i + x)] := value;
    forall r, s | 0 <= r < d && 0 <= s < d && !(r == c.i + x && s == c.j + y)
      ensures c.data.Cell(r, s) == old(c.data.Cell(r, s))
    {
      if s + d * r == (c.j + y) + d * (c.i + x) {
        CellsDistinct(d, r, s, c.i + x, c.j + y);
      }
      CellInside(d, r, s);
    }
    forall v: View | old(allocated(v)) && v.Valid() && Apart(v, c)
      ensures v.Contents() == old(v.Contents())
    {
      ContentsFromCells(v, old(v.Contents()));
    }
  }

  /** A window may be read while `c` is written when it is `c` itself or shares no cell with it. */
  ghost predicate Usable(v: View, c: View) {
    v == c || Apart(v, c)
  }

  method Clear(c: View)
    requires c.Fits()
    modifies c.data.cells
    ensures c.Contents() == Zero(c.dimension)
    ensures forall v: View :: old(allocated(v)) && v.Valid() && Apart(v, c) ==> v.Contents() == old(v.Contents())
  {
    var n := c.dimension;
    for j := 0 to n
      invariant forall x, y :: 0 <= x < n && 0 <= y < j ==> c.At(x, y) == 0
      invariant forall v: View :: old(allocated(v)) && v.Valid() && Apart(v, c) ==> v.Contents() == old(v.Contents())
    {
      for i := 0 to n
        invariant forall x, y :: 0 <= x < n && 0 <= y < n && (y < j || (y == j && x < i)) ==> c.At(x, y) == 0
        invariant forall v: View :: old(allocated(v)) && v.Valid() && Apart(v, c) ==> v.Contents() == old(v.Contents())
      {
        Put(c, i, j, 0);
      }
    }
    ContentsFromCells(c, Zero(n));
  }

  method Sum(a: View, b: View, c: View)
    requires a.Valid() && b.Valid() && c.Fits() && a.dimension == b.dimension == c.dimension
    requires Usable(a, c) && Usable(b, c)
    modifies c.data.cells
    ensures c.Contents() == Plus(old(a.Contents()), old(b.Contents()), c.dimension)
    ensures forall v: View :: old(allocated(v)) && v.Valid() && Apart(v, c) ==> v.Contents() == old(v.Contents())
  {
    var n := c.dimension;
    ghost var goal := Plus(a.Contents(), b.Contents(), n);
    for j := 0 to n
      invariant forall x, y :: 0 <= x < n && 0 <= y < n ==> c.At(x, y) == if y < j then goal[x][y] else old(c.At(x, y))
      invariant forall v: View :: old(allocated(v)) && v.Valid() && Apart(v, c) ==> v.Contents() == old(v.Contents())
    {
      for i := 0 to n
        invariant forall x, y :: 0 <= x < n && 0 <= y < n ==>
          c.At(x, y) == if y < j || (y == j && x < i) then goal[x][y] else old(c.At(x, y))
        invariant forall v: View :: old(allocated(v)) && v.Valid() && Apart(v, c) ==> v.Contents() == old(v.Contents())
      {
        var s := a.Get(i, j);
        var t := b.Get(i, j);
        assert s == old(a.Contents())[i][j] by { assert a == c || s == a.Contents()[i][j]; }
        assert t == old(b.Contents())[i][j] by { assert b == c || t == b.Contents()[i][j]; }
        Put(c, i, j, s + t);
      }
    }
    ContentsFromCells(c, goal);
  }

  method Subtract(a: View, b: View, c: View)
    requires a.Valid() && b.Valid() && c.Fits() && a.dimension == b.dimension == c.dimension
    requires Usable(a, c) && Usable(b, c)
    modifies c.data.cells
    ensures c.Contents() == Minus(old(a.Contents()), old(b.Contents()), c.dimension)
    ensures forall v: View :: old(allocated(v)) && v.Valid() && Apart(v, c) ==> v.Contents() == old(v.Contents())
  {
    var n := c.dimension;
    ghost var goal := Minus(a.Contents(), b.Contents(), n);
    for j := 0 to n
      invariant forall x, y :: 0 <= x < n && 0 <= y < n ==> c.At(x, y) == if y < j then goal[x][y] else old(c.At(x, y))
      invariant forall v: View :: old(allocated(v)) && v.Valid() && Apart(v, c) ==> v.Contents() == old(v.Contents())
    {
      for i := 0 to n
        invariant forall x, y :: 0 <= x < n && 0 <= y < n ==>
          c.At(x, y) == if y < j || (y == j && x < i) then goal[x][y] else old(c.At(x, y))
        invariant forall v: View :: old(allocated(v)) && v.Valid() && Apart(v, c) ==> v.Contents() == old(v.Contents())
      {
        var s := a.Get(i, j);
        var t := b.Get(i, j);
        assert s == old(a.Contents())[i][j] by { assert a == c || s == a.Contents()[i][j]; }
        assert t == old(b.Contents())[i][j] by { assert b == c || t == b.Contents()[i][j]; }
        Put(c, i, j, s - t);
      }
    }
    ContentsFromCells(c, goal);
  }

  /** Adds the product of `a` and `b` to `c`, one rank-one update per k. */
  method LinearMul(a: View, b: View, c: View)
    requires a.Valid() && b.Valid() && c.Fits() && a.dimension == b.dimension == c.dimension
    requires Apart(a, c) && Apart(b, c)
    modifies c.data.cells
    ensures c.Contents()
         == Plus(old(c.Contents()), Product(old(a.Contents()), old(b.Contents()), c.dimension), c.dimension)
    ensures forall v: View :: old(allocated(v)) && v.Valid() && Apart(v, c) ==> v.Contents() == old(v.Contents())
  {
    var n := c.dimension;
    ghost var am, bm, cm := a.Contents(), b.Contents(), c.Contents();
    for k := 0 to n
      invariant PartialProduct(c, am, bm, cm, 0, k)
      invariant forall v: View :: old(allocated(v)) && v.Valid() && Apart(v, c) ==> v.Contents() == old(v.Contents())
    {
      AddLayer(a, b, c, k, am, bm, cm);
    }
    ContentsFromCells(c, Plus(cm, Product(am, bm, n), n));
  }

  /** `c` holds cm plus the first k terms of every inner product, and one term more in rows before i. */
  ghost predicate PartialProduct(c: View, am: Matrix, bm: Matrix, cm: Matrix, i: nat, k: nat)
    requires c.Valid() && IsSquare(am, c.dimension) && IsSquare(bm, c.dimension) && IsSquare(cm, c.dimension)
    requires k < c.dimension || (k == c.dimension && i == 0)
    reads c.data.cells
  {
    forall x, y :: 0 <= x < c.dimension && 0 <= y < c.dimension ==>
      c.At(x, y) == cm[x][y] + Dot(am, bm, c.dimension, x, y, if x < i then k + 1 else k)
  }

  /** The two inner loops: `c` gains the products of column k of `a` with row k of `b`. */
  method AddLayer(a: View, b: View, c: View, k: nat, ghost am: Matrix, ghost bm: Matrix, ghost cm: Matrix)
    requires a.Valid() && b.Valid() && c.Fits() && a.dimension == b.dimension == c.dimension
    requires Apart(a, c) && Apart(b, c) && k < c.dimension
    requires am == a.Contents() && bm == b.Contents() && IsSquare(cm, c.dimension)
    requires PartialProduct(c, am, bm, cm, 0, k)
    modifies c.data.cells
    ensures PartialProduct(c, am, bm, cm, 0, k + 1)
    ensures forall v: View :: old(allocated(v)) && v.Valid() && Apart(v, c) ==> v.Contents() == old(v.Contents())
  {
    for i := 0 to c.dimension
      invariant PartialProduct(c, am, bm, cm, i, k)
      invariant forall v: View :: old(allocated(v)) && v.Valid() && Apart(v, c) ==> v.Contents() == old(v.Contents())
    {
      var r := a.Get(i, k);
      assert r == a.Contents()[i][k];
      AddRow(a, b, c, i, k, r, am, bm, cm);
    }
  }

  /** In the middle of row i: cells before column j already hold one term more. */
  ghost predicate PartialRow(c: View, am: Matrix, bm: Matrix, cm: Matrix, i: nat, j: nat, k: nat)
    requires c.Valid() && IsSquare(am, c.dimension) && IsSquare(bm, c.dimension) && IsSquare(cm, c.dimension)
    requires k < c.dimension
    reads c.data.cells
  {
    forall x, y :: 0 <= x < c.dimension && 0 <= y < c.dimension ==>
      c.At(x, y) == cm[x][y] + Dot(am, bm, c.dimension, x, y, if x < i || (x == i && y < j) then k + 1 else k)
  }

  /** The innermost loop: row i of `c` gains r times row k of `b`. */
  method AddRow(a: View, b: View, c: View, i: nat, k: nat, r: int, ghost am: Matrix, ghost bm: Matrix, ghost cm: Matrix)
    requires a.Valid() && b.Valid() && c.Fits() && a.dimension == b.dimension == c.dimension
    requires Apart(a, c) && Apart(b, c) && i < c.dimension && k < c.dimension
    requires am == a.Contents() && bm == b.Contents() && IsSquare(cm, c.dimension) && r == am[i][k]
    requires PartialProduct(c, am, bm, cm, i, k)
    modifies c.data.cells
    ensures PartialProduct(c, am, bm, cm, i + 1, k)
    ensures forall v: View :: old(allocated(v)) && v.Valid() && Apart(v, c) ==> v.Contents() == old(v.Contents())
  {
    for j := 0 to c.dimension
      invariant PartialRow(c, am, bm, cm, i, j, k)
      invariant forall v: View :: old(allocated(v)) && v.Valid() && Apart(v, c) ==> v.Contents() == old(v.Contents())
    {
      AddCell(b, c, i, j, k, r, am, bm, cm);
    }
  }

  method AddCell(b: View, c: View, i: nat, j: nat, k: nat, r: int, ghost am: Matrix, ghost bm: Matrix, ghost cm: Matrix)
    requires b.Valid() && c.Fits() && b.dimension == c.dimension
    requires i < c.dimension && j < c.dimension && k < c.dimension
    requires IsSquare(am, c.dimension) && bm == b.Contents() && IsSquare(cm, c.dimension) && r == am[i][k]
    requires PartialRow(c, am, bm, cm, i, j, k)
    modifies c.data.cells
    ensures PartialRow(c, am, bm, cm, i, j + 1, k)
    ensures forall v: View :: old(allocated(v)) && v.Valid() && Apart(v, c) ==> v.Contents() == old(v.Contents())
  {
    var s := b.Get(k, j);
    var t := c.Get(i, j);
    ghost var n := c.dimension;
    assert s == bm[k][j];
    assert Dot(am, bm, n, i, j, k + 1) == Dot(am, bm, n, i, j, k) + r * s;
    Put(c, i, j, t + r * s);
    forall x, y | 0 <= x < n && 0 <= y < n
      ensures c.At(x, y) == cm[x][y] + Dot(am, bm, n, x, y, if x < i || (x == i && y < j + 1) then k + 1 else k)
    {
      assert old(c.At(x, y)) == cm[x][y] + Dot(am, bm, n, x, y, if x < i || (x == i && y < j) then k + 1 else k);
    }
  }

  // ----- the recursion -----

  /** What every call of the recursion is handed: equal sides, and targets that share no cell with anything else.
      `a` and `b` may overlap each other, and may lie in a quadrant of an outer call's scratch. */
  ghost predicate Layout(a: View, b: View, c: View, s: View) {
    && a.Valid() && b.Valid() && c.Fits() && s.Fits()
    && a.dimension == b.dimension == c.dimension == s.dimension
    && Apart(a, c) && Apart(b, c) && Apart(a, s) && Apart(b, s) && Apart(c, s)
  }

  lemma SubContents(v: View, h: nat, x: nat, y: nat)
    requires v.Valid() && v.dimension == 2 * h && x < 2 && y < 2
    ensures v.Sub(x, y).Valid() && v.Sub(x, y).dimension == h
    ensures v.Sub(x, y).Contents() == Block(v.Contents(), h, x, y)
  {
    var q, m := v.Sub(x, y), Block(v.Contents(), h, x, y);
    SubPlace(v, h, x, y);
    forall i, j | 0 <= i < h && 0 <= j < h
      ensures q.At(i, j) == m[i][j]
    {
      assert m[i][j] == v.At(Off(h, x) + i, Off(h, y) + j);
    }
    ContentsFromCells(q, m);
  }

  /** Quadrants of windows that share no cell share none either. */
  lemma SubsApart(v: View, w: View, h: nat, x: nat, y: nat, x': nat, y': nat)
    requires v.dimension == 2 * h == w.dimension && x < 2 && y < 2 && x' < 2 && y' < 2 && Apart(v, w)
    ensures Apart(v.Sub(x, y), w.Sub(x', y'))
  {
    SubPlace(v, h, x, y);
    SubPlace(w, h, x', y');
  }

  /** Two different quadrants of one window share no cell. */
  lemma OwnSubsApart(v: View, h: nat, x: nat, y: nat, x': nat, y': nat)
    requires v.dimension == 2 * h && x < 2 && y < 2 && x' < 2 && y' < 2 && (x, y) != (x', y')
    ensures Apart(v.Sub(x, y), v.Sub(x', y'))
  {
    SubPlace(v, h, x, y);
    SubPlace(v, h, x', y');
  }

  lemma SubPlace(v: View, h: nat, x: nat, y: nat)
    requires v.dimension == 2 * h && x < 2 && y < 2
    ensures v.Sub(x, y) == View(v.data, v.i + Off(h, x), v.j + Off(h, y), h)
  {
  }

  datatype Quads = Quads(q00: View, q01: View, q10: View, q11: View) {
    ghost predicate Valid(h: nat) {
      && q00.Valid() && q01.Valid() && q10.Valid() && q11.Valid()
      && q00.dimension == q01.dimension == q10.dimension == q11.dimension == h
    }

    ghost predicate Fits() {
      q00.Fits() && q01.Fits() && q10.Fits() && q11.Fits()
    }

    ghost function Contents(h: nat): (r: Blocks)
      requires Valid(h)
      reads q00.data.cells, q01.data.cells, q10.data.cells, q11.data.cells
      ensures AllSquare(r, h)
    {
      Blocks(q00.Contents(), q01.Contents(), q10.Contents(), q11.Contents())
    }

    ghost predicate Clear(v: View) {
      Apart(v, q00) && Apart(v, q01) && Apart(v, q10) && Apart(v, q11)
    }

    ghost predicate ClearOf(w: Quads) {
      w.Clear(q00) && w.Clear(q01) && w.Clear(q10) && w.Clear(q11)
    }

    /** No two of the four share a cell. */
    ghost predicate Disjoint() {
      && Apart(q00, q01) && Apart(q00, q10) && Apart(q00, q11) && Apart(q01, q10) && Apart(q01, q11) && Apart(q10, q11)
      && Apart(q01, q00) && Apart(q10, q00) && Apart(q11, q00) && Apart(q10, q01) && Apart(q11, q01) && Apart(q11, q10)
    }
  }

  function Quarter(v: View): Quads {
    Quads(v.Sub(0, 0), v.Sub(0, 1), v.Sub(1, 0), v.Sub(1, 1))
  }

  lemma QuarterContents(v: View, h: nat)
    requires v.Valid() && v.dimension == 2 * h
    ensures Quarter(v).Valid(h) && Quarter(v).Contents(h) == Split(v.Contents(), h)
  {
    SubContents(v, h, 0, 0);
    SubContents(v, h, 0, 1);
    SubContents(v, h, 1, 0);
    SubContents(v, h, 1, 1);
  }

  /** The footprint of one level of the recursion: the targets c and s share no cell with anything. */
  ghost predicate Ready(a: Quads, b: Quads, c: Quads, s: Quads, h: nat) {
    && a.Valid(h) && b.Valid(h) && c.Valid(h) && s.Valid(h) && c.Fits() && s.Fits() && c.Disjoint() && s.Disjoint()
    && a.ClearOf(c) && a.ClearOf(s) && b.ClearOf(c) && b.ClearOf(s) && c.ClearOf(s) && s.ClearOf(c)
  }

  lemma LayoutSplits(a: View, b: View, c: View, s: View, h: nat)
    requires Layout(a, b, c, s) && c.dimension == 2 * h
    ensures Ready(Quarter(a), Quarter(b), Quarter(c), Quarter(s), h)
    ensures Quarter(a).Contents(h) == Split(a.Contents(), h) && Quarter(b).Contents(h) == Split(b.Contents(), h)
    ensures Quarter(c).Contents(h) == Split(c.Contents(), h)
  {
    QuarterContents(a, h);
    QuarterContents(b, h);
    QuarterContents(c, h);
    QuarterContents(s, h);
    QuartersClear(a, c, h);
    QuartersClear(a, s, h);
    QuartersClear(b, c, h);
    QuartersClear(b, s, h);
    QuartersClear(c, s, h);
    QuartersClear(s, c, h);
    QuartersDisjoint(c, h);
    QuartersDisjoint(s, h);
  }

  lemma QuartersClear(v: View, w: View, h: nat)
    requires v.dimension == 2 * h == w.dimension && Apart(v, w)
    ensures Quarter(v).ClearOf(Quarter(w))
  {
    forall x, y, x', y' | 0 <= x < 2 && 0 <= y < 2 && 0 <= x' < 2 && 0 <= y' < 2
      ensures Apart(v.Sub(x, y), w.Sub(x', y'))
    {
      SubsApart(v, w, h, x, y, x', y');
    }
  }

  lemma QuartersDisjoint(v: View, h: nat)
    requires v.dimension == 2 * h
    ensures Quarter(v).Disjoint()
    ensures v.Fits() ==> Quarter(v).Fits()
  {
    forall x, y, x', y' | 0 <= x < 2 && 0 <= y < 2 && 0 <= x' < 2 && 0 <= y' < 2 && (x, y) != (x', y')
      ensures Apart(v.Sub(x, y), v.Sub(x', y'))
    {
      OwnSubsApart(v, h, x, y, x', y');
    }
  }

  lemma ClearOfQuarters(w: View, h: nat)
    requires w.dimension == 2 * h
    ensures forall v: View :: Apart(v, w) ==> Quarter(w).Clear(v)
  {
  }

  // The scratch quadrants: q00 takes the product, q01 is scratch for the recursive call, q10 and q11 take the sums.

  method SumBySum(l: View, l': View, r: View, r': View, s: Quads, h: nat, cutoff: nat)
    requires s.Valid(h) && s.Fits() && s.Disjoint() && h > 0
    requires l.Valid() && l'.Valid() && r.Valid() && r'.Valid()
    requires l.dimension == l'.dimension == r.dimension == r'.dimension == h
    requires s.Clear(l) && s.Clear(l') && s.Clear(r) && s.Clear(r')
    modifies s.q00.data.cells, s.q01.data.cells, s.q10.data.cells, s.q11.data.cells
    ensures s.q00.Contents()
         == Product(Plus(old(l.Contents()), old(l'.Contents()), h), Plus(old(r.Contents()), old(r'.Contents()), h), h)
    ensures forall v: View :: old(allocated(v)) && v.Valid() && s.Clear(v) ==> v.Contents() == old(v.Contents())
    decreases h, 1
  {
    Sum(l, l', s.q10);
    Sum(r, r', s.q11);
    Recurse(s.q10, s.q11, s.q00, s.q01, cutoff);
  }

  method DifferenceBySum(l: View, l': View, r: View, r': View, s: Quads, h: nat, cutoff: nat)
    requires s.Valid(h) && s.Fits() && s.Disjoint() && h > 0
    requires l.Valid() && l'.Valid() && r.Valid() && r'.Valid()
    requires l.dimension == l'.dimension == r.dimension == r'.dimension == h
    requires s.Clear(l) && s.Clear(l') && s.Clear(r) && s.Clear(r')
    modifies s.q00.data.cells, s.q01.data.cells, s.q10.data.cells, s.q11.data.cells
    ensures s.q00.Contents()
         == Product(Minus(old(l.Contents()), old(l'.Contents()), h), Plus(old(r.Contents()), old(r'.Contents()), h), h)
    ensures forall v: View :: old(allocated(v)) && v.Valid() && s.Clear(v) ==> v.Contents() == old(v.Contents())
    decreases h, 1
  {
    Subtract(l, l', s.q10);
    Sum(r, r', s.q11);
    Recurse(s.q10, s.q11, s.q00, s.q01, cutoff);
  }

  method SumByWhole(l: View, l': View, r: View, s: Quads, h: nat, cutoff: nat)
    requires s.Valid(h) && s.Fits() && s.Disjoint() && h > 0
    requires l.Valid() && l'.Valid() && r.Valid()
    requires l.dimension == l'.dimension == r.dimension == h
    requires s.Clear(l) && s.Clear(l') && s.Clear(r)
    modifies s.q00.data.cells, s.q01.data.cells, s.q10.data.cells, s.q11.data.cells
    ensures s.q00.Contents() == Product(Plus(old(l.Contents()), old(l'.Contents()), h), old(r.Contents()), h)
    ensures forall v: View :: old(allocated(v)) && v.Valid() && s.Clear(v) ==> v.Contents() == old(v.Contents())
    decreases h, 1
  {
    Sum(l, l', s.q10);
    Recurse(s.q10, r, s.q00, s.q01, cutoff);
  }

  method WholeByDifference(l: View, r: View, r': View, s: Quads, h: nat, cutoff: nat)
    requires s.Valid(h) && s.Fits() && s.Disjoint() && h > 0
    requires l.Valid() && r.Valid() && r'.Valid()
    requires l.dimension == r.dimension == r'.dimension == h
    requires s.Clear(l) && s.Clear(r) && s.Clear(r')
    modifies s.q00.data.cells, s.q01.data.cells, s.q10.data.cells, s.q11.data.cells
    ensures s.q00.Contents() == Product(old(l.Contents()), Minus(old(r.Contents()), old(r'.Contents()), h), h)
    ensures forall v: View :: old(allocated(v)) && v.Valid() && s.Clear(v) ==> v.Contents() == old(v.Contents())
    decreases h, 1
  {
    Subtract(r, r', s.q10);
    Recurse(l, s.q10, s.q00, s.q01, cutoff);
  }

  method Step1(a: Quads, b: Quads, c: Quads, s: Quads, h: nat, cutoff: nat)
    requires Ready(a, b, c, s, h) && h > 0
    modifies s.q00.data.cells, s.q01.data.cells, s.q10.data.cells, s.q11.data.cells
    modifies c.q00.data.cells, c.q01.data.cells, c.q10.data.cells, c.q11.data.cells
    ensures a.Contents(h) == old(a.Contents(h)) && b.Contents(h) == old(b.Contents(h))
    ensures c.Contents(h) == AddProduct(old(c.Contents(h)), a.Contents(h), b.Contents(h), h, 1)
    ensures forall v: View :: old(allocated(v)) && v.Valid() && c.Clear(v) && s.Clear(v) ==>
      v.Contents() == old(v.Contents())
    decreases h, 2
  {
    ghost var am, bm := a.Contents(h), b.Contents(h);
    var m := s.q00;
    SumBySum(a.q00, a.q11, b.q00, b.q11, s, h, cutoff);
    assert m.Contents() == M(am, bm, h, 1);
    Sum(c.q00, m, c.q00);
    Sum(c.q11, m, c.q11);
  }

  method Step2(a: Quads, b: Quads, c: Quads, s: Quads, h: nat, cutoff: nat)
    requires Ready(a, b, c, s, h) && h > 0
    modifies s.q00.data.cells, s.q01.data.cells, s.q10.data.cells, s.q11.data.cells
    modifies c.q00.data.cells, c.q01.data.cells, c.q10.data.cells, c.q11.data.cells
    ensures a.Contents(h) == old(a.Contents(h)) && b.Contents(h) == old(b.Contents(h))
    ensures c.Contents(h) == AddProduct(old(c.Contents(h)), a.Contents(h), b.Contents(h), h, 2)
    ensures forall v: View :: old(allocated(v)) && v.Valid() && c.Clear(v) && s.Clear(v) ==>
      v.Contents() == old(v.Contents())
    decreases h, 2
  {
    ghost var am, bm := a.Contents(h), b.Contents(h);
    var m := s.q00;
    SumByWhole(a.q10, a.q11, b.q00, s, h, cutoff);
    assert m.Contents() == M(am, bm, h, 2);
    Sum(c.q10, m, c.q10);
    Subtract(c.q11, m, c.q11);
  }

  method Step3(a: Quads, b: Quads, c: Quads, s: Quads, h: nat, cutoff: nat)
    requires Ready(a, b, c, s, h) && h > 0
    modifies s.q00.data.cells, s.q01.data.cells, s.q10.data.cells, s.q11.data.cells
    modifies c.q00.data.cells, c.q01.data.cells, c.q10.data.cells, c.q11.data.cells
    ensures a.Contents(h) == old(a.Contents(h)) && b.Contents(h) == old(b.Contents(h))
    ensures c.Contents(h) == AddProduct(old(c.Contents(h)), a.Contents(h), b.Contents(h), h, 3)
    ensures forall v: View :: old(allocated(v)) && v.Valid() && c.Clear(v) && s.Clear(v) ==>
      v.Contents() == old(v.Contents())
    decreases h, 2
  {
    ghost var am, bm := a.Contents(h), b.Contents(h);
    var m := s.q00;
    WholeByDifference(a.q00, b.q01, b.q11, s, h, cutoff);
    assert m.Contents() == M(am, bm, h, 3);
    Sum(c.q01, m, c.q01);
    Sum(c.q11, m, c.q11);
  }

  method Step4(a: Quads, b: Quads, c: Quads, s: Quads, h: nat, cutoff: nat)
    requires Ready(a, b, c, s, h) && h > 0
    modifies s.q00.data.cells, s.q01.data.cells, s.q10.data.cells, s.q11.data.cells
    modifies c.q00.data.cells, c.q01.data.cells, c.q10.data.cells, c.q11.data.cells
    ensures a.Contents(h) == old(a.Contents(h)) && b.Contents(h) == old(b.Contents(h))
    ensures c.Contents(h) == AddProduct(old(c.Contents(h)), a.Contents(h), b.Contents(h), h, 4)
    ensures forall v: View :: old(allocated(v)) && v.Valid() && c.Clear(v) && s.Clear(v) ==>
      v.Contents() == old(v.Contents())
    decreases h, 2
  {
    ghost var am, bm := a.Contents(h), b.Contents(h);
    var m := s.q00;
    WholeByDifference(a.q11, b.q10, b.q00, s, h, cutoff);
    assert m.Contents() == M(am, bm, h, 4);
    Sum(c.q00, m, c.q00);
    Sum(c.q10, m, c.q10);
  }

  method Step5(a: Quads, b: Quads, c: Quads, s: Quads, h: nat, cutoff: nat)
    requires Ready(a, b, c, s, h) && h > 0
    modifies s.q00.data.cells, s.q01.data.cells, s.q10.data.cells, s.q11.data.cells
    modifies c.q00.data.cells, c.q01.data.cells, c.q10.data.cells, c.q11.data.cells
    ensures a.Contents(h) == old(a.Contents(h)) && b.Contents(h) == old(b.Contents(h))
    ensures c.Contents(h) == AddProduct(old(c.Contents(h)), a.Contents(h), b.Contents(h), h, 5)
    ensures forall v: View :: old(allocated(v)) && v.Valid() && c.Clear(v) && s.Clear(v) ==>
      v.Contents() == old(v.Contents())
    decreases h, 2
  {
    ghost var am, bm := a.Contents(h), b.Contents(h);
    var m := s.q00;
    SumByWhole(a.q00, a.q01, b.q11, s, h, cutoff);
    assert m.Contents() == M(am, bm, h, 5);
    Subtract(c.q00, m, c.q00);
    Sum(c.q01, m, c.q01);
  }

  method Step6(a: Quads, b: Quads, c: Quads, s: Quads, h: nat, cutoff: nat)
    requires Ready(a, b, c, s, h) && h > 0
    modifies s.q00.data.cells, s.q01.data.cells, s.q10.data.cells, s.q11.data.cells
    modifies c.q00.data.cells, c.q01.data.cells, c.q10.data.cells, c.q11.data.cells
    ensures a.Contents(h) == old(a.Contents(h)) && b.Contents(h) == old(b.Contents(h))
    ensures c.Contents(h) == AddProduct(old(c.Contents(h)), a.Contents(h), b.Contents(h), h, 6)
    ensures forall v: View :: old(allocated(v)) && v.Valid() && c.Clear(v) && s.Clear(v) ==>
      v.Contents() == old(v.Contents())
    decreases h, 2
  {
    ghost var am, bm := a.Contents(h), b.Contents(h);
    var m := s.q00;
    DifferenceBySum(a.q10, a.q00, b.q00, b.q01, s, h, cutoff);
    assert m.Contents() == M(am, bm, h, 6);
    Sum(c.q11, m, c.q11);
  }

  method Step7(a: Quads, b: Quads, c: Quads, s: Quads, h: nat, cutoff: nat)
    requires Ready(a, b, c, s, h) && h > 0
    modifies s.q00.data.cells, s.q01.data.cells, s.q10.data.cells, s.q11.data.cells
    modifies c.q00.data.cells, c.q01.data.cells, c.q10.data.cells, c.q11.data.cells
    ensures a.Contents(h) == old(a.Contents(h)) && b.Contents(h) == old(b.Contents(h))
    ensures c.Contents(h) == AddProduct(old(c.Contents(h)), a.Contents(h), b.Contents(h), h, 7)
    ensures forall v: View :: old(allocated(v)) && v.Valid() && c.Clear(v) && s.Clear(v) ==>
      v.Contents() == old(v.Contents())
    decreases h, 2
  {
    ghost var am, bm := a.Contents(h), b.Contents(h);
    var m := s.q00;
    DifferenceBySum(a.q01, a.q11, b.q10, b.q11, s, h, cutoff);
    assert m.Contents() == M(am, bm, h, 7);
    Sum(c.q00, m, c.q00);
  }

  /** Strassen's recursion: whatever `c` and the scratch `s` held, `c` ends as the product of `a` and `b`,
      and no cell outside `c` and `s` changes. */
  method Recurse(a: View, b: View, c: View, s: View, cutoff: nat)
    requires Layout(a, b, c, s)
    modifies c.data.cells, s.data.cells
    ensures c.Contents() == Product(old(a.Contents()), old(b.Contents()), c.dimension)
    ensures forall v: View :: old(allocated(v)) && v.Valid() && Apart(v, c) && Apart(v, s) ==>
      v.Contents() == old(v.Contents())
    decreases c.dimension, 0
  {
    ghost var am, bm := a.Contents(), b.Contents();
    Clear(c);
    if c.dimension % 2 == 1 || c.dimension <= cutoff {
      LinearMul(a, b, c);
      ZeroPlus(Product(am, bm, c.dimension), c.dimension);
      return;
    }
    assert c.dimension > 0;
    var h := CeilHalf(c.dimension);
    Blockwise(a, b, c, s, h, cutoff);
  }

  lemma ZeroPlus(m: Matrix, n: nat)
    requires IsSquare(m, n)
    ensures Plus(Zero(n), m, n) == m
  {
    SameCells(Plus(Zero(n), m, n), m, n);
  }

  method SevenSteps(a: Quads, b: Quads, c: Quads, s: Quads, h: nat, cutoff: nat)
    requires Ready(a, b, c, s, h) && h > 0 && c.Contents(h) == Accumulated(a.Contents(h), b.Contents(h), h, 0)
    modifies s.q00.data.cells, s.q01.data.cells, s.q10.data.cells, s.q11.data.cells
    modifies c.q00.data.cells, c.q01.data.cells, c.q10.data.cells, c.q11.data.cells
    ensures c.Contents(h) == Accumulated(old(a.Contents(h)), old(b.Contents(h)), h, 7)
    ensures forall v: View :: old(allocated(v)) && v.Valid() && c.Clear(v) && s.Clear(v) ==>
      v.Contents() == old(v.Contents())
    decreases h, 3
  {
    ghost var am, bm := a.Contents(h), b.Contents(h);
    Step1(a, b, c, s, h, cutoff);
    assert c.Contents(h) == Accumulated(am, bm, h, 1);
    Step2(a, b, c, s, h, cutoff);
    assert c.Contents(h) == Accumulated(am, bm, h, 2);
    Step3(a, b, c, s, h, cutoff);
    assert c.Contents(h) == Accumulated(am, bm, h, 3);
    Step4(a, b, c, s, h, cutoff);
    assert c.Contents(h) == Accumulated(am, bm, h, 4);
    Step5(a, b, c, s, h, cutoff);
    assert c.Contents(h) == Accumulated(am, bm, h, 5);
    Step6(a, b, c, s, h, cutoff);
    assert c.Contents(h) == Accumulated(am, bm, h, 6);
    Step7(a, b, c, s, h, cutoff);
    assert c.Contents(h) == Accumulated(am, bm, h, 7);
  }

  method Blockwise(a: View, b: View, c: View, s: View, h: nat, cutoff: nat)
    requires Layout(a, b, c, s) && c.dimension == 2 * h && h > 0
    requires c.Contents() == Zero(2 * h)
    modifies c.data.cells, s.data.cells
    ensures c.Contents() == Product(old(a.Contents()), old(b.Contents()), c.dimension)
    ensures forall v: View :: old(allocated(v)) && v.Valid() && Apart(v, c) && Apart(v, s) ==>
      v.Contents() == old(v.Contents())
    decreases h, 4
  {
    ghost var am, bm := a.Contents(), b.Contents();
    LayoutSplits(a, b, c, s, h);
    ClearOfQuarters(c, h);
    ClearOfQuarters(s, h);
    ZeroBlocks(h);
    SevenSteps(Quarter(a), Quarter(b), Quarter(c), Quarter(s), h, cutoff);
    QuarterContents(c, h);
    SevenProductsSuffice(am, bm, h);
    BlocksDetermine(c.Contents(), Product(am, bm, 2 * h), h);
  }

  lemma ZeroBlocks(h: nat)
    ensures Split(Zero(2 * h), h) == Blocks(Zero(h), Zero(h), Zero(h), Zero(h))
  {
    forall x, y | 0 <= x < 2 && 0 <= y < 2
      ensures Block(Zero(2 * h), h, x, y) == Zero(h)
    {
      var m := Block(Zero(2 * h), h, x, y);
      assert forall i, j :: 0 <= i < h && 0 <= j < h ==> m[i][j] == Zero(2 * h)[Off(h, x) + i][Off(h, y) + j];
      SameCells(m, Zero(h), h);
    }
  }

  // ----- entry point, padding and bounds -----

  /** The same corner with another side length, as strassen_mul gives its operands the side of `c`. */
  function Widen(v: View, n: nat): View {
    v.(dimension := n)
  }

  ghost predicate WholeStorage(v: View) {
    v.Valid() && v.i == 0 && v.j == 0 && v.dimension == v.data.dimension
  }

  /** `c` ends as the product of the operands widened to its side.  For operands that cover their storage and are no
      larger than `c`, the padding cells are 0, so the leading block of `c` is the plain product. */
  method StrassenMul(a: View, b: View, c: View, scratch: View, cutoff: nat)
    requires a.Valid() && b.Valid() && c.Fits() && scratch.Fits() && scratch.dimension == c.dimension
    requires a.data.cells != c.data.cells && b.data.cells != c.data.cells
    requires a.data.cells != scratch.data.cells && b.data.cells != scratch.data.cells
    requires Apart(c, scratch)
    modifies c.data.cells, scratch.data.cells
    ensures c.Contents()
         == Product(old(Widen(a, c.dimension).Contents()), old(Widen(b, c.dimension).Contents()), c.dimension)
    ensures WholeStorage(a) && WholeStorage(b) && a.dimension == b.dimension <= c.dimension ==>
      Widen(c, a.dimension).Contents() == Product(a.Contents(), b.Contents(), a.dimension)
    ensures a.Contents() == old(a.Contents()) && b.Contents() == old(b.Contents())
    ensures IsIdentity(old(Widen(a, c.dimension).Contents()), c.dimension) ==>
      c.Contents() == old(Widen(b, c.dimension).Contents())
    ensures IsIdentity(old(Widen(b, c.dimension).Contents()), c.dimension) ==>
      c.Contents() == old(Widen(a, c.dimension).Contents())
    ensures WholeStorage(a) && WholeStorage(b) && WholeStorage(c) && a.dimension == b.dimension == c.dimension ==>
      SingleTerms(old(a.data.cells[..]), old(b.data.cells[..]), c.data.cells[..], c.dimension)
  {
    var n := c.dimension;
    ghost var am, bm := Widen(a, n).Contents(), Widen(b, n).Contents();
    Recurse(Widen(a, n), Widen(b, n), c, scratch, cutoff);
    ProductWithIdentity(am, bm, n);
    if WholeStorage(a) && WholeStorage(b) && WholeStorage(c) && a.dimension == b.dimension == n {
      TermsOfProduct(a, b, c);
    }
    if WholeStorage(a) && WholeStorage(b) && a.dimension == b.dimension <= n {
      var d := a.dimension;
      assert Widen(a, n).Contents() == am && Widen(b, n).Contents() == bm;
      LeadingBlock(a, n);
      LeadingBlock(b, n);
      forall x, y | 0 <= x < d && 0 <= y < d
        ensures Widen(c, d).At(x, y) == Product(a.Contents(), b.Contents(), d)[x][y]
      {
        assert Widen(c, d).At(x, y) == c.At(x, y) == c.Contents()[x][y];
        DotOfPadded(am, bm, n, a.Contents(), b.Contents(), d, x, y, n);
      }
      ContentsFromCells(Widen(c, d), Product(a.Contents(), b.Contents(), d));
    }
  }

  /** Column j of row i of a square stored row by row. */
  ghost function Stored(cells: seq<int>, d: nat, i: nat, j: nat): int
    requires |cells| == d * d && i < d && j < d
  {
    CellInside(d, i, j);
    cells[d * i + j]
  }

  ghost predicate StoredOnlyAt(cells: seq<int>, d: nat, i: nat, t: nat)
    requires |cells| == d * d
  {
    i < d && t < d && forall s :: 0 <= s < d && s != t ==> Stored(cells, d, i, s) == 0
  }

  /** In the storage itself: where a row of the left operand holds a single entry, the row of the result is that entry
      times a row of the right operand. */
  ghost predicate SingleTerms(a: seq<int>, b: seq<int>, c: seq<int>, d: nat)
    requires |a| == |b| == |c| == d * d
  {
    forall i: nat, t: nat, j: nat :: StoredOnlyAt(a, d, i, t) && j < d ==>
      Stored(c, d, i, j) == Stored(a, d, i, t) * Stored(b, d, t, j)
  }

  lemma StoredContents(v: View, i: nat, j: nat)
    requires WholeStorage(v) && i < v.dimension && j < v.dimension
    ensures v.Contents()[i][j] == Stored(v.data.cells[..], v.dimension, i, j)
  {
    CellInside(v.dimension, i, j);
    assert v.Contents()[i][j] == v.At(i, j) == v.data.Cell(i, j);
  }

  lemma TermOfProduct(a: View, b: View, c: View, i: nat, t: nat, j: nat)
    requires WholeStorage(a) && WholeStorage(b) && WholeStorage(c) && a.dimension == b.dimension == c.dimension
    requires c.Contents() == Product(a.Contents(), b.Contents(), c.dimension)
    requires StoredOnlyAt(a.data.cells[..], c.dimension, i, t) && j < c.dimension
    ensures Stored(c.data.cells[..], c.dimension, i, j)
         == Stored(a.data.cells[..], c.dimension, i, t) * Stored(b.data.cells[..], c.dimension, t, j)
  {
    forall s: nat | s < c.dimension && s != t
      ensures a.Contents()[i][s] == 0
    {
      StoredContents(a, i, s);
    }
    ProductOfOne(a.Contents(), b.Contents(), c.dimension, i, j, t);
    StoredContents(a, i, t);
    StoredContents(b, t, j);
    StoredContents(c, i, j);
  }

  lemma TermsOfProduct(a: View, b: View, c: View)
    requires WholeStorage(a) && WholeStorage(b) && WholeStorage(c) && a.dimension == b.dimension == c.dimension
    requires c.Contents() == Product(a.Contents(), b.Contents(), c.dimension)
    ensures SingleTerms(a.data.cells[..], b.data.cells[..], c.data.cells[..], c.dimension)
  {
    forall i: nat, t: nat, j: nat | StoredOnlyAt(a.data.cells[..], c.dimension, i, t) && j < c.dimension
      ensures Stored(c.data.cells[..], c.dimension, i, j)
           == Stored(a.data.cells[..], c.dimension, i, t) * Stored(b.data.cells[..], c.dimension, t, j)
    {
      TermOfProduct(a, b, c, i, t, j);
    }
  }

  lemma LeadingBlock(v: View, n: nat)
    requires WholeStorage(v) && v.dimension <= n
    ensures Padded(Widen(v, n).Contents(), n, v.Contents(), v.dimension)
  {
  }

  /** `w` is `m` bordered with zeros. */
  ghost predicate Padded(w: Matrix, n: nat, m: Matrix, d: nat)
    requires IsSquare(w, n) && IsSquare(m, d) && d <= n
  {
    forall x, y :: 0 <= x < n && 0 <= y < n ==> w[x][y] == if x < d && y < d then m[x][y] else 0
  }

  lemma {:induction false} DotOfPadded(a: Matrix, b: Matrix, n: nat, a': Matrix, b': Matrix, d: nat, x: nat, y: nat,
                                       k: nat)
    requires IsSquare(a, n) && IsSquare(b, n) && IsSquare(a', d) && IsSquare(b', d) && d <= n && x < d && y < d
    requires k <= n
    requires Padded(a, n, a', d) && Padded(b, n, b', d)
    ensures Dot(a, b, n, x, y, k) == Dot(a', b', d, x, y, if k < d then k else d)
  {
    if k > 0 {
      DotOfPadded(a, b, n, a', b', d, x, y, k - 1);
      assert k > d ==> a[x][k - 1] == 0;
    }
  }

  /** What one read through `at` does in the code. */
  datatype Read = Value(index: nat) | Padding | Throws

  /** `at` as written: the bounds test multiplies the other index than the access does. */
  function CodedRead(d: nat, i: nat, j: nat): Read {
    if i + d * j < d * d then (if j + d * i < d * d then Value(j + d * i) else Throws) else Padding
  }

  /** `at` as meant: cells outside the square read as padding. */
  function IntendedRead(d: nat, i: nat, j: nat): Read {
    if i < d && j < d then Value(j + d * i) else Padding
  }

  /** Reading a whole d by d storage through a window widened to side n behaves as meant, and never throws, exactly
      when no widening happens or the storage has at most one cell. */
  lemma WidenedReads(d: nat, n: nat)
    ensures (forall i, j :: 0 <= i < n && 0 <= j < n ==> CodedRead(d, i, j) == IntendedRead(d, i, j)) <==>
      n <= d || d <= 1
    ensures n > d && d > 1 ==> CodedRead(d, d, 0) == Throws
  {
    if n <= d {
      forall i, j | 0 <= i < n && 0 <= j < n
        ensures CodedRead(d, i, j) == IntendedRead(d, i, j)
      {
        CellInside(d, i, j);
        CellInside(d, j, i);
      }
    } else if d > 1 {
      assert d < d * d;
      assert CodedRead(d, d, 0) == Throws != IntendedRead(d, d, 0);
    }
  }

  // ----- padding_size -----

  /** Halving n never meets an odd side above the cutoff, so the recursion never falls back early. */
  predicate HalvesCleanly(n: nat, cutoff: nat) {
    n <= cutoff || (n % 2 == 0 && HalvesCleanly(n / 2, cutoff))
  }

  function PaddingSpec(dimension: nat, cutoff: nat): nat
    requires cutoff >= 1
    decreases dimension
  {
    if dimension <= cutoff then dimension else 2 * PaddingSpec(CeilHalf(dimension), cutoff)
  }

  method PaddingSize(dimension: nat, cutoff: nat) returns (n: nat)
    requires cutoff >= 1
    ensures n == PaddingSpec(dimension, cutoff)
  {
    var power: nat, d: nat := 0, dimension;
    while d > cutoff
      invariant PaddingSpec(dimension, cutoff) == PaddingSpec(d, cutoff) * Pow2(power)
      decreases d
    {
      DoubledPower(PaddingSpec(CeilHalf(d), cutoff), power);
      power := power + 1;
      d := CeilHalf(d);
    }
    n := d * Pow2(power);
  }

  lemma DoubledPower(n: nat, power: nat)
    ensures 2 * n * Pow2(power) == n * Pow2(power + 1)
  {
    assert Pow2(power + 1) == 2 * Pow2(power);
    assert n * (2 * Pow2(power)) == 2 * n * Pow2(power);
  }

  /** padding_size returns the least side, no smaller than the input, whose halving never meets an odd side above
      the cutoff. */
  lemma {:induction false} PaddingIsLeast(dimension: nat, cutoff: nat, n: nat)
    requires cutoff >= 1
    ensures dimension <= PaddingSpec(dimension, cutoff) && HalvesCleanly(PaddingSpec(dimension, cutoff), cutoff)
    ensures dimension <= n && HalvesCleanly(n, cutoff) ==> PaddingSpec(dimension, cutoff) <= n
    decreases dimension
  {
    if dimension > cutoff {
      PaddingIsLeast(CeilHalf(dimension), cutoff, n / 2);
    }
  }

  /** Multiplying d by d operands reads only as meant exactly when d needs no padding or has at most one cell. */
  lemma PaddedRunReads(d: nat, cutoff: nat)
    requires cutoff >= 1
    ensures var n := PaddingSpec(d, cutoff);
      (forall i, j :: 0 <= i < n && 0 <= j < n ==> CodedRead(d, i, j) == IntendedRead(d, i, j))
      <==> HalvesCleanly(d, cutoff)
  {
    PaddingIsLeast(d, cutoff, d);
    WidenedReads(d, PaddingSpec(d, cutoff));
  }
}
