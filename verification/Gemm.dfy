/**
  The CPU matrix product (src/kernels.cpp: gemm), over an arbitrary scalar type: no law of addition or
  multiplication is assumed, so rounding may be anything as long as it is a function of the operands.
 */
module Gemm {
  import opened Wrappers

  /** Scalars: a zero, an addition and a multiplication. */
  datatype Arith<!T> = Arith(zero: T, add: (T, T) -> T, mul: (T, T) -> T)

  /** A rank-2 tensor stored row by row. */
  datatype Matrix<T> = Matrix(rows: nat, cols: nat, data: seq<T>) {
    ghost predicate Ok() {
      |data| == rows * cols
    }

    function Get(r: nat, c: nat): T
      requires Ok() && r < rows && c < cols
    {
      FlatBound(rows, cols, r, c);
      data[Flat(cols, r, c)]
    }
  }

  function Flat(cols: nat, r: nat, c: nat): nat {
    r * cols + c
  }

  lemma FlatBound(rows: nat, cols: nat, r: nat, c: nat)
    requires r < rows && c < cols
    ensures Flat(cols, r, c) < rows * cols
  {
    RowsApart(cols, r, rows);
  }

  lemma {:induction false} RowsApart(cols: nat, r: nat, r': nat)
    requires r < r'
    ensures r * cols + cols <= r' * cols
    decreases r'
  {
    assert r' * cols == (r' - 1) * cols + cols;
    if r < r' - 1 { RowsApart(cols, r, r' - 1); }
  }

  lemma FlatInjective(cols: nat, r: nat, c: nat, r': nat, c': nat)
    requires c < cols && c' < cols && Flat(cols, r, c) == Flat(cols, r', c')
    ensures r == r' && c == c'
  {
    if r < r' { RowsApart(cols, r, r'); } else if r' < r { RowsApart(cols, r', r); }
  }

  ghost predicate Compatible<T>(lhs: Matrix<T>, rhs: Matrix<T>) {
    lhs.Ok() && rhs.Ok() && lhs.cols == rhs.rows
  }

  /** The left-to-right fold of the first n products of row r and column c. */
  function Dot<T>(ar: Arith<T>, lhs: Matrix<T>, rhs: Matrix<T>, r: nat, c: nat, n: nat): T
    requires Compatible(lhs, rhs) && r < lhs.rows && c < rhs.cols && n <= lhs.cols
  {
    if n == 0 then ar.zero
    else ar.add(Dot(ar, lhs, rhs, r, c, n - 1), ar.mul(lhs.Get(r, n - 1), rhs.Get(n - 1, c)))
  }

  /** With a unit column the fold picks one element of the row, and with a unit row one of the column. */
  lemma {:induction false} DotPicks<T>(ar: Arith<T>, one: T, lhs: Matrix<T>, rhs: Matrix<T>, r: nat, c: nat, k: nat,
      n: nat)
    requires Compatible(lhs, rhs) && r < lhs.rows && c < rhs.cols && n <= lhs.cols
    requires forall x :: ar.add(ar.zero, x) == x && ar.add(x, ar.zero) == x
    requires forall x :: ar.mul(x, one) == x && ar.mul(one, x) == x
    requires forall x :: ar.mul(x, ar.zero) == ar.zero && ar.mul(ar.zero, x) == ar.zero
    ensures (forall j: nat :: j < lhs.cols ==> rhs.Get(j, c) == if j == k then one else ar.zero) ==>
      Dot(ar, lhs, rhs, r, c, n) == if k < n then lhs.Get(r, k) else ar.zero
    ensures (forall j: nat :: j < lhs.cols ==> lhs.Get(r, j) == if j == k then one else ar.zero) ==>
      Dot(ar, lhs, rhs, r, c, n) == if k < n then rhs.Get(k, c) else ar.zero
  {
    hide Matrix.Get;
    if n > 0 { DotPicks(ar, one, lhs, rhs, r, c, k, n - 1); }
  }

  /** A matrix times the identity is the matrix, from either side. */
  lemma TimesIdentity<T>(ar: Arith<T>, one: T, m: Matrix<T>, unit: Matrix<T>, r: nat, c: nat)
    requires m.Ok() && unit.Ok() && unit.rows == unit.cols && r < m.rows && c < m.cols
    requires forall i: nat, j: nat :: i < unit.rows && j < unit.cols ==>
      unit.Get(i, j) == if i == j then one else ar.zero
    requires forall x :: ar.add(ar.zero, x) == x && ar.add(x, ar.zero) == x
    requires forall x :: ar.mul(x, one) == x && ar.mul(one, x) == x
    requires forall x :: ar.mul(x, ar.zero) == ar.zero && ar.mul(ar.zero, x) == ar.zero
    ensures r * m.cols + c < |m.data|
    ensures unit.rows == m.cols ==> Dot(ar, m, unit, r, c, m.cols) == m.data[r * m.cols + c]
    ensures unit.rows == m.rows ==> Dot(ar, unit, m, r, c, m.rows) == m.data[r * m.cols + c]
  {
    FlatBound(m.rows, m.cols, r, c);
    if unit.rows == m.cols { DotPicks(ar, one, m, unit, r, c, c, m.cols); }
    if unit.rows == m.rows { DotPicks(ar, one, unit, m, r, c, r, m.rows); }
  }

  function Min(a: nat, b: nat): nat {
    if a < b then a else b
  }

  /**
    A point in the blocked iteration: the current block of rows and columns, how far its elements were
    before the current inner block, how far they are after it, and the next element to treat.
   */
  datatype Point = Point(rowBlock: nat, rowEnd: nat, colBlock: nat, colEnd: nat, before: nat, after: nat, row: nat,
    col: nat) {
    /** How many products have been added to element (r, c). */
    function Done(inner: nat, r: nat, c: nat): nat {
      if r < rowBlock then inner
      else if r >= rowEnd then 0
      else if c < colBlock then inner
      else if c >= colEnd then 0
      else if r < row || (r == row && c < col) then after
      else before
    }
  }

  ghost predicate Filled<T>(ar: Arith<T>, lhs: Matrix<T>, rhs: Matrix<T>, out: seq<T>, p: Point)
    requires Compatible(lhs, rhs)
  {
    && |out| == lhs.rows * rhs.cols && p.before <= lhs.cols && p.after <= lhs.cols
    && forall r: nat, c: nat :: r < lhs.rows && c < rhs.cols ==>
       ElementIs(ar, lhs, rhs, out, r, c, p.Done(lhs.cols, r, c))
  }

  ghost predicate ElementIs<T>(ar: Arith<T>, lhs: Matrix<T>, rhs: Matrix<T>, out: seq<T>, r: nat, c: nat, n: nat)
    requires Compatible(lhs, rhs) && |out| == lhs.rows * rhs.cols && r < lhs.rows && c < rhs.cols && n <= lhs.cols
  {
    FlatBound(lhs.rows, rhs.cols, r, c);
    out[Flat(rhs.cols, r, c)] == Dot(ar, lhs, rhs, r, c, n)
  }

  /** Two points at which every element is equally far describe the same output. */
  lemma SamePoint<T>(ar: Arith<T>, lhs: Matrix<T>, rhs: Matrix<T>, out: seq<T>, p: Point, q: Point)
    requires Compatible(lhs, rhs) && Filled(ar, lhs, rhs, out, p) && q.before <= lhs.cols && q.after <= lhs.cols
    requires forall r: nat, c: nat :: r < lhs.rows && c < rhs.cols ==> p.Done(lhs.cols, r, c) == q.Done(lhs.cols, r, c)
    ensures Filled(ar, lhs, rhs, out, q)
  {
    forall r: nat, c: nat | r < lhs.rows && c < rhs.cols
      ensures ElementIs(ar, lhs, rhs, out, r, c, q.Done(lhs.cols, r, c))
    {
      assert ElementIs(ar, lhs, rhs, out, r, c, p.Done(lhs.cols, r, c));
    }
  }

  /** Writing the current element moves on to the next one. */
  lemma WriteElement<T>(ar: Arith<T>, lhs: Matrix<T>, rhs: Matrix<T>, out: seq<T>, p: Point, x: T)
    requires Compatible(lhs, rhs) && Filled(ar, lhs, rhs, out, p)
    requires p.rowBlock <= p.row < p.rowEnd <= lhs.rows && p.colBlock <= p.col < p.colEnd <= rhs.cols
    requires x == Dot(ar, lhs, rhs, p.row, p.col, p.after)
    ensures Flat(rhs.cols, p.row, p.col) < |out|
    ensures Filled(ar, lhs, rhs, out[Flat(rhs.cols, p.row, p.col) := x], p.(col := p.col + 1))
  {
    FlatBound(lhs.rows, rhs.cols, p.row, p.col);
    var q := p.(col := p.col + 1);
    var out' := out[Flat(rhs.cols, p.row, p.col) := x];
    forall r: nat, c: nat | r < lhs.rows && c < rhs.cols
      ensures ElementIs(ar, lhs, rhs, out', r, c, q.Done(lhs.cols, r, c))
    {
      assert ElementIs(ar, lhs, rhs, out, r, c, p.Done(lhs.cols, r, c));
      FlatBound(lhs.rows, rhs.cols, r, c);
      if Flat(rhs.cols, r, c) == Flat(rhs.cols, p.row, p.col) {
        FlatInjective(rhs.cols, r, c, p.row, p.col);
      }
    }
  }

  lemma CurrentElement<T>(ar: Arith<T>, lhs: Matrix<T>, rhs: Matrix<T>, out: seq<T>, p: Point)
    requires Compatible(lhs, rhs) && Filled(ar, lhs, rhs, out, p)
    requires p.rowBlock <= p.row < p.rowEnd <= lhs.rows && p.colBlock <= p.col < p.colEnd <= rhs.cols
    ensures Flat(rhs.cols, p.row, p.col) < |out|
    ensures out[Flat(rhs.cols, p.row, p.col)] == Dot(ar, lhs, rhs, p.row, p.col, p.before)
  {
    FlatBound(lhs.rows, rhs.cols, p.row, p.col);
    assert ElementIs(ar, lhs, rhs, out, p.row, p.col, p.Done(lhs.cols, p.row, p.col));
  }

  lemma AllZero<T>(ar: Arith<T>, lhs: Matrix<T>, rhs: Matrix<T>, out: seq<T>)
    requires Compatible(lhs, rhs) && |out| == lhs.rows * rhs.cols && forall i :: 0 <= i < |out| ==> out[i] == ar.zero
    ensures Filled(ar, lhs, rhs, out, Point(0, 0, 0, 0, 0, 0, 0, 0))
  {
    forall r: nat, c: nat | r < lhs.rows && c < rhs.cols ensures ElementIs(ar, lhs, rhs, out, r, c, 0) {
      FlatBound(lhs.rows, rhs.cols, r, c);
    }
  }

  lemma AllDone<T>(ar: Arith<T>, lhs: Matrix<T>, rhs: Matrix<T>, m: Matrix<T>)
    requires Compatible(lhs, rhs) && m.rows == lhs.rows && m.cols == rhs.cols
    requires Filled(ar, lhs, rhs, m.data, Point(lhs.rows, lhs.rows, 0, 0, 0, 0, 0, 0))
    ensures m.Ok()
    ensures forall r: nat, c: nat :: r < lhs.rows && c < rhs.cols ==> m.Get(r, c) == Dot(ar, lhs, rhs, r, c, lhs.cols)
  {
    forall r: nat, c: nat | r < lhs.rows && c < rhs.cols ensures m.Get(r, c) == Dot(ar, lhs, rhs, r, c, lhs.cols) {
      assert ElementIs(ar, lhs, rhs, m.data, r, c, Point(lhs.rows, lhs.rows, 0, 0, 0, 0, 0, 0).Done(lhs.cols, r, c));
    }
  }

  /** The row and column loops: one block of the output takes in one block of the inner index. */
  method MultiplyBlock<T>(ar: Arith<T>, lhs: Matrix<T>, rhs: Matrix<T>, out: array<T>, rowBlock: nat, rowEnd: nat,
                          colBlock: nat, colEnd: nat, innerBlock: nat, innerEnd: nat)
    requires Compatible(lhs, rhs) && rowBlock <= rowEnd <= lhs.rows && colBlock <= colEnd <= rhs.cols
    requires innerBlock <= innerEnd <= lhs.cols
    requires Filled(ar, lhs, rhs, out[..],
      Point(rowBlock, rowEnd, colBlock, colEnd, innerBlock, innerEnd, rowBlock, colBlock))
    modifies out
    ensures Filled(ar, lhs, rhs, out[..],
      Point(rowBlock, rowEnd, colBlock, colEnd, innerBlock, innerEnd, rowEnd, colBlock))
  {
    hide Flat, Filled;
    for row := rowBlock to rowEnd
      invariant Filled(ar, lhs, rhs, out[..],
        Point(rowBlock, rowEnd, colBlock, colEnd, innerBlock, innerEnd, row, colBlock))
    {
      for column := colBlock to colEnd
        invariant Filled(ar, lhs, rhs, out[..],
          Point(rowBlock, rowEnd, colBlock, colEnd, innerBlock, innerEnd, row, column))
      {
        ghost var p := Point(rowBlock, rowEnd, colBlock, colEnd, innerBlock, innerEnd, row, column);
        CurrentElement(ar, lhs, rhs, out[..], p);
        FlatBound(lhs.rows, rhs.cols, row, column);
        var at := Flat(rhs.cols, row, column);
        var accumulator := Accumulate(ar, lhs, rhs, row, column, innerBlock, innerEnd, out[at]);
        WriteElement(ar, lhs, rhs, out[..], p, accumulator);
        out[at] := accumulator;
      }
      SamePoint(ar, lhs, rhs, out[..], Point(rowBlock, rowEnd, colBlock, colEnd, innerBlock, innerEnd, row, colEnd),
                Point(rowBlock, rowEnd, colBlock, colEnd, innerBlock, innerEnd, row + 1, colBlock));
    }
  }

  /** The innermost loop continues the fold of one element. */
  method Accumulate<T>(ar: Arith<T>, lhs: Matrix<T>, rhs: Matrix<T>, row: nat, column: nat, innerBlock: nat,
      innerEnd: nat, start: T)
      returns (accumulator: T)
    requires Compatible(lhs, rhs) && row < lhs.rows && column < rhs.cols && innerBlock <= innerEnd <= lhs.cols
    requires start == Dot(ar, lhs, rhs, row, column, innerBlock)
    ensures accumulator == Dot(ar, lhs, rhs, row, column, innerEnd)
  {
    accumulator := start;
    for index := innerBlock to innerEnd
      invariant accumulator == Dot(ar, lhs, rhs, row, column, index)
    {
      accumulator := ar.add(accumulator, ar.mul(lhs.Get(row, index), rhs.Get(index, column)));
    }
  }

  /** For every shape and tile size, each element is the left-to-right fold over the inner index. */
  method Multiply<T(0)>(ar: Arith<T>, lhs: Matrix<T>, rhs: Matrix<T>, configTile: int)
      returns (output: Option<Matrix<T>>)
    requires lhs.Ok() && rhs.Ok()
    ensures output.None? <==> lhs.cols != rhs.rows
    ensures output.Some? ==> output.value.rows == lhs.rows && output.value.cols == rhs.cols && output.value.Ok()
    ensures output.Some? ==> forall r: nat, c: nat :: r < lhs.rows && c < rhs.cols ==>
      output.value.Get(r, c) == Dot(ar, lhs, rhs, r, c, lhs.cols)
  {
    hide Flat, Filled;
    if lhs.cols != rhs.rows { return None; }
    var rows, inner, columns := lhs.rows, lhs.cols, rhs.cols;
    var tile: nat := if configTile < 1 then 1 else configTile;
    var out := new T[rows * columns];
    for i := 0 to out.Length
      invariant forall j :: 0 <= j < i ==> out[j] == ar.zero
    {
      out[i] := ar.zero;
    }
    AllZero(ar, lhs, rhs, out[..]);
    var rowBlock := 0;
    while rowBlock < rows
      invariant Filled(ar, lhs, rhs, out[..], Point(Min(rowBlock, rows), Min(rowBlock, rows), 0, 0, 0, 0, 0, 0))
      decreases rows - rowBlock
    {
      var rowEnd := Min(rowBlock + tile, rows);
      var colBlock := 0;
      SamePoint(ar, lhs, rhs, out[..], Point(rowBlock, rowBlock, 0, 0, 0, 0, 0, 0),
        Point(rowBlock, rowEnd, 0, 0, 0, 0, 0, 0));
      while colBlock < columns
        invariant Filled(ar, lhs, rhs, out[..],
                         Point(rowBlock, rowEnd, Min(colBlock, columns), Min(colBlock, columns), 0, 0, 0, 0))
        decreases columns - colBlock
      {
        var colEnd := Min(colBlock + tile, columns);
        var innerBlock := 0;
        SamePoint(ar, lhs, rhs, out[..], Point(rowBlock, rowEnd, colBlock, colBlock, 0, 0, 0, 0),
                  Point(rowBlock, rowEnd, colBlock, colEnd, 0, 0, rowBlock, colBlock));
        while innerBlock < inner
          invariant Filled(ar, lhs, rhs, out[..],
                           Point(rowBlock, rowEnd, colBlock, colEnd, Min(innerBlock, inner), Min(innerBlock, inner),
                             rowBlock, colBlock))
          decreases inner - innerBlock
        {
          var innerEnd := Min(innerBlock + tile, inner);
          SamePoint(ar, lhs, rhs, out[..],
            Point(rowBlock, rowEnd, colBlock, colEnd, innerBlock, innerBlock, rowBlock, colBlock),
                    Point(rowBlock, rowEnd, colBlock, colEnd, innerBlock, innerEnd, rowBlock, colBlock));
          MultiplyBlock(ar, lhs, rhs, out, rowBlock, rowEnd, colBlock, colEnd, innerBlock, innerEnd);
          SamePoint(ar, lhs, rhs, out[..],
            Point(rowBlock, rowEnd, colBlock, colEnd, innerBlock, innerEnd, rowEnd, colBlock),
                    Point(rowBlock, rowEnd, colBlock, colEnd, innerEnd, innerEnd, rowBlock, colBlock));
          innerBlock := innerBlock + tile;
        }
        SamePoint(ar, lhs, rhs, out[..], Point(rowBlock, rowEnd, colBlock, colEnd, inner, inner, rowBlock, colBlock),
                  Point(rowBlock, rowEnd, colEnd, colEnd, 0, 0, 0, 0));
        colBlock := colBlock + tile;
      }
      SamePoint(ar, lhs, rhs, out[..], Point(rowBlock, rowEnd, columns, columns, 0, 0, 0, 0),
                Point(rowEnd, rowEnd, 0, 0, 0, 0, 0, 0));
      rowBlock := rowBlock + tile;
    }
    output := Some(Matrix(rows, columns, out[..]));
    AllDone(ar, lhs, rhs, output.value);
  }
}
