/** Column-wise squaring (Comba multiplication): the digit products of each column add
    up to the square of the number.
  */
module Comba {
  import opened Powers
  import opened Limbs

  function Digit(c: seq<int>, n: nat, k: int): int
    requires n <= |c|
  {
    if 0 <= k < n then c[k] else 0
  }

  /** Column k of the product, restricted to the first m rows. */
  function Column(c: seq<int>, n: nat, m: nat, k: nat): int
    requires n <= |c| && m <= n
  {
    if m == 0 then 0 else Column(c, n, m - 1, k) + c[m - 1] * Digit(c, n, k - (m - 1))
  }

  /** The first `count` columns, each at its place. */
  function Columns(c: seq<int>, n: nat, m: nat, count: nat): int
    requires n <= |c| && m <= n
  {
    if count == 0 then 0 else Columns(c, n, m, count - 1) + Column(c, n, m, count - 1) * P(count - 1)
  }

  /** One row of the product before scaling: the digits of c moved up by m places. */
  function Row(c: seq<int>, n: nat, m: nat, count: nat): int
    requires n <= |c|
  {
    if count == 0 then 0 else Row(c, n, m, count - 1) + Digit(c, n, count - 1 - m) * P(count - 1)
  }

  lemma {:induction false} RowIs(c: seq<int>, n: nat, m: nat, count: nat)
    requires n <= |c|
    ensures Row(c, n, m, count) == Val(c, if count <= m then 0 else if count - m <= n then count - m else n) * P(m)
  {
    if count > 0 {
      RowIs(c, n, m, count - 1);
      if m < count <= m + n {
        var k := count - 1 - m;
        PAdd(k, m);
        AddMul(Val(c, k), c[k], P(k), P(m));
      }
    }
  }

  lemma {:induction false} ColumnsAddRow(c: seq<int>, n: nat, m: nat, count: nat)
    requires n <= |c| && m < n
    ensures Columns(c, n, m + 1, count) == Columns(c, n, m, count) + c[m] * Row(c, n, m, count)
  {
    if count > 0 {
      ColumnsAddRow(c, n, m, count - 1);
      var d := Digit(c, n, count - 1 - m);
      AddProduct(Column(c, n, m, count - 1), c[m], d, Row(c, n, m, count - 1), P(count - 1));
    }
  }

  lemma AddProduct(x: int, y: int, d: int, r: int, p: int)
    ensures (x + y * d) * p + y * r == x * p + y * (r + d * p)
  {
    assert (x + y * d) * p == x * p + y * (d * p);
  }

  /** All columns together are the product of the rows with the whole number. */
  lemma {:induction false} ColumnsProduct(c: seq<int>, n: nat, m: nat)
    requires n <= |c| && m <= n
    ensures Columns(c, n, m, 2 * n) == Val(c, m) * Val(c, n)
  {
    if m == 0 {
      NoRows(c, n, 2 * n);
    } else {
      ColumnsProduct(c, n, m - 1);
      ColumnsAddRow(c, n, m - 1, 2 * n);
      RowIs(c, n, m - 1, 2 * n);
      AddRow(Val(c, m - 1), c[m - 1], P(m - 1), Val(c, n));
    }
  }

  lemma AddRow(x: int, y: int, p: int, v: int)
    ensures x * v + y * (v * p) == (x + y * p) * v
  {
    AddMul(x, y, p, v);
  }

  lemma {:induction false} NoRows(c: seq<int>, n: nat, count: nat)
    requires n <= |c|
    ensures Columns(c, n, 0, count) == 0
  {
    if count > 0 {
      NoRows(c, n, count - 1);
    }
  }

  /** Rows that start above a column or end below it contribute nothing to it. */
  lemma {:induction false} ColumnEnds(c: seq<int>, n: nat, m: nat, m': nat, k: nat)
    requires n <= |c| && m <= m' <= n
    requires m == m' || m > k || m' + n <= k + 1
    ensures Column(c, n, m, k) == Column(c, n, m', k)
  {
    if m < m' {
      ColumnEnds(c, n, m, m' - 1, k);
    }
  }

  lemma {:induction false} ColumnBound(c: seq<int>, n: nat, m: nat, k: nat)
    requires n <= |c| && m <= n && Digits(c, n)
    ensures 0 <= Column(c, n, m, k) <= m * ((BASE - 1) * (BASE - 1))
  {
    if m > 0 {
      ColumnBound(c, n, m - 1, k);
      DigitProduct(c[m - 1], Digit(c, n, k - (m - 1)));
    }
  }

  lemma DigitProduct(x: int, y: int)
    requires 0 <= x < BASE && 0 <= y < BASE
    ensures 0 <= x * y <= (BASE - 1) * (BASE - 1)
  {
    MulMono(x, BASE - 1, y);
    MulMono(y, BASE - 1, BASE - 1);
    MulMono(0, x, y);
  }

  /** The first k digits of s, with the accumulator above them, are the first k columns. */
  ghost predicate Accumulated(s: seq<int>, k: nat, accumulator: int, c: seq<int>, n: nat) {
    k <= |s| && n <= |c| && Val(s, k) + accumulator * P(k) == Columns(c, n, n, k)
  }

  lemma AccumulateStep(s: seq<int>, t: seq<int>, k: nat, before: int, after: int, c: seq<int>, n: nat)
    requires k < |s| && t == s[k := after % BASE] && n <= |c|
    requires after == before + Column(c, n, n, k)
    requires Accumulated(s, k, before, c, n)
    ensures Accumulated(t, k + 1, after / BASE, c, n)
  {
    CarryStep(s, t, k, before, after / BASE, after % BASE, Column(c, n, n, k));
  }

  lemma AccumulatedSquare(s: seq<int>, accumulator: int, c: seq<int>, n: nat)
    requires Accumulated(s, 2 * n, accumulator, c, n) && accumulator >= 0
    requires Digits(s, 2 * n) && Digits(c, n)
    ensures accumulator == 0 && Val(s, 2 * n) == Val(c, n) * Val(c, n)
  {
    ColumnsProduct(c, n, n);
    ValBound(s, 2 * n);
    ValBound(c, n);
    PAdd(n, n);
    SquareBelow(Val(c, n), P(n));
    if accumulator >= 1 {
      MulMono(1, accumulator, P(2 * n));
    }
  }

  lemma SquareBelow(x: int, p: int)
    requires 0 <= x < p
    ensures x * x < p * p
  {
    MulLess(x, p, p);
    MulMono(x, p, x);
  }
}
