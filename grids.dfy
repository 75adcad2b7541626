/** Shared vocabulary of the pole-detection pipeline: byte images, rectangular
    grids as values, snapshots of two-dimensional arrays, and the .NET numeric
    conversions (Math.Round, integer casts) the stages rely on. */
module Grids {

  /** An 8-bit pixel intensity (C# `byte`). */
  type byte = x: int | 0 <= x < 256

  /** A rectangular buffer as a value: `g[x][y]` is the cell at column `x`, row
      `y`, as `a[x, y]` is in the C# arrays (the first index runs over the width). */
  type Grid<T> = seq<seq<T>>

  /** `g` has `w` columns of `h` cells each. */
  predicate IsGrid<T>(g: Grid<T>, w: int, h: int)
  {
    |g| == w && forall x :: 0 <= x < w ==> |g[x]| == h
  }

  /** The contents of an array as a grid value. */
  function Cells<T>(a: array2<T>): (g: Grid<T>)
    reads a
    ensures IsGrid(g, a.Length0, a.Length1)
    ensures forall x, y :: 0 <= x < a.Length0 && 0 <= y < a.Length1 ==> g[x][y] == a[x, y]
  {
    seq(a.Length0, x requires 0 <= x < a.Length0 reads a =>
      seq(a.Length1, y requires 0 <= y < a.Length1 reads a => a[x, y]))
  }

  /** The array currently holds exactly the grid `g`. */
  ghost predicate Holds<T>(a: array2<T>, g: Grid<T>)
    reads a
  {
    IsGrid(g, a.Length0, a.Length1) &&
    forall x, y :: 0 <= x < a.Length0 && 0 <= y < a.Length1 ==> a[x, y] == g[x][y]
  }

  lemma CellsOf<T>(a: array2<T>, g: Grid<T>)
    requires Holds(a, g)
    ensures Cells(a) == g
  {
    var c := Cells(a);
    forall x | 0 <= x < a.Length0
      ensures c[x] == g[x]
    {
      assert |c[x]| == |g[x]|;
      forall y | 0 <= y < a.Length1 ensures c[x][y] == g[x][y] { }
    }
  }

  /** `g` with the single cell (x, y) replaced by `v`. */
  function Set<T>(g: Grid<T>, x: int, y: int, v: T): (r: Grid<T>)
    requires 0 <= x < |g| && 0 <= y < |g[x]|
    ensures |r| == |g| && forall i :: 0 <= i < |g| ==> |r[i]| == |g[i]|
    ensures r[x][y] == v
    ensures forall i, j :: 0 <= i < |g| && 0 <= j < |g[i]| && (i != x || j != y) ==> r[i][j] == g[i][j]
  {
    g[x := g[x][y := v]]
  }

  /** .NET `Math.Round(double)`: the nearest integer, ties going to the even one. */
  function Round(r: real): (n: int)
    ensures -1.0 / 2.0 <= r - n as real <= 1.0 / 2.0
    ensures (r - n as real == 1.0 / 2.0 || n as real - r == 1.0 / 2.0) ==> n % 2 == 0
  {
    var f := r.Floor;
    var d := r - f as real;
    if d < 1.0 / 2.0 then f
    else if d > 1.0 / 2.0 then f + 1
    else if f % 2 == 0 then f
    else f + 1
  }

  /** Rounding is the identity on whole numbers. */
  lemma RoundWhole(k: int)
    ensures Round(k as real) == k
  {
  }

  /** A value in [0, 255] rounds to a byte. */
  lemma RoundInByteRange(r: real)
    requires 0.0 <= r <= 255.0
    ensures 0 <= Round(r) <= 255
  {
  }

  /** C# `(int)` applied to a double: truncation toward zero. */
  function Truncate(r: real): (n: int)
    ensures r >= 0.0 ==> n as real <= r < n as real + 1.0
    ensures r < 0.0 ==> n as real - 1.0 < r <= n as real
  {
    if r >= 0.0 then r.Floor else -((-r).Floor)
  }

  /** C# `/` on int: the quotient truncated toward zero. */
  function Quot(a: int, b: int): int
    requires b > 0
  {
    if a >= 0 then a / b else -((-a) / b)
  }

  /** `Quot` truncates toward zero: the remainder it leaves has the sign of the
      dividend and is smaller than the divisor. */
  lemma QuotTruncates(a: int, b: int)
    requires b > 0
    ensures a >= 0 ==> 0 <= a - Quot(a, b) * b < b
    ensures a < 0 ==> -b < a - Quot(a, b) * b <= 0
  {
  }

  /** C# `%` on int: the remainder takes the sign of the dividend. */
  function Rem(a: int, b: int): (m: int)
    requires b > 0
    ensures a >= 0 ==> m == a % b
    ensures a < 0 ==> -b < m <= 0
  {
    if a >= 0 then a % b else -((-a) % b)
  }

  /** `Rem` is the remainder `Quot` leaves, for negative dividends too. */
  lemma RemIsRemainder(a: int, b: int)
    requires b > 0
    ensures Rem(a, b) == a - Quot(a, b) * b
  {
  }
}
