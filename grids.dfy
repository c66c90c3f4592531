/**
 * Square boards seen as values: a board is a sequence of rows, a cell is a
 * (row, column) pair. Both the Zone Wreck board and the crosscut grid are
 * two-dimensional arrays updated in place; their contents are described by
 * the value `FromArray(a)` and by the single-cell update `Put`.
 */
module Grids {

  datatype Option<T> = None | Some(value: T)

  function Abs(x: int): nat {
    if x < 0 then -x else x
  }

  /** A (row, column) coordinate. */
  type Cell = (int, int)

  predicate IsSquare<T>(g: seq<seq<T>>) {
    forall i :: 0 <= i < |g| ==> |g[i]| == |g|
  }

  predicate InGrid<T>(g: seq<seq<T>>, c: Cell) {
    0 <= c.0 < |g| && 0 <= c.1 < |g[c.0]|
  }

  function Get<T>(g: seq<seq<T>>, c: Cell): T
    requires InGrid(g, c)
  {
    g[c.0][c.1]
  }

  /** The board `g` with cell `c` overwritten by `v`. */
  function Put<T>(g: seq<seq<T>>, c: Cell, v: T): (r: seq<seq<T>>)
    requires InGrid(g, c)
    ensures |r| == |g|
    ensures forall i :: 0 <= i < |g| ==> |r[i]| == |g[i]|
    ensures forall i, j :: 0 <= i < |g| && 0 <= j < |g[i]| ==>
              r[i][j] == if (i, j) == c then v else g[i][j]
  {
    g[c.0 := g[c.0][c.1 := v]]
  }

  /** The contents of a two-dimensional array, row by row. */
  function FromArray<T>(a: array2<T>): (g: seq<seq<T>>)
    reads a
    ensures |g| == a.Length0
    ensures forall i :: 0 <= i < a.Length0 ==> |g[i]| == a.Length1
    ensures forall i, j :: 0 <= i < a.Length0 && 0 <= j < a.Length1 ==> g[i][j] == a[i, j]
  {
    seq(a.Length0, i requires 0 <= i < a.Length0 reads a =>
      seq(a.Length1, j requires 0 <= j < a.Length1 reads a => a[i, j]))
  }

  /** Two boards of the same shape that agree on every cell are equal. */
  lemma SameCells<T>(x: seq<seq<T>>, y: seq<seq<T>>)
    requires |x| == |y|
    requires forall i :: 0 <= i < |x| ==> |x[i]| == |y[i]|
    requires forall i, j :: 0 <= i < |x| && 0 <= j < |x[i]| ==> x[i][j] == y[i][j]
    ensures x == y
  {
    forall i | 0 <= i < |x|
      ensures x[i] == y[i]
    {
      assert |x[i]| == |y[i]|;
    }
  }
}
