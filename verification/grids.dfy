/** Square grids indexed `grid[row][col]`, and the cell positions that index them. */
module Grids {

  /** A grid cell, addressed as `grid[row][col]`. */
  datatype Pos = Pos(row: int, col: int)

  /** `g` has `n` rows of `n` cells each. */
  predicate IsSquare<T>(g: seq<seq<T>>, n: int) {
    |g| == n && forall i :: 0 <= i < n ==> |g[i]| == n
  }

  /** `p` indexes a cell of a grid of side `n`. */
  predicate InGrid(p: Pos, n: int) {
    0 <= p.row < n && 0 <= p.col < n
  }

  /** `p` indexes an existing cell of `g`, whatever its shape. */
  predicate InRange<T>(g: seq<seq<T>>, p: Pos) {
    0 <= p.row < |g| && 0 <= p.col < |g[p.row]|
  }

  function At<T>(g: seq<seq<T>>, p: Pos): T
    requires InRange(g, p)
  {
    g[p.row][p.col]
  }

  /** The grid `g` with the single cell `p` overwritten by `v`. */
  function Put<T>(g: seq<seq<T>>, p: Pos, v: T): (r: seq<seq<T>>)
    requires InRange(g, p)
    ensures |r| == |g|
    ensures forall i :: 0 <= i < |g| ==> |r[i]| == |g[i]|
    ensures forall n :: IsSquare(g, n) ==> IsSquare(r, n)
    ensures At(r, p) == v
    ensures forall q :: InRange(g, q) && q != p ==> At(r, q) == At(g, q)
  {
    g[p.row := g[p.row][p.col := v]]
  }
}
