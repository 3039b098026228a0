/** `Grid<T>`: a rectangular, origin-anchored 2-D array. */
module Grids {

  datatype Grid<T> = Grid(rows: seq<seq<T>>, width: nat) {

    /** Every row has the grid's width. */
    ghost predicate Valid() {
      forall i :: 0 <= i < |rows| ==> |rows[i]| == width
    }

    function Height(): nat {
      |rows|
    }

    predicate InBounds(y: int, x: int) {
      0 <= y < |rows| && 0 <= x < width
    }

    /** Replace the element at (y, x); nothing else changes. */
    function Set(y: int, x: int, v: T): (g: Grid<T>)
      requires Valid() && InBounds(y, x)
      ensures g.Valid() && g.Height() == Height() && g.width == width
      ensures g.rows[y][x] == v
      ensures forall i, j :: InBounds(i, j) && (i != y || j != x) ==> g.rows[i][j] == rows[i][j]
    {
      Grid(rows[y := rows[y][x := v]], width)
    }
  }
}
