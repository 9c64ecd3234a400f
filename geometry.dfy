/**
 * Grid geometry of the 7x7 board: cells are numbered row-major, 0..48.
 * Conversion between an index and its (row, column) position, adjacency,
 * the orientation of a swap, line iteration, and the target of a swipe.
 */
module Geometry {
  import opened Wrappers

  /** Side length of the board. */
  const SIZE: int := 7
  /** Number of cells on the board (SIZE * SIZE). */
  const CELLS: int := 49
  /** Number of token colours. */
  const COLORS: int := 4

  /** A cell index on the board. */
  type Index = i: int | 0 <= i < CELLS
  /** A row or column number. */
  type Coord = k: int | 0 <= k < SIZE

  /** Every cell index. */
  const AllIndices: set<Index> := set i: int | 0 <= i < CELLS

  function Row(index: Index): (r: Coord)
    ensures r * SIZE <= index < r * SIZE + SIZE
  {
    index / SIZE
  }

  function Col(index: Index): (c: Coord)
    ensures index == Row(index) * SIZE + c
  {
    index % SIZE
  }

  /** `idxToPos`: the (row, column) position of a cell. */
  function IdxToPos(index: Index): (pos: (Coord, Coord))
    ensures pos.0 * SIZE + pos.1 == index
  {
    (Row(index), Col(index))
  }

  /** `posToIdx`: the index of the cell at row `r`, column `c`. */
  function PosToIdx(r: Coord, c: Coord): (index: Index)
    ensures Row(index) == r && Col(index) == c
  {
    r * SIZE + c
  }

  /** Index and position are two views of the same cell, in both directions. */
  lemma PositionRoundTrip(index: Index, r: Coord, c: Coord)
    ensures PosToIdx(IdxToPos(index).0, IdxToPos(index).1) == index
    ensures IdxToPos(PosToIdx(r, c)) == (r, c)
  {
  }

  function Abs(x: int): nat
  {
    if x < 0 then -x else x
  }

  /** `areAdjacent`: the two cells are at Manhattan distance exactly 1. */
  predicate AreAdjacent(a: Index, b: Index)
  {
    Abs(Row(a) - Row(b)) + Abs(Col(a) - Col(b)) == 1
  }

  /** `isHorizontalSwap`: both cells of the swap lie in the same row. */
  predicate IsHorizontalSwap(pair: (Index, Index))
  {
    Row(pair.0) == Row(pair.1)
  }

  /**
   * Adjacency is symmetric, irreflexive, and holds exactly for the four
   * orthogonal neighbours: one column apart in the same row, or one row
   * apart in the same column.
   */
  lemma AdjacentIsNeighbour(a: Index, b: Index)
    ensures AreAdjacent(a, b) == AreAdjacent(b, a)
    ensures !AreAdjacent(a, a)
    ensures AreAdjacent(a, b) <==>
      (Row(a) == Row(b) && (b == a + 1 || b == a - 1)) ||
      (Col(a) == Col(b) && (b == a + SIZE || b == a - SIZE))
  {
  }

  /**
   * `cellIdx`: cell number `secondary` of line `primary`, where a line is a
   * row when `horizontal` holds and a column otherwise.
   */
  function CellIdx(primary: Coord, secondary: Coord, horizontal: bool): (index: Index)
    ensures horizontal ==> Row(index) == primary && Col(index) == secondary
    ensures !horizontal ==> Col(index) == primary && Row(index) == secondary
  {
    if horizontal then PosToIdx(primary, secondary) else PosToIdx(secondary, primary)
  }

  /**
   * `swipeTarget`: the neighbour of `fromIndex` in the dominant direction of
   * the drag (dx, dy), or None when that neighbour would be off the board.
   * Ties between |dx| and |dy| count as horizontal.
   */
  function SwipeTarget(fromIndex: Index, dx: int, dy: int): (target: Option<Index>)
    ensures target.Some? ==> AreAdjacent(fromIndex, target.value)
    ensures Abs(dx) >= Abs(dy) ==>
      (target.Some? <==> 0 <= Col(fromIndex) + (if dx > 0 then 1 else -1) < SIZE) &&
      (target.Some? ==> Row(target.value) == Row(fromIndex) &&
                        Col(target.value) == Col(fromIndex) + (if dx > 0 then 1 else -1))
    ensures Abs(dx) < Abs(dy) ==>
      (target.Some? <==> 0 <= Row(fromIndex) + (if dy > 0 then 1 else -1) < SIZE) &&
      (target.Some? ==> Col(target.value) == Col(fromIndex) &&
                        Row(target.value) == Row(fromIndex) + (if dy > 0 then 1 else -1))
  {
    var r, c := Row(fromIndex), Col(fromIndex);
    if Abs(dx) >= Abs(dy) then
      var nc := if dx > 0 then c + 1 else c - 1;
      if nc < 0 || nc >= SIZE then None else Some(PosToIdx(r, nc))
    else
      var nr := if dy > 0 then r + 1 else r - 1;
      if nr < 0 || nr >= SIZE then None else Some(PosToIdx(nr, c))
  }
}
