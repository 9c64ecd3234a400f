/**
 * Cells and boards. A cell is empty (`null`, only while a resolution pass is
 * running) or a token with a colour and an optional special kind.
 */
module Cells {
  import opened Geometry

  /** A token colour, 0 .. COLORS-1. */
  type Color = c: int | 0 <= c < COLORS

  /** The `special` field: none (`null`), 'rocket-h', 'rocket-v' or 'bomb'. */
  datatype Special = Plain | RocketH | RocketV | Bomb

  datatype Cell = Empty | Token(color: Color, special: Special)

  /** The board: 49 cells in row-major order. */
  type Board = b: seq<Cell> | |b| == CELLS witness seq(CELLS, _ => Empty)

  /** `cell?.special` is truthy: the cell holds a special token. */
  predicate HasSpecial(cell: Cell)
  {
    cell.Token? && cell.special != Plain
  }

  /** `swapIn` on a copy of the board: the contents of cells a and b are exchanged. */
  function Swap(b: Board, i: Index, j: Index): (r: Board)
    ensures r[i] == b[j] && r[j] == b[i]
    ensures forall k: Index :: k != i && k != j ==> r[k] == b[k]
  {
    b[i := b[j]][j := b[i]]
  }

  /** A swap only moves cells around: the board afterwards is a permutation of the board before. */
  lemma SwapPermutes(b: Board, i: Index, j: Index)
    ensures multiset(Swap(b, i, j)) == multiset(b)
  {
  }

  /** No cell is empty. */
  predicate Full(b: Board)
  {
    forall i: Index :: b[i].Token?
  }

  /** Two boards that agree on every cell are equal. */
  lemma BoardsEqual(x: Board, y: Board)
    requires forall i: Index :: x[i] == y[i]
    ensures x == y
  {
    assert forall i | 0 <= i < |x| :: x[i] == y[i];
  }
}
