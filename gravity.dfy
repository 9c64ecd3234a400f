/**
 * Gravity (`applyGravity`): in every column the tokens fall to the bottom,
 * keeping their order, and the holes left at the top are refilled with fresh
 * plain tokens. Fresh colours come from a stream in place of `Math.random`:
 * the n-th token ever made gets colour `colors(n)`.
 */
module Gravity {
  import opened Geometry
  import opened Cells

  /** The source of fresh colours. */
  type Stream = nat -> Color

  /** Column c of the board, top row first. */
  function Column(b: Board, c: Coord): (col: seq<Cell>)
    ensures |col| == SIZE
    ensures forall r: Coord :: col[r] == b[PosToIdx(r, c)]
  {
    seq(SIZE, r requires 0 <= r < SIZE => b[PosToIdx(r, c)])
  }

  /** The tokens of a column, top to bottom. */
  function Kept(col: seq<Cell>): (kept: seq<Cell>)
    ensures |kept| <= |col|
    decreases |col|
  {
    if col == [] then []
    else if col[0].Empty? then Kept(col[1..])
    else [col[0]] + Kept(col[1..])
  }

  /** The positions of the tokens of a column, top to bottom, counted from `offset`. */
  function TokenPositions(col: seq<Cell>, offset: nat): seq<nat>
    decreases |col|
  {
    if col == [] then []
    else if col[0].Empty? then TokenPositions(col[1..], offset + 1)
    else [offset] + TokenPositions(col[1..], offset + 1)
  }

  // `Kept` is the order-preserving filter of the tokens: PositionsMatch,
  // PositionsIncrease and PositionsComplete show that it lists, in increasing
  // position, exactly the cells of the column that are not empty.

  /** The k-th kept cell is the cell at the k-th token position. */
  lemma {:induction false} PositionsMatch(col: seq<Cell>, offset: nat)
    ensures var pos := TokenPositions(col, offset);
      && |pos| == |Kept(col)|
      && forall k | 0 <= k < |pos| :: offset <= pos[k] < offset + |col| && Kept(col)[k] == col[pos[k] - offset]
    decreases |col|
  {
    if col != [] {
      PositionsMatch(col[1..], offset + 1);
      var tail := TokenPositions(col[1..], offset + 1);
      if col[0].Token? {
        var pos := [offset] + tail;
        assert TokenPositions(col, offset) == pos;
        assert Kept(col) == [col[0]] + Kept(col[1..]);
        forall k | 0 < k < |pos|
          ensures offset <= pos[k] < offset + |col| && Kept(col)[k] == col[pos[k] - offset]
        {
          assert pos[k] == tail[k - 1];
          assert Kept(col)[k] == Kept(col[1..])[k - 1];
          assert col[1..][tail[k - 1] - offset - 1] == col[tail[k - 1] - offset];
        }
      } else {
        forall k | 0 <= k < |tail|
          ensures Kept(col)[k] == col[tail[k] - offset]
        {
          assert col[1..][tail[k] - offset - 1] == col[tail[k] - offset];
        }
      }
    }
  }

  /** The token positions are increasing: `Kept` keeps the top-to-bottom order. */
  lemma {:induction false} PositionsIncrease(col: seq<Cell>, offset: nat)
    ensures forall k | 0 <= k < |TokenPositions(col, offset)| :: TokenPositions(col, offset)[k] >= offset
    ensures forall k, l | 0 <= k < l < |TokenPositions(col, offset)| ::
      TokenPositions(col, offset)[k] < TokenPositions(col, offset)[l]
    decreases |col|
  {
    if col != [] {
      PositionsIncrease(col[1..], offset + 1);
      var tail := TokenPositions(col[1..], offset + 1);
      if col[0].Token? {
        var pos := [offset] + tail;
        assert TokenPositions(col, offset) == pos;
        forall k | 0 < k < |pos|
          ensures pos[k] == tail[k - 1] && pos[k] > offset
        {
        }
        forall k, l | 0 <= k < l < |pos|
          ensures pos[k] < pos[l]
        {
          if k > 0 {
            assert pos[k] == tail[k - 1] && pos[l] == tail[l - 1];
          }
        }
      } else {
        assert TokenPositions(col, offset) == tail;
      }
    }
  }

  /** Every token of the column is at one of the token positions: `Kept` drops only holes. */
  lemma {:induction false} PositionsComplete(col: seq<Cell>, offset: nat)
    ensures forall j | 0 <= j < |col| && col[j].Token? :: j + offset in TokenPositions(col, offset)
    decreases |col|
  {
    if col != [] {
      PositionsComplete(col[1..], offset + 1);
      var tail := TokenPositions(col[1..], offset + 1);
      forall j | 0 < j < |col| && col[j].Token?
        ensures j + offset in tail
      {
        assert col[1..][j - 1] == col[j];
      }
    }
  }

  /** A column without holes is kept as it is. */
  lemma {:induction false} KeptFull(col: seq<Cell>)
    requires forall x | x in col :: x.Token?
    ensures Kept(col) == col
    decreases |col|
  {
    if col != [] {
      assert forall x | x in col[1..] :: x in col;
      KeptFull(col[1..]);
      assert col[0] in col;
      assert col == [col[0]] + col[1..];
    }
  }

  /** Every kept cell is a token. */
  lemma {:induction false} KeptTokens(col: seq<Cell>)
    ensures forall x | x in Kept(col) :: x.Token?
    decreases |col|
  {
    if col != [] {
      KeptTokens(col[1..]);
    }
  }

  /**
   * The k fresh tokens above the kept ones, top row first; they are made
   * bottom-up, so the lowest one takes colour colors(d).
   */
  function Fresh(k: nat, colors: Stream, d: nat): (cells: seq<Cell>)
    ensures |cells| == k
  {
    seq(k, j requires 0 <= j < k => Token(colors(d + k - 1 - j), Plain))
  }

  /** The number of holes of a column, which is also the number of fresh tokens it takes. */
  function Holes(col: seq<Cell>): nat
  {
    |col| - |Kept(col)|
  }

  /** A column after gravity: fresh tokens on top, the kept tokens below. */
  function Settle(col: seq<Cell>, colors: Stream, d: nat): seq<Cell>
  {
    Fresh(Holes(col), colors, d) + Kept(col)
  }

  /** How many fresh tokens the columns left of c take. */
  function DrawsBefore(b: Board, c: nat): nat
    requires c <= SIZE
  {
    if c == 0 then 0 else DrawsBefore(b, c - 1) + Holes(Column(b, c - 1))
  }

  /** How many fresh tokens `applyGravity` makes. */
  function Draws(b: Board): nat
  {
    DrawsBefore(b, SIZE)
  }

  /** The board after `applyGravity`, when the first fresh token takes colour colors(d). */
  function ApplyGravity(b: Board, colors: Stream, d: nat): Board
  {
    seq(CELLS, i requires 0 <= i < CELLS => Settle(Column(b, Col(i)), colors, d + DrawsBefore(b, Col(i)))[Row(i)])
  }

  lemma GravityAt(b: Board, colors: Stream, d: nat, i: Index)
    ensures ApplyGravity(b, colors, d)[i] == Settle(Column(b, Col(i)), colors, d + DrawsBefore(b, Col(i)))[Row(i)]
  {
  }

  lemma SettleAt(b: Board, colors: Stream, d: nat, i: Index, r: Coord, c: Coord)
    requires Row(i) == r && Col(i) == c
    ensures Settle(Column(b, Col(i)), colors, d + DrawsBefore(b, Col(i)))[Row(i)] ==
            Settle(Column(b, c), colors, d + DrawsBefore(b, c))[r]
  {
  }

  /** The cell at row r of column c after gravity is row r of the settled column c. */
  lemma GravityCell(b: Board, colors: Stream, d: nat, r: Coord, c: Coord)
    ensures ApplyGravity(b, colors, d)[PosToIdx(r, c)] == Settle(Column(b, c), colors, d + DrawsBefore(b, c))[r]
  {
    var i := PosToIdx(r, c);
    GravityAt(b, colors, d, i);
    SettleAt(b, colors, d, i, r, c);
  }

  /** A settled column: fresh plain tokens in the top Holes rows, the kept tokens in order below them. */
  lemma SettleFacts(col: seq<Cell>, colors: Stream, d: nat)
    ensures |Settle(col, colors, d)| == |col|
    ensures forall r | Holes(col) <= r < |col| :: Settle(col, colors, d)[r] == Kept(col)[r - Holes(col)]
    ensures forall r | 0 <= r < Holes(col) :: Settle(col, colors, d)[r] == Token(colors(d + Holes(col) - 1 - r), Plain)
    ensures forall r | 0 <= r < |col| :: Settle(col, colors, d)[r].Token?
  {
    KeptTokens(col);
    var s := Settle(col, colors, d);
    forall r | Holes(col) <= r < |col|
      ensures s[r].Token?
    {
      assert s[r] == Kept(col)[r - Holes(col)];
      assert s[r] in Kept(col);
    }
  }

  /** After gravity no cell is empty. */
  lemma GravityFull(b: Board, colors: Stream, d: nat)
    ensures Full(ApplyGravity(b, colors, d))
  {
    forall i: Index
      ensures ApplyGravity(b, colors, d)[i].Token?
    {
      var r, c := Row(i), Col(i);
      assert i == PosToIdx(r, c);
      GravityCell(b, colors, d, r, c);
      SettleFacts(Column(b, c), colors, d + DrawsBefore(b, c));
    }
  }

  /**
   * Column c after gravity is column c settled: its original tokens sit in
   * the bottom rows in their original order, and the rows above them hold
   * fresh plain tokens (SettleFacts). The columns draw their colours in turn,
   * left to right.
   */
  lemma GravityColumn(b: Board, colors: Stream, d: nat, c: Coord)
    ensures Column(ApplyGravity(b, colors, d), c) == Settle(Column(b, c), colors, d + DrawsBefore(b, c))
  {
    var g := ApplyGravity(b, colors, d);
    var s := Settle(Column(b, c), colors, d + DrawsBefore(b, c));
    assert |s| == SIZE;
    forall r: Coord
      ensures Column(g, c)[r] == s[r]
    {
      GravityCell(b, colors, d, r, c);
    }
  }

  /** A column without holes settles to itself. */
  lemma SettleFull(col: seq<Cell>, colors: Stream, d: nat)
    requires Kept(col) == col
    ensures Settle(col, colors, d) == col
  {
    assert Fresh(Holes(col), colors, d) == [];
  }

  /** On a board without holes gravity changes nothing and makes no token. */
  lemma GravityOnFull(b: Board, colors: Stream, d: nat)
    requires Full(b)
    ensures ApplyGravity(b, colors, d) == b
    ensures Draws(b) == 0
  {
    forall c: Coord
      ensures Kept(Column(b, c)) == Column(b, c)
    {
      KeptFull(Column(b, c));
    }
    DrawsNone(b, SIZE);
    forall i: Index
      ensures ApplyGravity(b, colors, d)[i] == b[i]
    {
      var r, c := Row(i), Col(i);
      assert i == PosToIdx(r, c);
      GravityKeepsCell(b, colors, d, r, c);
    }
    BoardsEqual(ApplyGravity(b, colors, d), b);
  }

  lemma GravityKeepsCell(b: Board, colors: Stream, d: nat, r: Coord, c: Coord)
    requires Kept(Column(b, c)) == Column(b, c)
    ensures ApplyGravity(b, colors, d)[PosToIdx(r, c)] == b[PosToIdx(r, c)]
  {
    GravityCell(b, colors, d, r, c);
    SettleFull(Column(b, c), colors, d + DrawsBefore(b, c));
  }

  lemma {:induction false} DrawsNone(b: Board, c: nat)
    requires c <= SIZE
    requires forall k: Coord :: Kept(Column(b, k)) == Column(b, k)
    ensures DrawsBefore(b, c) == 0
  {
    if c > 0 {
      DrawsNone(b, c - 1);
    }
  }
}
