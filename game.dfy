/**
 * The game object: the 49-cell board array, the score, the `locked` guard
 * and the colour stream that stands in for `Math.random`. Its methods are
 * the in-place operations of the game (`applyGravity`, `applyRemoval`,
 * `resolveCascades`, `shuffleBoard`, `createBoard`, `trySwap`,
 * `activateSpecialMove`), each proved to leave the object in the state the
 * pure model of that operation gives.
 */
module Game {
  import opened Wrappers
  import opened Geometry
  import opened Cells
  import opened Matching
  import opened Components
  import opened Specials
  import opened Gravity
  import opened Moves
  import opened Resolution

  // ---------------------------------------------------------------------------
  // The stages of the in-place compaction of one column
  // ---------------------------------------------------------------------------

  /** Rows 0..SIZE-1 of column c of arr hold col. */
  ghost predicate ColumnIs(arr: seq<Cell>, c: Coord, col: seq<Cell>)
    requires |arr| == CELLS
  {
    |col| == SIZE && forall r: Coord :: arr[PosToIdx(r, c)] == col[r]
  }

  /** Where the write pointer stands once the rows below r have been compacted. */
  function WriteRow(col: seq<Cell>, r: int): (w: int)
    requires |col| == SIZE && -1 <= r < SIZE
    ensures r <= w < SIZE
  {
    SIZE - 1 - |Kept(col[r + 1..])|
  }

  /**
   * The column while `applyGravity` compacts it, once rows r+1..SIZE-1 are
   * done: rows 0..r untouched, then holes down to the write pointer, then
   * the tokens of the rows done, in their order.
   */
  ghost function Stage(col: seq<Cell>, r: int): (s: seq<Cell>)
    requires |col| == SIZE && -1 <= r < SIZE
    ensures |s| == SIZE
  {
    var w := WriteRow(col, r);
    seq(SIZE, i requires 0 <= i < SIZE => if i <= r then col[i] else if i <= w then Empty else Kept(col[r + 1..])[i - w - 1])
  }

  /** The column while `applyGravity` refills it: rows 0..w still empty, the rows below already settled. */
  ghost function Filling(settled: seq<Cell>, w: int): (s: seq<Cell>)
    requires |settled| == SIZE && -1 <= w < SIZE
    ensures |s| == SIZE
  {
    seq(SIZE, i requires 0 <= i < SIZE => if i <= w then Empty else settled[i])
  }

  lemma StageStart(col: seq<Cell>)
    requires |col| == SIZE
    ensures WriteRow(col, SIZE - 1) == SIZE - 1 && Stage(col, SIZE - 1) == col
  {
    assert col[SIZE..] == [];
  }

  /** An empty cell is skipped: nothing moves. */
  lemma StageEmpty(col: seq<Cell>, r: Coord)
    requires |col| == SIZE && col[r].Empty?
    ensures WriteRow(col, r - 1) == WriteRow(col, r)
    ensures Stage(col, r - 1) == Stage(col, r)
  {
    assert col[r..][1..] == col[r + 1..];
  }

  /** A token moves down to the write pointer, and its old cell (if another) becomes a hole. */
  lemma StageToken(col: seq<Cell>, r: Coord)
    requires |col| == SIZE && col[r].Token?
    ensures WriteRow(col, r - 1) == WriteRow(col, r) - 1
    ensures var w := WriteRow(col, r);
      Stage(col, r - 1) == if w != r then Stage(col, r)[w := col[r]][r := Empty] else Stage(col, r)[w := col[r]]
  {
    assert col[r..][1..] == col[r + 1..];
    var w := WriteRow(col, r);
    var next := if w != r then Stage(col, r)[w := col[r]][r := Empty] else Stage(col, r)[w := col[r]];
    forall i | 0 <= i < SIZE
      ensures Stage(col, r - 1)[i] == next[i]
    {
      if i > w {
        assert Kept(col[r..])[i - w] == Kept(col[r + 1..])[i - w - 1];
      }
    }
  }

  /** Once every row is compacted the holes are on top, ready for the refill. */
  lemma StageDone(col: seq<Cell>, colors: Stream, d: nat)
    requires |col| == SIZE
    ensures WriteRow(col, -1) == Holes(col) - 1
    ensures Stage(col, -1) == Filling(Settle(col, colors, d), Holes(col) - 1)
  {
    assert col[0..] == col;
    SettleFacts(col, colors, d);
  }

  /** The refill writes the fresh token the settled column has at row w. */
  lemma FillStep(col: seq<Cell>, colors: Stream, d: nat, w: Coord)
    requires |col| == SIZE && w < Holes(col)
    ensures Filling(Settle(col, colors, d), w)[w := Token(colors(d + Holes(col) - 1 - w), Plain)] ==
            Filling(Settle(col, colors, d), w - 1)
  {
    SettleFacts(col, colors, d);
  }

  lemma FillDone(settled: seq<Cell>)
    requires |settled| == SIZE
    ensures Filling(settled, -1) == settled
  {
  }

  /** Boards agree on column c when they agree on each of its cells. */
  lemma SameColumn(x: Board, y: Board, c: Coord)
    requires forall i: Index | Col(i) == c :: x[i] == y[i]
    ensures Column(x, c) == Column(y, c)
  {
    forall r: Coord
      ensures Column(x, c)[r] == Column(y, c)[r]
    {
      assert Col(PosToIdx(r, c)) == c;
    }
  }

  lemma ColumnIsColumn(arr: Board, c: Coord, col: seq<Cell>)
    requires ColumnIs(arr, c, col)
    ensures Column(arr, c) == col
  {
  }

  /** Boards with the same column c agree on each of its cells. */
  lemma SameCells(x: Board, y: Board, c: Coord)
    requires Column(x, c) == Column(y, c)
    ensures forall i: Index | Col(i) == c :: x[i] == y[i]
  {
    forall i: Index | Col(i) == c
      ensures x[i] == y[i]
    {
      var r := Row(i);
      assert i == PosToIdx(r, c);
      assert Column(x, c)[r] == Column(y, c)[r];
    }
  }

  // ---------------------------------------------------------------------------
  // Dealing a new board: `createBoard` and `shuffleBoard`
  // ---------------------------------------------------------------------------

  /** A board of 49 fresh plain tokens, made in index order from colour d of the stream on. */
  function Deal(colors: Stream, d: nat): (b: Board)
    ensures Full(b)
    ensures forall i: Index :: b[i] == Token(colors(d + i), Plain)
  {
    seq(CELLS, i requires 0 <= i < CELLS => Token(colors(d + i), Plain))
  }

  /** The board `createBoard` and `shuffleBoard` accept: no match group and at least one move. */
  predicate Playable(b: Board)
  {
    Stable(b) && HasAnyMove(b)
  }

  /** `Playable` as a test of boards. */
  function PlayableTest(): Board -> bool
  {
    (b: Board) => Playable(b)
  }

  /**
   * The `do … while` loop of `shuffleBoard`, from colour d of the stream on,
   * with room for `retries` more deals after the first: it deals until
   * `accept` takes the board and gives that board and the colours drawn by then.
   */
  function Redeal(accept: Board -> bool, colors: Stream, d: nat, retries: nat): (Board, nat)
    decreases retries
  {
    var b := Deal(colors, d);
    if accept(b) || retries == 0 then (b, d + CELLS)
    else Redeal(accept, colors, d + CELLS, retries - 1)
  }

  /** `shuffleBoard` (and `createBoard`) on the state: a new deal; the score is kept. */
  function Shuffle(s: State, colors: Stream, retries: nat): State
  {
    var dealt := Redeal(PlayableTest(), colors, s.drawn, retries);
    State(dealt.0, s.score, dealt.1)
  }

  /**
   * The loop deals k boards for some k of 1..retries+1, each from the next 49
   * colours, and keeps the last; that board is accepted unless all
   * retries+1 deals were spent.
   */
  lemma {:induction false} RedealFacts(accept: Board -> bool, colors: Stream, d: nat, retries: nat)
    ensures var dealt := Redeal(accept, colors, d, retries);
      && d + CELLS <= dealt.1 <= d + CELLS * (retries + 1)
      && (dealt.1 - d) % CELLS == 0
      && dealt.0 == Deal(colors, dealt.1 - CELLS)
      && (dealt.1 < d + CELLS * (retries + 1) ==> accept(dealt.0))
    decreases retries
  {
    var b := Deal(colors, d);
    if !accept(b) && retries != 0 {
      RedealFacts(accept, colors, d + CELLS, retries - 1);
      var d' := Redeal(accept, colors, d + CELLS, retries - 1).1;
      assert (d' - d) == (d' - (d + CELLS)) + CELLS;
    }
  }

  /**
   * The loop stops at a deal that is accepted or when no retry is left:
   * `board` and `drawn` are then that deal and the colours drawn by then.
   */
  lemma RedealStop(accept: Board -> bool, colors: Stream, d: nat, retries: nat, board: Board, drawn: nat)
    requires board == Deal(colors, d) && drawn == d + CELLS
    requires accept(board) || retries == 0
    ensures Redeal(accept, colors, d, retries) == (board, drawn)
  {
  }

  /** A refused deal costs one retry and the next 49 colours: the loop goes on from d' with retries' left. */
  lemma RedealNext(accept: Board -> bool, colors: Stream, d: nat, retries: nat, d': nat, retries': nat)
    requires !accept(Deal(colors, d)) && retries > 0
    requires d' == d + CELLS && retries' == retries - 1
    ensures Redeal(accept, colors, d, retries) == Redeal(accept, colors, d', retries')
  {
  }

  /** The board the loop keeps is a full board of plain tokens, accepted unless every deal was refused. */
  lemma RedealBoard(accept: Board -> bool, colors: Stream, d: nat, retries: nat)
    ensures var dealt := Redeal(accept, colors, d, retries);
      && Full(dealt.0) && (forall i: Index :: !HasSpecial(dealt.0[i]))
      && d + CELLS <= dealt.1 <= d + CELLS * (retries + 1)
      && (dealt.1 < d + CELLS * (retries + 1) ==> accept(dealt.0))
  {
    RedealFacts(accept, colors, d, retries);
    DealPlain(colors, Redeal(accept, colors, d, retries).1 - CELLS);
  }

  lemma DealPlain(colors: Stream, d: nat)
    ensures forall i: Index :: !HasSpecial(Deal(colors, d)[i])
  {
  }

  /**
   * After `shuffleBoard` the board is a full board of plain tokens with the
   * score unchanged, and it is playable unless every deal was refused.
   */
  lemma ShuffleFacts(s: State, colors: Stream, retries: nat)
    ensures var r := Shuffle(s, colors, retries);
      && r.score == s.score
      && Full(r.board) && (forall i: Index :: !HasSpecial(r.board[i]))
      && s.drawn + CELLS <= r.drawn <= s.drawn + CELLS * (retries + 1)
      && (r.drawn < s.drawn + CELLS * (retries + 1) ==> Playable(r.board))
  {
    RedealBoard(PlayableTest(), colors, s.drawn, retries);
  }

  // ---------------------------------------------------------------------------
  // The moves: `activateSpecialMove` and `trySwap`
  // ---------------------------------------------------------------------------

  /** The tail of a move: `shuffleBoard` when the board has no potential move left. */
  function Replenish(s: State, colors: Stream, retries: nat): State
  {
    if HasAnyMove(s.board) then s else Shuffle(s, colors, retries)
  }

  /** The specials `activateSpecialMove` sets off: the one at a, then the one at b if b is another cell. */
  function Activations(board: Board, a: Index, b: Index): (acts: seq<(Index, Special)>)
    ensures |acts| <= 2
    ensures forall k | 0 <= k < |acts| :: acts[k].0 in {a, b} && HasSpecial(board[acts[k].0]) && acts[k].1 == board[acts[k].0].special
  {
    (if HasSpecial(board[a]) then [(a, board[a].special)] else []) +
    (if b != a && HasSpecial(board[b]) then [(b, board[b].special)] else [])
  }

  /** The union of the blast areas of the activations. */
  function ActivationBlast(acts: seq<(Index, Special)>): set<Index>
  {
    if acts == [] then {} else BlastArea(acts[0].0, acts[0].1) + ActivationBlast(acts[1..])
  }

  /**
   * `activateSpecialMove(a, b)`: swap the two cells (unless they are one),
   * set off the specials now at a and b, let the board fall, resolve the
   * cascades and shuffle if no move is left. With no special to set off the
   * swap alone remains.
   */
  function SpecialMove(s: State, colors: Stream, a: Index, b: Index, fuel: nat, retries: nat): State
  {
    var board := if a != b then Swap(s.board, a, b) else s.board;
    if Activations(board, a, b) == [] then s.(board := board)
    else Replenish(Resolve(SpecialFallen(s, colors, a, b), colors, None, fuel), colors, retries)
  }

  /** The state the cascades of a special move start from: the swap, the blast of the activations, the fall. */
  function SpecialFallen(s: State, colors: Stream, a: Index, b: Index): State
  {
    var board := if a != b then Swap(s.board, a, b) else s.board;
    Fall(Remove(s.(board := board), ActivationBlast(Activations(board, a, b)), map[]), colors)
  }

  /** With nothing to set off, the special move is the swap alone. */
  lemma SpecialMoveIdle(s: State, colors: Stream, a: Index, b: Index, fuel: nat, retries: nat, t: State)
    requires t == s.(board := if a != b then Swap(s.board, a, b) else s.board)
    requires Activations(t.board, a, b) == []
    ensures SpecialMove(s, colors, a, b, fuel, retries) == t
  {
  }

  /**
   * Otherwise the special move is, from the swapped state t: the blast and
   * the fall (`fallen`), then the cascades and the shuffle check (r).
   */
  lemma SpecialMoveChain(s: State, colors: Stream, a: Index, b: Index, fuel: nat, retries: nat,
                         t: State, fallen: State, r: State)
    requires t == s.(board := if a != b then Swap(s.board, a, b) else s.board)
    requires Activations(t.board, a, b) != []
    requires fallen == Fall(Remove(t, ActivationBlast(Activations(t.board, a, b)), map[]), colors)
    requires r == Replenish(Resolve(fallen, colors, None, fuel), colors, retries)
    ensures SpecialMove(s, colors, a, b, fuel, retries) == r
  {
  }

  /** The blast of `activateSpecialMove`: the union of the areas of the activations, in turn. */
  method CollectActivationBlast(acts: seq<(Index, Special)>) returns (blast: set<Index>)
    ensures blast == ActivationBlast(acts)
  {
    blast := {};
    for k := 0 to |acts|
      invariant blast + ActivationBlast(acts[k..]) == ActivationBlast(acts)
    {
      assert acts[k..][1..] == acts[k + 1..];
      var area := GetBlastArea(acts[k].0, acts[k].1);
      blast := blast + area;
    }
  }

  /**
   * The plain move of `trySwap(a, b)`: refused when the swap makes no match;
   * otherwise the swap, the cascades (whose first pass knows the swapped
   * pair) and a shuffle if no move is left.
   */
  function SwapMove(s: State, colors: Stream, a: Index, b: Index, fuel: nat, retries: nat): State
  {
    if !MakesMatch(s.board, a, b) then s
    else Replenish(Resolve(s.(board := Swap(s.board, a, b)), colors, Some((a, b)), fuel), colors, retries)
  }

  /** `trySwap(a, b)` once the guard lets it through: a special move when either cell holds a special. */
  function Turn(s: State, colors: Stream, a: Index, b: Index, fuel: nat, retries: nat): State
  {
    if HasSpecial(s.board[a]) || HasSpecial(s.board[b]) then SpecialMove(s, colors, a, b, fuel, retries)
    else SwapMove(s, colors, a, b, fuel, retries)
  }

  /**
   * After the shuffle check the score is kept; a board that had a move is
   * kept as it is; otherwise the new deal is full and playable unless all
   * retries+1 deals were refused. Either way the board has a move or every
   * deal was spent.
   */
  lemma ReplenishFacts(s: State, colors: Stream, retries: nat)
    ensures var r := Replenish(s, colors, retries);
      && r.score == s.score && r.drawn >= s.drawn
      && (HasAnyMove(s.board) ==> r == s)
      && (!HasAnyMove(s.board) ==> Full(r.board) && (r.drawn < s.drawn + CELLS * (retries + 1) ==> Playable(r.board)))
      && (HasAnyMove(r.board) || r.drawn == s.drawn + CELLS * (retries + 1))
  {
    if !HasAnyMove(s.board) {
      ShuffleFacts(s, colors, retries);
    }
  }

  /**
   * A move whose cascades start from `from`, followed by the shuffle check,
   * ended in r on a playable board (no match group and a potential move)
   * unless a bound ran out: the cascades used all their fuel, or the
   * shuffle refused all its deals.
   */
  predicate EndsPlayable(from: State, colors: Stream, swapped: SwappedPair, fuel: nat, retries: nat, r: State)
  {
    || Playable(r.board)
    || FuelSpent(from, colors, swapped, fuel)
    || r.drawn == Resolve(from, colors, swapped, fuel).drawn + CELLS * (retries + 1)
  }

  /** The cascades and the shuffle check of a move end on a playable board unless fuel or deals ran out. */
  lemma ResolveReplenish(from: State, colors: Stream, swapped: SwappedPair, fuel: nat, retries: nat)
    ensures EndsPlayable(from, colors, swapped, fuel, retries, Replenish(Resolve(from, colors, swapped, fuel), colors, retries))
  {
    var t := Resolve(from, colors, swapped, fuel);
    ResolveFacts(from, colors, swapped, fuel);
    CascadeStops(PassStep(colors), NoGroups(), from, swapped, 0, fuel);
    if !HasAnyMove(t.board) {
      ShuffleFacts(t, colors, retries);
    }
  }

  /** A board that agrees with the removal on every cell is the board after removal. */
  lemma RemovedCells(before: Board, after: seq<Cell>, blast: set<Index>, creates: map<Index, Create>)
    requires |after| == CELLS
    requires forall i: Index :: after[i] == if i in creates then Made(creates[i]) else if i in blast then Empty else before[i]
    ensures after == AfterRemoval(before, blast, creates)
  {
    assert forall i | 0 <= i < CELLS :: after[i] == AfterRemoval(before, blast, creates)[i];
  }

  /** The state `applyRemoval` leaves, from its blast set and its new board and score. */
  lemma RemoveResult(s: State, removals: set<Index>, creates: map<Index, Create>, blast: set<Index>, r: State)
    requires blast == BlastSet(s.board, removals)
    requires r.board == AfterRemoval(s.board, blast, creates)
    requires r.score == s.score + |blast| * 10 && r.drawn == s.drawn
    ensures r == Remove(s, removals, creates)
  {
  }

  /** `applyRemoval` never lowers the score and draws no colour. */
  lemma RemoveFacts(s: State, removals: set<Index>, creates: map<Index, Create>)
    ensures var r := Remove(s, removals, creates);
      && r.score == s.score + 10 * |BlastSet(s.board, removals)| && r.score >= s.score + 10 * |removals|
      && r.drawn == s.drawn
  {
    BlastSetFixedPoint(s.board, removals, removals);
    SubsetCard(removals, BlastSet(s.board, removals));
  }

  /** In a special move the swap puts the special on a or b, so there is always something to set off. */
  lemma SpecialMoveActivates(s: State, a: Index, b: Index)
    requires HasSpecial(s.board[a]) || HasSpecial(s.board[b])
    ensures Activations(if a != b then Swap(s.board, a, b) else s.board, a, b) != []
  {
    var board := if a != b then Swap(s.board, a, b) else s.board;
    if a != b {
      assert board[a] == s.board[b] && board[b] == s.board[a];
    }
    var acts := Activations(board, a, b);
    if HasSpecial(board[a]) {
      assert acts[0] == (a, board[a].special);
    } else {
      assert acts[0] == (b, board[b].special);
    }
  }

  /**
   * A special move never lowers the score nor rewinds the colour stream,
   * ends on a full board (the blast is always followed by a fall), and that
   * board is playable unless the fuel or the deals ran out.
   */
  lemma SpecialMoveFacts(s: State, colors: Stream, a: Index, b: Index, fuel: nat, retries: nat)
    requires HasSpecial(s.board[a]) || HasSpecial(s.board[b])
    ensures var r := SpecialMove(s, colors, a, b, fuel, retries);
      && r.score >= s.score && r.drawn >= s.drawn && Full(r.board)
      && EndsPlayable(SpecialFallen(s, colors, a, b), colors, None, fuel, retries, r)
  {
    ResolveReplenish(SpecialFallen(s, colors, a, b), colors, None, fuel, retries);
    SpecialMoveActivates(s, a, b);
    var board := if a != b then Swap(s.board, a, b) else s.board;
    var removed := Remove(s.(board := board), ActivationBlast(Activations(board, a, b)), map[]);
    RemoveFacts(s.(board := board), ActivationBlast(Activations(board, a, b)), map[]);
    var fallen := Fall(removed, colors);
    GravityFull(removed.board, colors, removed.drawn);
    ResolveFacts(fallen, colors, None, fuel);
    ReplenishFacts(Resolve(fallen, colors, None, fuel), colors, retries);
  }

  /**
   * A plain swap that makes no match changes nothing. One that does never
   * lowers the score nor rewinds the colour stream, keeps a full board full,
   * and ends on a playable board unless the fuel or the deals ran out.
   */
  lemma SwapMoveFacts(s: State, colors: Stream, a: Index, b: Index, fuel: nat, retries: nat)
    ensures var r := SwapMove(s, colors, a, b, fuel, retries);
      && (!MakesMatch(s.board, a, b) ==> r == s)
      && r.score >= s.score && r.drawn >= s.drawn
      && (Full(s.board) ==> Full(r.board))
      && (MakesMatch(s.board, a, b) ==> EndsPlayable(s.(board := Swap(s.board, a, b)), colors, Some((a, b)), fuel, retries, r))
  {
    if MakesMatch(s.board, a, b) {
      var swapped := s.(board := Swap(s.board, a, b));
      ResolveReplenish(swapped, colors, Some((a, b)), fuel, retries);
      ResolveFacts(swapped, colors, Some((a, b)), fuel);
      ReplenishFacts(Resolve(swapped, colors, Some((a, b)), fuel), colors, retries);
    }
  }

  /** The plain move, from whether the swap makes a match and the state it leaves. */
  lemma SwapMoveResult(s: State, colors: Stream, a: Index, b: Index, fuel: nat, retries: nat, valid: bool, r: State)
    requires valid == MakesMatch(s.board, a, b)
    requires valid ==> r == Replenish(Resolve(s.(board := Swap(s.board, a, b)), colors, Some((a, b)), fuel), colors, retries)
    requires !valid ==> r == s
    ensures SwapMove(s, colors, a, b, fuel, retries) == r
  {
  }

  /** A turn that involves a special is the special move. */
  lemma TurnSpecial(s: State, colors: Stream, a: Index, b: Index, fuel: nat, retries: nat, r: State)
    requires HasSpecial(s.board[a]) || HasSpecial(s.board[b])
    requires r == SpecialMove(s, colors, a, b, fuel, retries)
    ensures Turn(s, colors, a, b, fuel, retries) == r
  {
  }

  /** A turn that involves no special is the plain swap. */
  lemma TurnPlain(s: State, colors: Stream, a: Index, b: Index, fuel: nat, retries: nat, r: State)
    requires !HasSpecial(s.board[a]) && !HasSpecial(s.board[b])
    requires r == SwapMove(s, colors, a, b, fuel, retries)
    ensures Turn(s, colors, a, b, fuel, retries) == r
  {
  }

  /**
   * A turn of `trySwap`: refused (nothing changes) when neither cell holds a
   * special and the swap makes no match; otherwise the score never drops,
   * the colour stream only moves on, and a full board stays full — always
   * full after a special move; and a turn that is not refused ends on a
   * playable board unless the fuel or the deals ran out.
   */
  lemma TurnFacts(s: State, colors: Stream, a: Index, b: Index, fuel: nat, retries: nat)
    ensures var r := Turn(s, colors, a, b, fuel, retries);
      && (!HasSpecial(s.board[a]) && !HasSpecial(s.board[b]) && !MakesMatch(s.board, a, b) ==> r == s)
      && r.score >= s.score && r.drawn >= s.drawn
      && (Full(s.board) ==> Full(r.board))
      && (HasSpecial(s.board[a]) || HasSpecial(s.board[b]) ==> Full(r.board))
      && (HasSpecial(s.board[a]) || HasSpecial(s.board[b]) ==>
            EndsPlayable(SpecialFallen(s, colors, a, b), colors, None, fuel, retries, r))
      && (!HasSpecial(s.board[a]) && !HasSpecial(s.board[b]) && MakesMatch(s.board, a, b) ==>
            EndsPlayable(s.(board := Swap(s.board, a, b)), colors, Some((a, b)), fuel, retries, r))
  {
    if HasSpecial(s.board[a]) || HasSpecial(s.board[b]) {
      SpecialMoveFacts(s, colors, a, b, fuel, retries);
    } else {
      SwapMoveFacts(s, colors, a, b, fuel, retries);
    }
  }

  // ---------------------------------------------------------------------------
  // The game object
  // ---------------------------------------------------------------------------

  class Game {
    /** The 49 cells, row-major. */
    const board: array<Cell>
    var score: int
    /** Set while a move is being resolved; `trySwap` does nothing while it is set. */
    var locked: bool
    /** The colour the n-th fresh token takes. */
    const colors: Stream
    /** How many fresh colours have been drawn so far. */
    var drawn: nat

    ghost predicate Valid()
    {
      board.Length == CELLS
    }

    /** The board, the score and the stream position, as a value. */
    function Snapshot(): State
      requires Valid()
      reads this`score, this`drawn, board
    {
      State(board[..], score, drawn)
    }

    /** `makeCell()`: a plain token of the next colour of the stream. */
    method MakeCell() returns (cell: Cell)
      modifies this
      ensures cell == Token(colors(old(drawn)), Plain)
      ensures drawn == old(drawn) + 1
      ensures score == old(score) && locked == old(locked)
    {
      cell := Token(colors(drawn), Plain);
      drawn := drawn + 1;
    }

    /** `board[PosToIdx(r, c)] = cell`, seen on column c. */
    method WriteCell(r: Coord, c: Coord, cell: Cell, ghost col: seq<Cell>)
      requires Valid() && ColumnIs(board[..], c, col)
      modifies board
      ensures ColumnIs(board[..], c, col[r := cell])
      ensures forall i: Index | Col(i) != c :: board[i] == old(board[i])
    {
      ghost var before := board[..];
      board[PosToIdx(r, c)] := cell;
      assert board[..] == before[PosToIdx(r, c) := cell];
    }

    /**
     * The first loop of `applyGravity` on column c: the write pointer walks
     * up from the bottom row and every token moves down to it.
     */
    method CompactColumn(c: Coord) returns (write: int)
      requires Valid()
      modifies board
      ensures write == WriteRow(Column(old(board[..]), c), -1)
      ensures ColumnIs(board[..], c, Stage(Column(old(board[..]), c), -1))
      ensures forall i: Index | Col(i) != c :: board[i] == old(board[i])
    {
      ghost var col := Column(board[..], c);
      ghost var cur := col;
      StageStart(col);
      write := SIZE - 1;
      var r := SIZE - 1;
      while r >= 0
        invariant -1 <= r < SIZE
        invariant write == WriteRow(col, r)
        invariant cur == Stage(col, r)
        invariant ColumnIs(board[..], c, cur)
        invariant forall i: Index | Col(i) != c :: board[i] == old(board[i])
        decreases r + 1
      {
        var idx := PosToIdx(r, c);
        if board[idx] != Empty {
          StageToken(col, r);
          WriteCell(write, c, board[idx], cur);
          cur := cur[write := col[r]];
          if write != r {
            WriteCell(r, c, Empty, cur);
            cur := cur[r := Empty];
          }
          write := write - 1;
        } else {
          StageEmpty(col, r);
        }
        r := r - 1;
      }
    }

    /** The second loop of `applyGravity` on column c: the rows from the write pointer up get fresh tokens, bottom-up. */
    method RefillColumn(c: Coord, write0: int, ghost col: seq<Cell>)
      requires Valid() && |col| == SIZE && write0 == Holes(col) - 1
      requires ColumnIs(board[..], c, Filling(Settle(col, colors, drawn), write0))
      modifies this, board
      ensures ColumnIs(board[..], c, Settle(col, colors, old(drawn)))
      ensures drawn == old(drawn) + Holes(col)
      ensures forall i: Index | Col(i) != c :: board[i] == old(board[i])
      ensures score == old(score) && locked == old(locked)
    {
      ghost var d := drawn;
      ghost var settled := Settle(col, colors, d);
      ghost var cur := Filling(settled, write0);
      var write := write0;
      while write >= 0
        invariant -1 <= write < SIZE && write < Holes(col)
        invariant cur == Filling(settled, write)
        invariant ColumnIs(board[..], c, cur)
        invariant forall i: Index | Col(i) != c :: board[i] == old(board[i])
        invariant drawn == d + Holes(col) - 1 - write
        invariant score == old(score) && locked == old(locked)
        decreases write + 1
      {
        FillStep(col, colors, d, write);
        var cell := MakeCell();
        WriteCell(write, c, cell, cur);
        cur := cur[write := cell];
        write := write - 1;
      }
      FillDone(settled);
    }

    /**
     * One column of `applyGravity`: the tokens move down to the bottom rows
     * in their order and the rows above are refilled with fresh tokens.
     */
    method SettleColumn(c: Coord)
      requires Valid()
      modifies this, board
      ensures Column(board[..], c) == Settle(Column(old(board[..]), c), colors, old(drawn))
      ensures drawn == old(drawn) + Holes(Column(old(board[..]), c))
      ensures forall i: Index | Col(i) != c :: board[i] == old(board[i])
      ensures score == old(score) && locked == old(locked)
    {
      ghost var col := Column(board[..], c);
      var write := CompactColumn(c);
      StageDone(col, colors, drawn);
      RefillColumn(c, write, col);
      ColumnIsColumn(board[..], c, Settle(col, colors, old(drawn)));
    }

    /**
     * `applyGravity`: in every column the tokens fall to the bottom in their
     * order and the holes above are refilled, column by column from the left.
     */
    method ApplyGravity()
      requires Valid()
      modifies this, board
      ensures board[..] == Gravity.ApplyGravity(old(board[..]), colors, old(drawn))
      ensures drawn == old(drawn) + Draws(old(board[..]))
      ensures score == old(score) && locked == old(locked)
    {
      ghost var b := board[..];
      ghost var d := drawn;
      ghost var g := Gravity.ApplyGravity(b, colors, d);
      for c := 0 to SIZE
        invariant drawn == d + DrawsBefore(b, c)
        invariant forall i: Index | Col(i) < c :: board[i] == g[i]
        invariant forall i: Index | Col(i) >= c :: board[i] == b[i]
        invariant score == old(score) && locked == old(locked)
      {
        GravityColumn(b, colors, d, c);
        SettleInto(c, b, g, d);
      }
      assert board[..] == g;
    }

    /** Column c of `applyGravity`, with b the board before and g the board after. */
    method SettleInto(c: Coord, ghost b: Board, ghost g: Board, ghost d: nat)
      requires Valid()
      requires drawn == d + DrawsBefore(b, c)
      requires forall i: Index | Col(i) < c :: board[i] == g[i]
      requires forall i: Index | Col(i) >= c :: board[i] == b[i]
      requires Column(g, c) == Settle(Column(b, c), colors, d + DrawsBefore(b, c))
      modifies this, board
      ensures drawn == d + DrawsBefore(b, c + 1)
      ensures forall i: Index | Col(i) < c + 1 :: board[i] == g[i]
      ensures forall i: Index | Col(i) >= c + 1 :: board[i] == b[i]
      ensures score == old(score) && locked == old(locked)
    {
      SameColumn(board[..], b, c);
      SettleColumn(c);
      SameCells(board[..], g, c);
    }

    /**
     * `applyRemoval(removals, creates)`: the blast set (the removals and the
     * chains their specials set off) is emptied, then each creation is
     * placed, and every cleared cell scores 10.
     */
    method ApplyRemoval(removals: set<Index>, creates: map<Index, Create>) returns (blast: set<Index>)
      requires Valid()
      modifies this, board
      ensures blast == BlastSet(old(board[..]), removals)
      ensures Snapshot() == Remove(old(Snapshot()), removals, creates)
      ensures locked == old(locked)
    {
      ghost var s := Snapshot();
      blast := CollectBlastSet(board[..], removals);
      ClearCells(blast);
      PlaceCreates(creates);
      score := score + |blast| * 10;
      RemovedCells(s.board, board[..], blast, creates);
      RemoveResult(s, removals, creates, blast, Snapshot());
    }

    /** The `blastSet.forEach` loop of `applyRemoval`: every cell of `cells` becomes empty. */
    method ClearCells(cells: set<Index>)
      requires Valid()
      modifies board
      ensures forall i: Index :: board[i] == if i in cells then Empty else old(board[i])
    {
      var todo := cells;
      while todo != {}
        invariant todo <= cells
        invariant forall i: Index :: board[i] == if i in cells - todo then Empty else old(board[i])
        decreases todo
      {
        var idx :| idx in todo;
        board[idx] := Empty;
        todo := todo - {idx};
      }
    }

    /**
     * The `specialCreates.forEach` loop of `applyRemoval`: each creation
     * either makes a new token on an empty cell or recolours the token there
     * and gives it the special; either way the cell ends as the created token.
     */
    method PlaceCreates(creates: map<Index, Create>)
      requires Valid()
      modifies board
      ensures forall i: Index :: board[i] == if i in creates then Made(creates[i]) else old(board[i])
    {
      var keys := creates.Keys;
      while keys != {}
        invariant keys <= creates.Keys
        invariant forall i: Index :: board[i] == if i in creates && i !in keys then Made(creates[i]) else old(board[i])
        decreases keys
      {
        var idx :| idx in keys;
        var c := creates[idx];
        if board[idx] == Empty {
          board[idx] := Made(c);
        } else {
          board[idx] := board[idx].(color := c.color, special := c.special);
        }
        keys := keys - {idx};
      }
    }

    /** One pass of the loop of `resolveCascades`, on the groups `findMatchGroups` found. */
    method RunPass(groups: seq<Group>, swapped: SwappedPair, combo: nat)
      requires Valid() && groups == MatchGroups(board[..])
      modifies this, board
      ensures Snapshot() == Pass(old(Snapshot()), colors, swapped, combo)
      ensures locked == old(locked)
    {
      MatchGroupsTokens(board[..]);
      var removals := CollectRemovals(groups);
      var plan := PlaceRockets(board[..], groups, swapped, combo, Plan(removals, map[]));
      var components := GetMatchedComponents(board[..], groups);
      plan := PlaceBombs(components, swapped, plan);
      var _ := ApplyRemoval(plan.removals, plan.creates);
      ApplyGravity();
    }

    /**
     * One turn of the loop of `resolveCascades`: when `findMatchGroups` finds
     * nothing (or the fuel is spent) the loop stops where it is; otherwise the
     * pass count goes up, the pass runs, and the rest of the cascade goes on
     * from the new state without the swapped pair.
     */
    method CascadeTurn(swapped: SwappedPair, combo: nat, fuel: nat) returns (stop: bool, combo': nat, fuel': nat)
      requires Valid()
      modifies this, board
      ensures stop ==> Snapshot() == old(Snapshot()) && combo' == combo
      ensures stop ==> Cascade(PassStep(colors), NoGroups(), old(Snapshot()), swapped, combo, fuel) == (Snapshot(), combo')
      ensures !stop ==> fuel' < fuel
      ensures !stop ==> Cascade(PassStep(colors), NoGroups(), Snapshot(), None, combo', fuel') ==
                        Cascade(PassStep(colors), NoGroups(), old(Snapshot()), swapped, combo, fuel)
      ensures locked == old(locked)
    {
      var groups := FindMatchGroups(board[..]);
      if fuel == 0 || |groups| == 0 {
        CascadeStop(PassStep(colors), NoGroups(), Snapshot(), swapped, combo, fuel);
        return true, combo, fuel;
      }
      ghost var s := Snapshot();
      combo' := combo + 1;
      RunPass(groups, swapped, combo');
      fuel' := fuel - 1;
      stop := false;
      assert !NoGroups()(s.board);
      assert Snapshot() == PassStep(colors)(s, swapped, combo');
      CascadeNext(PassStep(colors), NoGroups(), s, swapped, combo, fuel, Snapshot(), combo', fuel');
    }

    /**
     * `resolveCascades(swapped)`: passes run while `findMatchGroups` finds
     * groups, at most `fuel` of them; only the first sees the swapped pair,
     * and a cascade of two passes or more scores 20 per pass.
     */
    method ResolveCascades(swapped: SwappedPair, fuel: nat)
      requires Valid()
      modifies this, board
      ensures Snapshot() == Resolve(old(Snapshot()), colors, swapped, fuel)
      ensures locked == old(locked)
    {
      ghost var start := Snapshot();
      var combo := 0;
      var pair := swapped;
      var left := fuel;
      while true
        invariant Cascade(PassStep(colors), NoGroups(), Snapshot(), pair, combo, left) ==
                  Cascade(PassStep(colors), NoGroups(), start, swapped, 0, fuel)
        invariant locked == old(locked)
        decreases left
      {
        var stop;
        stop, combo, left := CascadeTurn(pair, combo, left);
        if stop {
          break;
        }
        pair := None;
      }
      ResolveEnd(start, colors, swapped, fuel, Snapshot(), combo);
      AddCascadeBonus(combo);
    }

    /** The end of `resolveCascades`: 20 points per pass for a cascade of two passes or more. */
    method AddCascadeBonus(combo: nat)
      requires Valid()
      modifies this
      ensures Snapshot() == if combo > 1 then old(Snapshot()).(score := old(score) + 20 * combo) else old(Snapshot())
      ensures locked == old(locked)
    {
      if combo > 1 {
        score := score + combo * 20;
      }
    }

    /** The deal of `shuffleBoard`: 49 fresh cells, in index order. */
    method DealBoard()
      requires Valid()
      modifies this, board
      ensures board[..] == Deal(colors, old(drawn))
      ensures drawn == old(drawn) + CELLS
      ensures score == old(score) && locked == old(locked)
    {
      for i := 0 to CELLS
        invariant drawn == old(drawn) + i
        invariant forall j | 0 <= j < i :: board[j] == Token(colors(old(drawn) + j), Plain)
        invariant score == old(score) && locked == old(locked)
      {
        var cell := MakeCell();
        board[i] := cell;
      }
    }

    /** One round of the loop of `shuffleBoard`: a deal, and whether it has no match group and a move. */
    method DealAndJudge() returns (ok: bool)
      requires Valid()
      modifies this, board
      ensures board[..] == Deal(colors, old(drawn))
      ensures drawn == old(drawn) + CELLS
      ensures ok == PlayableTest()(Deal(colors, old(drawn)))
      ensures score == old(score) && locked == old(locked)
    {
      DealBoard();
      var groups := FindMatchGroups(board[..]);
      ok := false;
      if |groups| == 0 {
        ok := HasAnyMoveOn(board);
      }
    }

    /** `shuffleBoard`: deal until the board has no match group and a move, with at most `retries` deals after the first. */
    method ShuffleBoard(retries: nat)
      requires Valid()
      modifies this, board
      ensures Snapshot() == Shuffle(old(Snapshot()), colors, retries)
      ensures locked == old(locked)
    {
      ghost var target := Redeal(PlayableTest(), colors, drawn, retries);
      var left := retries;
      while true
        invariant Redeal(PlayableTest(), colors, drawn, left) == target
        invariant score == old(score) && locked == old(locked)
        decreases left
      {
        ghost var d, l := drawn, left;
        var ok := DealAndJudge();
        if ok || left == 0 {
          RedealStop(PlayableTest(), colors, d, left, board[..], drawn);
          return;
        }
        left := left - 1;
        RedealNext(PlayableTest(), colors, d, l, drawn, left);
      }
    }

    /** `createBoard` for a new game: a playable deal from the start of the stream, score 0, unlocked. */
    constructor (colors: Stream, retries: nat)
      ensures Valid() && fresh(board)
      ensures this.colors == colors
      ensures Snapshot() == Shuffle(State(seq(CELLS, _ => Empty), 0, 0), colors, retries)
      ensures !locked
    {
      board := new Cell[CELLS](_ => Empty);
      score := 0;
      locked := false;
      this.colors := colors;
      drawn := 0;
      new;
      ShuffleBoard(retries);
    }

    /** `resetGame`: score 0, unlocked, a new playable deal. */
    method ResetGame(retries: nat)
      requires Valid()
      modifies this, board
      ensures Snapshot() == Shuffle(old(Snapshot()).(score := 0), colors, retries)
      ensures !locked
    {
      score := 0;
      locked := false;
      ShuffleBoard(retries);
    }

    /** The end of a move: `shuffleBoard` when `hasAnyMove` finds no move. */
    method ShuffleIfStuck(retries: nat)
      requires Valid()
      modifies this, board
      ensures Snapshot() == Replenish(old(Snapshot()), colors, retries)
      ensures locked == old(locked)
    {
      var any := HasAnyMoveOn(board);
      if !any {
        ShuffleBoard(retries);
      }
    }

    /** The specials `activateSpecialMove` sets off, read from the board. */
    method SpecialsAt(a: Index, b: Index) returns (acts: seq<(Index, Special)>)
      requires Valid()
      ensures acts == Activations(board[..], a, b)
    {
      acts := [];
      if HasSpecial(board[a]) {
        acts := acts + [(a, board[a].special)];
      }
      if b != a && HasSpecial(board[b]) {
        acts := acts + [(b, board[b].special)];
      }
    }

    /** `activateSpecialMove(a, b)`. */
    method ActivateSpecialMove(a: Index, b: Index, fuel: nat, retries: nat)
      requires Valid()
      modifies this, board
      ensures Snapshot() == SpecialMove(old(Snapshot()), colors, a, b, fuel, retries)
      ensures !locked
    {
      ghost var s := Snapshot();
      locked := true;
      if a != b {
        SwapIn(board, a, b);
      }
      ghost var t := Snapshot();
      var activations := SpecialsAt(a, b);
      if |activations| == 0 {
        locked := false;
        SpecialMoveIdle(s, colors, a, b, fuel, retries, t);
        return;
      }
      SetOff(activations);
      ghost var fallen := Snapshot();
      FinishMove(None, fuel, retries);
      locked := false;
      SpecialMoveChain(s, colors, a, b, fuel, retries, t, fallen, Snapshot());
    }

    /** The blast of the activations, then the fall. */
    method SetOff(acts: seq<(Index, Special)>)
      requires Valid()
      modifies this, board
      ensures Snapshot() == Fall(Remove(old(Snapshot()), ActivationBlast(acts), map[]), colors)
      ensures locked == old(locked)
    {
      var blast := CollectActivationBlast(acts);
      var _ := ApplyRemoval(blast, map[]);
      ApplyGravity();
    }

    /** The end of both moves: `resolveCascades`, then `shuffleBoard` if no move is left. */
    method FinishMove(swapped: SwappedPair, fuel: nat, retries: nat)
      requires Valid()
      modifies this, board
      ensures Snapshot() == Replenish(Resolve(old(Snapshot()), colors, swapped, fuel), colors, retries)
      ensures locked == old(locked)
    {
      ResolveCascades(swapped, fuel);
      ShuffleIfStuck(retries);
    }

    /**
     * `trySwap(a, b)`: nothing while a move is being resolved; a special
     * move when either cell holds a special; otherwise the swap is made only
     * if it makes a match, and then resolved.
     */
    method TrySwap(a: Index, b: Index, fuel: nat, retries: nat)
      requires Valid()
      modifies this, board
      ensures old(locked) ==> Snapshot() == old(Snapshot()) && locked
      ensures !old(locked) ==> Snapshot() == Turn(old(Snapshot()), colors, a, b, fuel, retries) && !locked
    {
      if locked {
        return;
      }
      ghost var s := Snapshot();
      if HasSpecial(board[a]) || HasSpecial(board[b]) {
        ActivateSpecialMove(a, b, fuel, retries);
        TurnSpecial(s, colors, a, b, fuel, retries, Snapshot());
        return;
      }
      PlainSwap(a, b, fuel, retries);
      TurnPlain(s, colors, a, b, fuel, retries, Snapshot());
    }

    /** The rest of `trySwap(a, b)` when neither cell holds a special: the swap is made only if it makes a match. */
    method PlainSwap(a: Index, b: Index, fuel: nat, retries: nat)
      requires Valid()
      modifies this, board
      ensures Snapshot() == SwapMove(old(Snapshot()), colors, a, b, fuel, retries)
      ensures !locked
    {
      ghost var s := Snapshot();
      locked := true;
      var valid := CanSwapMakeMatch(board, a, b);
      assert s == Snapshot();
      if valid {
        CommitSwap(a, b, fuel, retries);
      }
      ghost var r := Snapshot();
      locked := false;
      SwapMoveResult(s, colors, a, b, fuel, retries, valid, r);
    }

    /** An accepted plain swap: `swapIn`, the cascades, whose first pass knows the pair, and the shuffle check. */
    method CommitSwap(a: Index, b: Index, fuel: nat, retries: nat)
      requires Valid()
      modifies this, board
      ensures Snapshot() == Replenish(Resolve(old(Snapshot()).(board := Swap(old(board[..]), a, b)), colors, Some((a, b)), fuel), colors, retries)
      ensures locked == old(locked)
    {
      SwapIn(board, a, b);
      FinishMove(Some((a, b)), fuel, retries);
    }
  }
}
