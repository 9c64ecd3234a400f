# Match-3 rule engine in Dafny

This project models the rule engine of a 7×7 match-3 game written in
JavaScript (`game.js`) and proves properties of that model. The board holds
49 cells in row-major order. A cell is empty or holds a token of one of
4 colours. A token may be plain or special: a horizontal rocket, a vertical
rocket or a bomb.

A player move swaps two cells. A plain swap is accepted only if it makes a
run of 3 or more tokens of one colour. A swap that involves a special sets
the special off instead. The move then resolves in passes. In each pass:

- the runs are found (`scanLineGroups`, `findMatchGroups`);
- runs are joined into same-coloured regions (`getMatchedComponents`);
- a run of 4 leaves a rocket and a region of more than 4 leaves a bomb
  (`chooseSpecialIndex`, `upsertSpecialCreate`);
- the matched cells, plus everything the specials among them clear in a
  chain, are removed at 10 points per cell (`applyRemoval`,
  `collectSpecialBlast`, `getBlastArea`);
- the columns fall and are refilled from the top (`applyGravity`).

The passes repeat until no run is left. A cascade of two passes or more
earns a bonus of 20 points per pass. If no move is left afterwards, the board
is dealt afresh (`shuffleBoard`).

## Layout

| module | file | contents |
|---|---|---|
| `Wrappers` | wrappers.dfy | `Option` |
| `Geometry` | geometry.dfy | indices, positions, adjacency, lines, swipes |
| `Cells` | cells.dfy | cells, specials, boards, `Swap` |
| `Matching` | matching.dfy | run detection, as a function and as the loops of the source |
| `Components` | components.dfy | the BFS flood fill |
| `Specials` | specials.dfy | pivots, merging creations, blast areas, chained detonations |
| `Gravity` | gravity.dfy | falling and refilling, as a function on boards |
| `Moves` | moves.dfy | `canSwapMakeMatch`, `findPotentialMove`, `hasAnyMove` on arrays |
| `Resolution` | resolution.dfy | the plan of a pass, the pass, the cascade and its score |
| `Game` | game.dfy | the `Game` class and the moves |

Each loop of the source is a method that carries loop invariants. Each such
method is proved equal to a pure function of its inputs, and the properties
are proved as lemmas about those functions.

The class `Game.Game` holds the mutable state: the `board` array, `score`,
`locked`, and the position `drawn` in the colour stream. Its methods update
that state in place. Each is proved to produce exactly the state that the
pure model of the operation computes.

Random colours are a parameter. The stream `colors: nat -> Color` replaces
`Math.random`, and the n-th token made takes colour `colors(n)`.

## Model

| member | source | states |
|---|---|---|
| Geometry.Row | game.js:91-93 | the row of a cell is the one whose index range holds it |
| Geometry.Col | game.js:91-93 | the row and the column rebuild the index |
| Geometry.IdxToPos | game.js:91-93 | the position (r, c) satisfies r·7 + c == index |
| Geometry.PosToIdx | game.js:95-97 | the index of (r, c) has row r and column c |
| Geometry.PositionRoundTrip | game.js:91-97 | `posToIdx ∘ idxToPos` and `idxToPos ∘ posToIdx` are both identities |
| Geometry.AdjacentIsNeighbour | game.js:99-103 | adjacency is symmetric and irreflexive; it holds exactly for left/right neighbours in a row and up/down neighbours in a column |
| Geometry.CellIdx | game.js:504-506 | cell s of line p lies at row p, column s for a row, and at column p, row s for a column |
| Geometry.SwipeTarget | game.js:442-455 | the target is an adjacent cell; a drag with \|dx\| ≥ \|dy\| goes one column toward dx and otherwise one row toward dy; there is no target exactly when that step leaves the board |
| Cells.Swap | game.js:115-117 | the two cells are exchanged and every other cell is kept |
| Cells.SwapPermutes | game.js:115-117 | a swap only rearranges the board: the multiset of cells is unchanged |
| Matching.LineFromSound | game.js:511-544 | every group the scan of one line emits is tagged with the line's axis, has ≥ 3 cells, and is a maximal run of one colour at consecutive positions |
| Matching.LineFromComplete | game.js:511-544 | every maximal run of ≥ 3 on a line, not starting before the current run, is emitted |
| Matching.MatchGroupsSound | game.js:508-551 | every group of `findMatchGroups` is a maximal run of ≥ 3 tokens of one colour, consecutive along a row (H) or a column (V) |
| Matching.GroupAtCells | game.js:525-538 | all cells of a group hold tokens of the colour of its first cell |
| Matching.MatchGroupsComplete | game.js:508-551 | every maximal run of ≥ 3 same-coloured tokens on any row or column is a group of `findMatchGroups` |
| Matching.ScanCell | game.js:514-538 | one position of the inner loop keeps the scan invariant: the run so far, and the groups emitted so far followed by what the rest of the line emits |
| Matching.FlushRun | game.js:541-543 | a finished run is appended as a group exactly when it holds ≥ 3 cells |
| Matching.ScanLine | game.js:512-543 | the inner loop over one line emits that line's groups |
| Matching.ScanLineGroups | game.js:508-547 | the loops emit the groups of every line, line by line |
| Matching.FindMatchGroups | game.js:549-551 | the row groups followed by the column groups, each a match group of the board |
| Components.MatchedOrderFacts | game.js:569-570 | `matchedSet`, in insertion order, lists each cell of each group exactly once |
| Components.AddGroupCells | game.js:570 | adding one group's cells keeps the order and the membership set in step |
| Components.CollectMatched | game.js:569-570 | the first loop builds `matchedSet` in its iteration order |
| Components.Neighbours | game.js:588-597 | the neighbours tried (up, down, left, right, on the board) are all adjacent |
| Components.EnqueueFacts | game.js:596-603 | the neighbour loop appends distinct, unvisited, matched neighbours of the component's colour, and marks exactly those visited |
| Components.EnqueueNeighbours | game.js:596-603 | the `neighbors.forEach` loop computes the neighbour step of the BFS |
| Components.BfsStart | game.js:581-587 | a fill records its start cell first |
| Components.FloodFill | game.js:581-604 | the `while (queue.length > 0)` loop is the BFS from `start` |
| Components.ComponentsDistinct | game.js:572-607 | the components never share a cell, neither with each other nor with the cells visited before |
| Components.ComponentsShape | game.js:575-607 | each component is non-empty, a BFS tree from its start, and made of matched tokens of its colour |
| Components.ComponentsCover | game.js:575-607 | every matched start cell holding a token ends up visited |
| Components.MatchedComponentsFacts | game.js:568-610 | the components are pairwise disjoint, each without repeats, and together cover exactly the matched cells holding a token; each has one colour, and each cell after the first neighbours an earlier one, so all reach the start through matched cells of that colour; and each is maximal: a matched token of its colour next to one of its cells belongs to it |
| Components.ComponentsMaximal | game.js:575-607 | no component can grow: a matched token of the component's colour adjacent to one of its cells is one of its cells |
| Components.ComponentsClosed | game.js:575-607 | over a visited set closed under same-colour matched neighbours, every component the loop builds holds all the joinable neighbours of its cells |
| Components.FillClosed | game.js:581-604 | one flood fill over a closed visited set holds every joinable neighbour of its cells, and the visited set stays closed |
| Components.BfsClosed | game.js:588-603 | the queue loop leaves no joinable neighbour of a recorded cell unvisited |
| Components.EnqueueCovers | game.js:596-603 | after the neighbour loop every joinable neighbour is visited |
| Components.NeighboursComplete | game.js:588-597 | every cell adjacent to a cell is among the neighbours the fill looks at |
| Components.GetMatchedComponents | game.js:568-610 | the method computes the components of the board passed to it |
| Specials.ChooseSpecialIndex | game.js:553-559 | the pivot is a cell of the group: the first swapped cell in it, else the second, else `cells[floor(len/2)]` |
| Specials.Upsert | game.js:561-566 | only the key idx changes; the first creation of a cell is kept, except that a bomb replaces a non-bomb; a bomb is never replaced |
| Specials.BlastAreaShape | game.js:632-653 | the area holds the centre; for a plain token it is only the centre; for `rocket-h`/`rocket-v` it is exactly the 7 cells of the row/column; for a bomb it is exactly the on-board cells at most 2 rows and 2 columns away |
| Specials.BombRow | game.js:642-648 | the inner `dc` loop adds the on-board cells of one row offset |
| Specials.RowBlast | game.js:636-637 | the `rocket-h` loop gives the row area |
| Specials.ColBlast | game.js:638-639 | the `rocket-v` loop gives the column area |
| Specials.BombBlast | game.js:640-649 | the bomb loops give the clipped 5×5 area |
| Specials.GetBlastArea | game.js:632-653 | the method computes the blast area |
| Specials.ReachFacts | game.js:612-630 | the cells set off by a chain hold the start; the set is closed under detonation and is the least such set; a plain start sets nothing off |
| Specials.ChainClosed | game.js:612-630 | fixed point: a special start's area is cleared, and every special inside the cleared cells has its whole area cleared |
| Specials.Detonate | game.js:625-628 | one blast adds its whole area to the result and queues its unvisited specials |
| Specials.ChainStep | game.js:616-628 | one turn of the worklist keeps the loop invariant; either the visited set grows or the queue shrinks, so the loop ends |
| Specials.ChainDone | game.js:616-629 | once the queue is empty, the result is the old set plus the chain's area |
| Specials.CollectSpecialBlast | game.js:612-630 | `resultSet` grows by exactly the area of the chain from `start` |
| Specials.BlastSetFixedPoint | game.js:676-680 | `blastSet` holds the removals and is closed under detonation, and it is the least such set |
| Specials.CollectBlastSet | game.js:676-680 | the first loops of `applyRemoval` compute `blastSet` |
| Gravity.PositionsMatch | game.js:659-665 | the tokens kept in a column are the cells at its token positions, in order |
| Gravity.PositionsIncrease | game.js:659-665 | the token positions increase: the fall keeps the top-to-bottom order |
| Gravity.PositionsComplete | game.js:659-665 | every token of the column is at a token position: only holes are dropped |
| Gravity.Fresh | game.js:668-671 | the refill makes one token per hole |
| Gravity.SettleFacts | game.js:655-673 | a settled column has fresh plain tokens in its top rows (the lowest made first) and the kept tokens, in order, below them; no cell is empty |
| Gravity.GravityFull | game.js:655-673 | after gravity no cell is empty |
| Gravity.GravityColumn | game.js:655-673 | each column after gravity is that column settled, and the columns draw colours in turn from the left |
| Gravity.GravityOnFull | game.js:655-673 | gravity on a board without holes changes nothing and draws no colour |
| Moves.MoveNeighboursAdjacent | game.js:770-774 | the neighbours tried are exactly the adjacent cells, each once |
| Moves.FirstInNone | game.js:776-781 | the neighbour loop finds nothing exactly when every neighbour is refused |
| Moves.FirstInSome | game.js:776-781 | a found neighbour is accepted and all neighbours before it are refused |
| Moves.PotentialMoveFacts | game.js:767-784 | a found move is adjacent and accepted (special at `from`, or the swap makes a match), and every pair scanned before it is refused; nothing is found exactly when every adjacent pair is refused |
| Moves.CloneBoard | game.js:111-113 | the clone is a fresh array with the same cells |
| Moves.SwapIn | game.js:115-117 | the array afterwards is the old board with the two cells exchanged |
| Moves.CanSwapMakeMatch | game.js:761-765 | true exactly when the swapped board has a match group; the array is not changed |
| Moves.NeighboursOf | game.js:770-774 | the list builds the neighbours in the order right, left, down, up |
| Moves.ScanNeighbours | game.js:776-781 | the inner loop finds the first accepted neighbour |
| Moves.ScanCell | game.js:768-782 | one cell of the outer loop finds that cell's first accepted neighbour |
| Moves.FindPotentialMove | game.js:767-784 | the method returns the first accepted move in scan order, and does not change the array |
| Moves.HasAnyMoveOn | game.js:786-788 | true exactly when some move is found |
| Resolution.MatchGroupsTokens | game.js:517-532 | the cells of every group hold tokens |
| Resolution.PlanRocketsFacts | game.js:720-735 | the rocket loop keeps each matched cell either removed or a creation; the pivot of every group of 4 becomes a creation |
| Resolution.PlanBombsFacts | game.js:737-743 | the bomb loop keeps the plan invariant; the pivot of every component of more than 4 cells gets a bomb |
| Resolution.PassPlanFacts | game.js:715-743 | removals and creations split the matched cells exactly; each creation is a special of the colour of its token; pivots of groups of 4 get a special, and pivots of components over 4 get a bomb |
| Resolution.PassRocketKinds | game.js:720-734 | every rocket created is that of the first group of 4, in the order of the groups, whose pivot is its cell, since `upsertSpecialCreate` keeps the first entry: it follows the swap axis in the first pass of a swap and that group's axis otherwise |
| Resolution.RocketKindsStep | game.js:720-734 | one group's turn: its pivot gets its rocket only when no earlier group of 4 has that pivot, and every earlier pivot keeps its entry |
| Resolution.CollectRemovals | game.js:718 | `removals` is every cell of every group |
| Resolution.PlaceRockets | game.js:720-735 | the rocket loop computes the rocket plan |
| Resolution.PlaceBombs | game.js:738-743 | the bomb loop computes the bomb plan |
| Resolution.RemovalEmpties | game.js:689-700 | after removal the empty cells are exactly the blast cells without a creation, and cells outside both keep their token |
| Resolution.PassFacts | game.js:714-752 | a pass leaves no empty cell, adds exactly 10 per cell of the blast set (so at least 10 per removal), and draws one colour per hole left |
| Resolution.CascadeStops | game.js:710-753 | the cascade runs between 0 and `fuel` passes, and stops early only when no group is left |
| Resolution.PassStepFacts | game.js:714-752 | passes never lower the score, never rewind the colour stream, and leave a full board |
| Resolution.CascadeMonotone | game.js:710-753 | a cascade never lowers the score or rewinds the stream |
| Resolution.CascadeFull | game.js:710-753 | after at least one pass, or from a full board, the cascade ends full |
| Resolution.ResolveStable | game.js:707-712 | a board with no group is left untouched and earns nothing |
| Resolution.ResolveFacts | game.js:707-759 | the cascade's board is kept; the score gains 20·combo exactly when combo > 1; the score never drops; the result is stable unless the fuel ran out; a full board stays full |
| Game.Deal | game.js:790-794 | a deal is a full board of plain tokens taking the next 49 colours in index order |
| Game.RedealFacts | game.js:790-794 | the loop makes between 1 and retries+1 deals of 49 colours each and keeps the last; it is accepted unless every deal was spent |
| Game.RedealBoard | game.js:790-794 | the board kept is full and has no special |
| Game.ShuffleFacts | game.js:790-794 | `shuffleBoard` keeps the score and leaves a full board of plain tokens, playable (no group, some move) unless every deal was refused |
| Game.Activations | game.js:893-895 | the specials set off are found at a and, when b differs, at b, with their kinds |
| Game.CollectActivationBlast | game.js:903-906 | the blast is the union of the activations' areas |
| Game.ReplenishFacts | game.js:917-922 | the shuffle check keeps the score; a board with a move is kept; a stuck one is redealt full and playable unless every deal was spent |
| Game.RemoveFacts | game.js:675-705 | `applyRemoval` adds exactly 10 per blast cell (at least 10 per removal) and draws no colour |
| Game.SpecialMoveActivates | game.js:887-895 | after the swap, the special that was at a or b sits at b or a, so there is always something to set off |
| Game.ResolveReplenish | game.js:917-922 | the cascades followed by the shuffle check end on a board with no match group and a potential move, unless the cascades used all their fuel or the shuffle refused all its deals |
| Game.SpecialMoveFacts | game.js:882-927 | a special move never lowers the score or rewinds the stream, ends on a full board, and that board has no match group and a potential move unless the fuel or the deals ran out |
| Game.SwapMoveFacts | game.js:938-966 | a swap that makes no match changes nothing; otherwise the score never drops, a full board stays full, and the board ends with no match group and a potential move unless the fuel or the deals ran out |
| Game.TurnFacts | game.js:929-967 | a turn with no special and no match is refused unchanged; otherwise the score never drops, a full board stays full, a special move always ends full, and a turn that is not refused ends with no match group and a potential move unless the fuel or the deals ran out |
| Game.Game.MakeCell | game.js:87-89 | a plain token of the next stream colour; the stream advances by one |
| Game.Game.CompactColumn | game.js:657-666 | the write-pointer loop moves a column's tokens to its bottom rows in order, leaving the rest of the board alone |
| Game.Game.RefillColumn | game.js:668-671 | the rows above the write pointer get fresh tokens, bottom-up |
| Game.Game.SettleColumn | game.js:656-672 | one column's array cells become the settled column |
| Game.Game.ApplyGravity | game.js:655-673 | the array becomes the board after gravity, and the stream advances by one colour per hole |
| Game.Game.ClearCells | game.js:689-691 | exactly the given cells become empty |
| Game.Game.PlaceCreates | game.js:693-700 | every creation cell ends as the created token, whether it was empty or not; the others are kept |
| Game.Game.ApplyRemoval | game.js:675-705 | the method returns `blastSet`, and the state becomes the removal model: blast cleared, creations placed, 10 per cell |
| Game.Game.RunPass | game.js:714-752 | one pass of the loop gives, in place, the state of the pass model |
| Game.Game.CascadeTurn | game.js:710-753 | one turn either stops where the cascade stops, or runs a pass and leaves the rest of the cascade unchanged |
| Game.Game.AddCascadeBonus | game.js:755-758 | adds 20·combo exactly when combo > 1 |
| Game.Game.ResolveCascades | game.js:707-759 | the state becomes `Resolve`, whose properties are ResolveFacts |
| Game.Game.DealBoard | game.js:792 | the array becomes the deal of the next 49 colours |
| Game.Game.DealAndJudge | game.js:791-793 | one round deals and tests for no group and some move |
| Game.Game.ShuffleBoard | game.js:790-794 | the state becomes `Shuffle`, whose properties are ShuffleFacts |
| Game.Game.constructor | game.js:123-127 | `createBoard`: score 0, unlocked, and a shuffled board from the stream's start |
| Game.Game.ResetGame | game.js:973-983 | score 0, unlocked, a new deal |
| Game.Game.ShuffleIfStuck | game.js:917-922 | a board without a move is redealt; one with a move is kept |
| Game.Game.SpecialsAt | game.js:893-895 | reads the activations from the board |
| Game.Game.SetOff | game.js:903-913 | the activations' blast is removed, then the board falls |
| Game.Game.FinishMove | game.js:955-962 | the cascades are resolved, then the board is shuffled if no move is left |
| Game.Game.ActivateSpecialMove | game.js:882-927 | the state becomes the special-move model; the lock is released at the end |
| Game.Game.PlainSwap | game.js:938-966 | a swap without specials becomes the plain-swap model: a refused swap leaves the state as it was, an accepted one is committed; the lock is released |
| Game.Game.CommitSwap | game.js:952-962 | an accepted swap: the board is swapped, the cascades run with the swapped pair known, then a board without moves is shuffled; the lock is left as it was |
| Game.Game.TrySwap | game.js:929-967 | while locked nothing changes; otherwise the state becomes the turn model (TurnFacts) and the lock is released |

## Notes on the code

- `trySwap` does not check that the two cells are adjacent; its callers do.
  The model follows the code: `Turn` and `TrySwap` take any two cells.
- `findPotentialMove` accepts a pair when `arr[from]` is special. It does not
  check `arr[to]`. The model follows the code.
- Points are 10 per cell of `blastSet`. That set also holds the pivot cells
  a blast clears before a creation is placed on them. The model follows the
  code.

## Left out

- Rendering, effects, animation, audio, pointer and touch decoding, timers,
  modals and the host platform: they do not change the board or the score.
  This includes `emitSpecialEffects` in `applyRemoval`,
  `registerSuccessfulMove`, `drawBoard` and the status text.
- `Math.random`/`randColor` is replaced by the colour stream `colors` and its
  position `drawn`.
- The `await`s are plain sequencing, and a move is modelled as atomic.
  `resetGame` (game.js:973-983, bound to the restart and new-game buttons at
  game.js:985-986) does not check `locked`. A restart clicked during one of
  a move's delays (game.js:747, 910) resets the board and the score, and the
  move's cascade then goes on over the new board. That interleaving is not
  modelled.
- `canSwapMakeMatch` reads the global `board`, and `getMatchedComponents` and
  `collectSpecialBlast` read it too. Here the board is a parameter.
- `createBoard` and `shuffleBoard` assign a fresh array to `board`. The
  model fills the one `board` array in place. No other reference to the old
  array is kept, so the two are equivalent.
- `applyRemoval` writes a creation on a token that is still there by
  changing that object's fields. The model places a new cell value, which is
  equivalent because no cell object is shared.
- JavaScript `Set`s iterate in insertion order. This order is modelled where
  it decides a result: the start cells in `getMatchedComponents`. The
  removal, blast and creation sets are plain sets, because their order does
  not change the outcome.
- Resolution.Cascade, Resolution.Resolve and Game.Game.ResolveCascades run at
  most `fuel` passes. The `while (true)` loop of the source has no bound,
  since its termination depends on the random refills. The lemmas say what
  holds when the fuel runs out.
- Game.Redeal, Game.Shuffle and Game.Game.ShuffleBoard deal at most
  `retries + 1` boards. The `do … while` of the source can run forever.
  Hence ShuffleFacts and ReplenishFacts promise a playable board only when
  some deal was accepted before the retries ran out.
