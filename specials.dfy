/**
 * Special tokens: where a new special is placed (`chooseSpecialIndex`), how
 * creations are merged (`upsertSpecialCreate`), the area one special clears
 * (`getBlastArea`), and the closure of chained detonations
 * (`collectSpecialBlast`).
 */
module Specials {
  import opened Wrappers
  import opened Geometry
  import opened Cells

  /** The swapped pair `[a, b]` of the move that started a cascade, if any. */
  type SwappedPair = Option<(Index, Index)>

  // ---------------------------------------------------------------------------
  // Placing and merging creations
  // ---------------------------------------------------------------------------

  /**
   * `chooseSpecialIndex`: the first swap endpoint that lies in `cells`, and
   * otherwise the middle cell `cells[floor(len / 2)]`.
   */
  function ChooseSpecialIndex(cells: seq<Index>, swapped: SwappedPair): (pivot: Index)
    requires |cells| > 0
    ensures pivot in cells
    ensures swapped.Some? && swapped.value.0 in cells ==> pivot == swapped.value.0
    ensures swapped.Some? && swapped.value.0 !in cells && swapped.value.1 in cells ==> pivot == swapped.value.1
    ensures (swapped.None? || (swapped.value.0 !in cells && swapped.value.1 !in cells)) ==>
      pivot == cells[|cells| / 2]
  {
    match swapped
    case None => cells[|cells| / 2]
    case Some((a, b)) =>
      if a in cells then a else if b in cells then b else cells[|cells| / 2]
  }

  /** An entry of `specialCreates`: the special to place and its colour. */
  datatype Create = Create(special: Special, color: Color)

  /** The token a creation places. */
  function Made(c: Create): Cell
  {
    Token(c.color, c.special)
  }

  /**
   * `upsertSpecialCreate`: a cell's first creation is kept, except that a bomb
   * replaces a creation that is not a bomb; a bomb is never replaced.
   */
  function Upsert(m: map<Index, Create>, idx: Index, special: Special, color: Color): (r: map<Index, Create>)
    ensures r.Keys == m.Keys + {idx}
    ensures forall k | k in m && k != idx :: r[k] == m[k]
    ensures idx !in m ==> r[idx] == Create(special, color)
    ensures idx in m && m[idx].special == Bomb ==> r[idx] == m[idx]
    ensures idx in m && m[idx].special != Bomb && special == Bomb ==> r[idx] == Create(Bomb, color)
    ensures idx in m && special != Bomb ==> r[idx] == m[idx]
  {
    if idx !in m || (m[idx].special != Bomb && special == Bomb) then m[idx := Create(special, color)]
    else m
  }

  // ---------------------------------------------------------------------------
  // Blast areas
  // ---------------------------------------------------------------------------

  /**
   * The cells a special of kind `s` at `center` clears: the centre itself,
   * plus its whole row for 'rocket-h', its whole column for 'rocket-v', and
   * every cell at most two rows and two columns away for 'bomb'.
   */
  predicate InBlast(center: Index, s: Special, i: Index)
  {
    i == center ||
    (s == RocketH && Row(i) == Row(center)) ||
    (s == RocketV && Col(i) == Col(center)) ||
    (s == Bomb && Abs(Row(i) - Row(center)) <= 2 && Abs(Col(i) - Col(center)) <= 2)
  }

  /** The blast area as a set of cells. */
  function BlastArea(center: Index, s: Special): set<Index>
  {
    set i: Index | 0 <= i < CELLS && InBlast(center, s, i)
  }

  /** The first `k` cells of row `r`. */
  function RowPrefix(r: Coord, k: nat): set<Index>
    requires k <= SIZE
  {
    set x: Coord | x < k :: PosToIdx(r, x)
  }

  /** The first `k` cells of column `c`. */
  function ColPrefix(c: Coord, k: nat): set<Index>
    requires k <= SIZE
  {
    set y: Coord | y < k :: PosToIdx(y, c)
  }

  /**
   * The on-board cells of the 5x5 square around `center` that the bomb loops
   * visit before reaching offset (dr, dc): the rows above row offset `dr`,
   * and the columns before offset `dc` in that row.
   */
  function BombPrefix(center: Index, dr: int, dc: int): set<Index>
  {
    set i: Index | 0 <= i < CELLS &&
      -2 <= Row(i) - Row(center) && Abs(Col(i) - Col(center)) <= 2 &&
      (Row(i) - Row(center) < dr || (Row(i) - Row(center) == dr && Col(i) - Col(center) < dc))
  }

  lemma {:induction false} RowPrefixSize(r: Coord, k: nat)
    requires k <= SIZE
    ensures |RowPrefix(r, k)| == k
  {
    if k > 0 {
      RowPrefixSize(r, k - 1);
      assert RowPrefix(r, k) == RowPrefix(r, k - 1) + {PosToIdx(r, k - 1)};
      assert PosToIdx(r, k - 1) !in RowPrefix(r, k - 1);
    } else {
      assert RowPrefix(r, k) == {};
    }
  }

  lemma {:induction false} ColPrefixSize(c: Coord, k: nat)
    requires k <= SIZE
    ensures |ColPrefix(c, k)| == k
  {
    if k > 0 {
      ColPrefixSize(c, k - 1);
      assert ColPrefix(c, k) == ColPrefix(c, k - 1) + {PosToIdx(k - 1, c)};
      assert PosToIdx(k - 1, c) !in ColPrefix(c, k - 1);
    } else {
      assert ColPrefix(c, k) == {};
    }
  }

  /**
   * Every blast area holds its centre and lies on the board; a rocket clears
   * exactly the 7 cells of its row or of its column, and a plain token only
   * its own cell.
   */
  lemma BlastAreaShape(center: Index, s: Special)
    ensures center in BlastArea(center, s)
    ensures s == Plain ==> BlastArea(center, s) == {center}
    ensures s == RocketH ==> BlastArea(center, s) == RowPrefix(Row(center), SIZE) && |BlastArea(center, s)| == SIZE
    ensures s == RocketV ==> BlastArea(center, s) == ColPrefix(Col(center), SIZE) && |BlastArea(center, s)| == SIZE
    ensures s == Bomb ==> BlastArea(center, s) == BombPrefix(center, 3, -2)
  {
    RowPrefixSize(Row(center), SIZE);
    ColPrefixSize(Col(center), SIZE);
    if s == RocketH {
      forall i: Index | i in BlastArea(center, s)
        ensures i in RowPrefix(Row(center), SIZE)
      {
        assert i == PosToIdx(Row(center), Col(i));
      }
    }
    if s == RocketV {
      forall i: Index | i in BlastArea(center, s)
        ensures i in ColPrefix(Col(center), SIZE)
      {
        assert i == PosToIdx(Row(i), Col(center));
      }
    }
  }

  /** `getBlastArea`: the loops that fill `targets`. */
  method GetBlastArea(center: Index, s: Special) returns (targets: set<Index>)
    ensures targets == BlastArea(center, s)
  {
    if s == RocketH {
      targets := RowBlast(center);
    } else if s == RocketV {
      targets := ColBlast(center);
    } else if s == Bomb {
      targets := BombBlast(center);
    } else {
      BlastAreaShape(center, s);
      targets := {center};
    }
  }

  /** The 'rocket-h' loop: adds the cells of the centre's row, from column 0 to column 6. */
  method RowBlast(center: Index) returns (targets: set<Index>)
    ensures targets == BlastArea(center, RocketH)
  {
    var r := Row(center);
    targets := {center};
    for x := 0 to SIZE
      invariant targets == {center} + RowPrefix(r, x)
    {
      assert RowPrefix(r, x + 1) == RowPrefix(r, x) + {PosToIdx(r, x)};
      targets := targets + {PosToIdx(r, x)};
    }
    assert center in RowPrefix(r, SIZE) by { assert center == PosToIdx(r, Col(center)); }
    BlastAreaShape(center, RocketH);
  }

  /** The 'rocket-v' loop: adds the cells of the centre's column, from row 0 to row 6. */
  method ColBlast(center: Index) returns (targets: set<Index>)
    ensures targets == BlastArea(center, RocketV)
  {
    var c := Col(center);
    targets := {center};
    for y := 0 to SIZE
      invariant targets == {center} + ColPrefix(c, y)
    {
      assert ColPrefix(c, y + 1) == ColPrefix(c, y) + {PosToIdx(y, c)};
      targets := targets + {PosToIdx(y, c)};
    }
    assert center in ColPrefix(c, SIZE) by { assert center == PosToIdx(Row(center), c); }
    BlastAreaShape(center, RocketV);
  }

  /** The 'bomb' loops over the offsets dr, dc in -2 .. 2, clipped to the board. */
  method BombBlast(center: Index) returns (targets: set<Index>)
    ensures targets == BlastArea(center, Bomb)
  {
    targets := {center};
    for dr := -2 to 3
      invariant targets == {center} + BombPrefix(center, dr, -2)
    {
      targets := BombRow(center, dr, targets);
    }
    assert center in BombPrefix(center, 3, -2);
    BlastAreaShape(center, Bomb);
  }

  /** The inner `dc` loop of the bomb case, for row offset `dr`. */
  method BombRow(center: Index, dr: int, targets: set<Index>) returns (targets': set<Index>)
    requires -2 <= dr < 3
    requires targets == {center} + BombPrefix(center, dr, -2)
    ensures targets' == {center} + BombPrefix(center, dr + 1, -2)
  {
    var r: int, c: int := Row(center), Col(center);
    targets' := targets;
    for dc := -2 to 3
      invariant targets' == {center} + BombPrefix(center, dr, dc)
    {
      var nr, nc := r + dr, c + dc;
      if nr >= 0 && nr < SIZE && nc >= 0 && nc < SIZE {
        BombCellIn(center, dr, dc);
        targets' := targets' + {PosToIdx(nr, nc)};
      } else {
        BombCellOut(center, dr, dc);
      }
    }
    BombRowDone(center, dr);
  }

  lemma BombCellIn(center: Index, dr: int, dc: int)
    requires -2 <= dr < 3 && -2 <= dc < 3
    requires 0 <= Row(center) + dr < SIZE && 0 <= Col(center) + dc < SIZE
    ensures BombPrefix(center, dr, dc + 1) ==
      BombPrefix(center, dr, dc) + {PosToIdx(Row(center) + dr, Col(center) + dc)}
  {
  }

  lemma BombCellOut(center: Index, dr: int, dc: int)
    requires -2 <= dr < 3 && -2 <= dc < 3
    requires !(0 <= Row(center) + dr < SIZE && 0 <= Col(center) + dc < SIZE)
    ensures BombPrefix(center, dr, dc + 1) == BombPrefix(center, dr, dc)
  {
  }

  lemma BombRowDone(center: Index, dr: int)
    ensures BombPrefix(center, dr, 3) == BombPrefix(center, dr + 1, -2)
  {
  }

  // ---------------------------------------------------------------------------
  // Chained detonations
  // ---------------------------------------------------------------------------

  /** The cells the token at x clears when it goes off: its blast area if it is special, nothing otherwise. */
  function Area(b: Board, x: Index): set<Index>
  {
    if HasSpecial(b[x]) then BlastArea(x, b[x].special) else {}
  }

  /** The special tokens that lie inside the area of some cell of `r`. */
  function Triggered(b: Board, r: set<Index>): set<Index>
  {
    set x, y | x in r && y in Area(b, x) && HasSpecial(b[y]) :: y
  }

  /** Every special inside the area of a cell of `r` is itself in `r`. */
  predicate Closed(b: Board, r: set<Index>)
  {
    Triggered(b, r) <= r
  }

  /** Adds triggered specials to `r` until nothing new is triggered. */
  function ReachFrom(b: Board, r: set<Index>): set<Index>
    decreases AllIndices - r
  {
    var next := r + Triggered(b, r);
    if next == r then r
    else
      assert AllIndices - next < AllIndices - r by {
        var y :| y in next && y !in r;
        assert y in AllIndices - r;
      }
      ReachFrom(b, next)
  }

  /**
   * The cells that go off in a chain started at `start`: `start` itself and
   * every special reached by a sequence of detonations from it.
   */
  function Reach(b: Board, start: Index): set<Index>
  {
    ReachFrom(b, {start})
  }

  /** Every cell inside the area of some cell of `r`. */
  function Cleared(b: Board, r: set<Index>): set<Index>
  {
    set x, y | x in r && y in Area(b, x) :: y
  }

  /** What `collectSpecialBlast(start, ...)` adds: the areas of every cell of the chain. */
  function ChainArea(b: Board, start: Index): set<Index>
  {
    Cleared(b, Reach(b, start))
  }

  lemma {:induction false} ReachFromFacts(b: Board, r: set<Index>)
    ensures r <= ReachFrom(b, r)
    ensures Closed(b, ReachFrom(b, r))
    decreases AllIndices - r
  {
    var next := r + Triggered(b, r);
    if next != r {
      assert AllIndices - next < AllIndices - r by {
        var y :| y in next && y !in r;
        assert y in AllIndices - r;
      }
      ReachFromFacts(b, next);
    }
  }

  lemma TriggeredMonotone(b: Board, r: set<Index>, c: set<Index>)
    requires r <= c
    ensures Triggered(b, r) <= Triggered(b, c)
  {
    forall y | y in Triggered(b, r)
      ensures y in Triggered(b, c)
    {
      var x :| x in r && y in Area(b, x) && HasSpecial(b[y]);
      assert x in c;
    }
  }

  lemma {:induction false} ReachFromLeast(b: Board, r: set<Index>, c: set<Index>)
    requires r <= c && Closed(b, c)
    ensures ReachFrom(b, r) <= c
    decreases AllIndices - r
  {
    var next := r + Triggered(b, r);
    if next != r {
      assert AllIndices - next < AllIndices - r by {
        var y :| y in next && y !in r;
        assert y in AllIndices - r;
      }
      TriggeredMonotone(b, r, c);
      ReachFromLeast(b, next, c);
    }
  }

  /**
   * The chain from `start` contains `start`, is closed under detonation, and
   * is the least such set; a start that is not special sets off nothing else.
   */
  lemma ReachFacts(b: Board, start: Index)
    ensures start in Reach(b, start)
    ensures Closed(b, Reach(b, start))
    ensures forall c: set<Index> | start in c && Closed(b, c) :: Reach(b, start) <= c
    ensures !HasSpecial(b[start]) ==> Reach(b, start) == {start} && ChainArea(b, start) == {}
  {
    ReachFromFacts(b, {start});
    forall c: set<Index> | start in c && Closed(b, c)
      ensures Reach(b, start) <= c
    {
      ReachFromLeast(b, {start}, c);
    }
    if !HasSpecial(b[start]) {
      assert Triggered(b, {start}) == {};
      assert Closed(b, {start});
      ReachFromLeast(b, {start}, {start});
      assert Reach(b, start) == {start};
      assert ChainArea(b, start) == {};
    }
  }

  /**
   * The fixed point: a special start clears its own area, and every special
   * inside the chain's area has its whole area inside it too.
   */
  lemma ChainClosed(b: Board, start: Index)
    ensures HasSpecial(b[start]) ==> Area(b, start) <= ChainArea(b, start)
    ensures forall y | y in ChainArea(b, start) && HasSpecial(b[y]) :: Area(b, y) <= ChainArea(b, start)
  {
    ReachFacts(b, start);
    var reach := Reach(b, start);
    forall y | y in ChainArea(b, start) && HasSpecial(b[y])
      ensures Area(b, y) <= ChainArea(b, start)
    {
      var x :| x in reach && y in Area(b, x);
      assert y in Triggered(b, reach);
      forall z | z in Area(b, y)
        ensures z in ChainArea(b, start)
      {
        assert y in reach && z in Area(b, y);
      }
    }
  }

  // ---------------------------------------------------------------------------
  // The imperative collectSpecialBlast
  // ---------------------------------------------------------------------------

  /** The state of the worklist loop of `collectSpecialBlast`. */
  ghost predicate ChainState(b: Board, start: Index, base: set<Index>, reach: set<Index>,
                             queue: seq<Index>, visited: set<Index>, result: set<Index>)
  {
    visited <= reach &&
    (forall k | 0 <= k < |queue| :: queue[k] in reach) &&
    (visited == {} ==> queue == [start]) &&
    (visited != {} ==> start in visited) &&
    result == base + Cleared(b, visited) &&
    (forall x, y | x in visited && y in Area(b, x) && HasSpecial(b[y]) :: y in visited || y in queue)
  }

  /**
   * `collectSpecialBlast(start, resultSet)`: `resultSet` grows by exactly the
   * area of the chain started at `start`.
   */
  method CollectSpecialBlast(b: Board, start: Index, resultSet: set<Index>) returns (result: set<Index>)
    ensures result == resultSet + ChainArea(b, start)
  {
    ReachFacts(b, start);
    ghost var reach := Reach(b, start);
    var queue := [start];
    var visited: set<Index> := {};
    result := resultSet;
    assert Cleared(b, {}) == {};
    while queue != []
      invariant ChainState(b, start, resultSet, reach, queue, visited, result)
      decreases AllIndices - visited, |queue|
    {
      queue, visited, result := ChainStep(b, start, resultSet, reach, queue, visited, result);
    }
    ChainDone(b, start, resultSet, visited, result);
  }

  /** When the queue is empty, the visited cells are exactly the chain. */
  lemma ChainDone(b: Board, start: Index, base: set<Index>, visited: set<Index>, result: set<Index>)
    requires ChainState(b, start, base, Reach(b, start), [], visited, result)
    ensures result == base + ChainArea(b, start)
  {
    assert start in visited;
    assert Closed(b, visited) by {
      forall y | y in Triggered(b, visited)
        ensures y in visited
      {
        var x :| x in visited && y in Area(b, x) && HasSpecial(b[y]);
      }
    }
    ReachFromLeast(b, {start}, visited);
    assert visited == Reach(b, start);
  }

  /** One turn of the worklist loop: dequeue a cell and, if it is a special not seen before, set it off. */
  method ChainStep(b: Board, start: Index, ghost base: set<Index>, ghost reach: set<Index>,
                   queue: seq<Index>, visited: set<Index>, result: set<Index>)
    returns (queue': seq<Index>, visited': set<Index>, result': set<Index>)
    requires Closed(b, reach)
    requires queue != [] && ChainState(b, start, base, reach, queue, visited, result)
    ensures ChainState(b, start, base, reach, queue', visited', result')
    ensures visited <= visited'
    ensures visited' == visited ==> |queue'| < |queue|
    ensures visited' != visited ==> AllIndices - visited' < AllIndices - visited
  {
    var idx := queue[0];
    queue', visited', result' := queue[1..], visited, result;
    assert forall y | y in queue :: y == idx || y in queue';
    if idx in visited {
      return;
    }
    visited' := visited + {idx};
    assert idx in AllIndices - visited;
    var cell := b[idx];
    if !HasSpecial(cell) {
      ClearedAdd(b, visited, idx);
      return;
    }
    var area := GetBlastArea(idx, cell.special);
    ghost var rest := queue';
    result', queue' := Detonate(b, area, visited', result, queue');
    ClearedAdd(b, visited, idx);
    forall k | 0 <= k < |queue'|
      ensures queue'[k] in reach
    {
      if queue'[k] !in rest {
        assert queue'[k] in Triggered(b, reach);
      }
    }
  }

  lemma ClearedAdd(b: Board, visited: set<Index>, idx: Index)
    ensures Cleared(b, visited + {idx}) == Cleared(b, visited) + Area(b, idx)
  {
    forall y | y in Cleared(b, visited + {idx})
      ensures y in Cleared(b, visited) + Area(b, idx)
    {
      var x :| x in visited + {idx} && y in Area(b, x);
    }
  }

  /**
   * The `blastCells.forEach` loop: every cell of the area joins the result,
   * and every special of the area not yet visited joins the queue.
   */
  method Detonate(b: Board, area: set<Index>, visited: set<Index>, result: set<Index>, queue: seq<Index>)
    returns (result': set<Index>, queue': seq<Index>)
    ensures result' == result + area
    ensures forall y | y in queue' :: y in queue || (y in area && HasSpecial(b[y]))
    ensures forall y | y in queue :: y in queue'
    ensures forall y | y in area && HasSpecial(b[y]) && y !in visited :: y in queue'
  {
    var todo := area;
    result', queue' := result, queue;
    while todo != {}
      invariant todo <= area
      invariant result' == result + (area - todo)
      invariant forall y | y in queue' :: y in queue || (y in area && HasSpecial(b[y]))
      invariant forall y | y in queue :: y in queue'
      invariant forall y | y in area - todo && HasSpecial(b[y]) && y !in visited :: y in queue'
      decreases todo
    {
      var n :| n in todo;
      todo := todo - {n};
      if n !in result' {
        result' := result' + {n};
      }
      if HasSpecial(b[n]) && n !in visited {
        queue' := queue' + [n];
      }
    }
  }

  // ---------------------------------------------------------------------------
  // The blast set of applyRemoval
  // ---------------------------------------------------------------------------

  /** The chain areas of the specials in `s`. */
  function Chains(b: Board, s: set<Index>): set<Index>
  {
    set x, y | x in s && HasSpecial(b[x]) && y in ChainArea(b, x) :: y
  }

  /** `blastSet` of `applyRemoval`: the removals plus the chains set off by the specials among them. */
  function BlastSet(b: Board, removals: set<Index>): set<Index>
  {
    removals + Chains(b, removals)
  }

  /** A set that holds the whole area of every special in it. */
  predicate BlastClosed(b: Board, s: set<Index>)
  {
    forall y | y in s && HasSpecial(b[y]) :: Area(b, y) <= s
  }

  /**
   * The blast set is the least set that holds the removals and is closed
   * under detonation: nothing a removed special would clear survives, and
   * nothing else is cleared.
   */
  lemma BlastSetFixedPoint(b: Board, removals: set<Index>, s: set<Index>)
    ensures removals <= BlastSet(b, removals)
    ensures BlastClosed(b, BlastSet(b, removals))
    ensures removals <= s && BlastClosed(b, s) ==> BlastSet(b, removals) <= s
  {
    var blast := BlastSet(b, removals);
    forall y | y in blast && HasSpecial(b[y])
      ensures Area(b, y) <= blast
    {
      if y in removals {
        ChainClosed(b, y);
        assert Area(b, y) <= ChainArea(b, y);
      } else {
        var x :| x in removals && HasSpecial(b[x]) && y in ChainArea(b, x);
        ChainClosed(b, x);
        assert Area(b, y) <= ChainArea(b, x);
      }
    }
    if removals <= s && BlastClosed(b, s) {
      forall y | y in Chains(b, removals)
        ensures y in s
      {
        var x :| x in removals && HasSpecial(b[x]) && y in ChainArea(b, x);
        ChainInside(b, x, s);
      }
    }
  }

  /** A chain started at a special of a closed set stays inside that set. */
  lemma ChainInside(b: Board, x: Index, s: set<Index>)
    requires x in s && HasSpecial(b[x]) && BlastClosed(b, s)
    ensures ChainArea(b, x) <= s
  {
    var c := set y | y in s && HasSpecial(b[y]);
    assert Closed(b, c) by {
      forall y | y in Triggered(b, c)
        ensures y in c
      {
        var z :| z in c && y in Area(b, z) && HasSpecial(b[y]);
        assert Area(b, z) <= s;
      }
    }
    ReachFromLeast(b, {x}, c);
    forall y | y in ChainArea(b, x)
      ensures y in s
    {
      var z :| z in Reach(b, x) && y in Area(b, z);
      assert z in c;
      assert Area(b, z) <= s;
    }
  }

  /** The first two loops of `applyRemoval`: `blastSet` starts as the removals and each special among them adds its chain. */
  method CollectBlastSet(b: Board, removals: set<Index>) returns (blast: set<Index>)
    ensures blast == BlastSet(b, removals)
  {
    blast := removals;
    var todo := removals;
    while todo != {}
      invariant todo <= removals
      invariant blast == removals + Chains(b, removals - todo)
      decreases todo
    {
      var idx :| idx in todo;
      ChainsAdd(b, removals - todo, idx);
      todo := todo - {idx};
      assert removals - todo == (removals - (todo + {idx})) + {idx};
      if HasSpecial(b[idx]) {
        blast := CollectSpecialBlast(b, idx, blast);
      }
    }
  }

  lemma ChainsAdd(b: Board, s: set<Index>, idx: Index)
    ensures Chains(b, s + {idx}) == Chains(b, s) + (if HasSpecial(b[idx]) then ChainArea(b, idx) else {})
  {
    forall y | y in Chains(b, s + {idx})
      ensures y in Chains(b, s) + (if HasSpecial(b[idx]) then ChainArea(b, idx) else {})
    {
      var x :| x in s + {idx} && HasSpecial(b[x]) && y in ChainArea(b, x);
    }
  }
}
