/**
 * Move validity and the move oracle: `canSwapMakeMatch`, `findPotentialMove`
 * and `hasAnyMove`. Every test swaps a copy of the board, never the board.
 */
module Moves {
  import opened Wrappers
  import opened Geometry
  import opened Cells
  import opened Matching

  /** A suggested move `{from, to}`. */
  datatype Move = Move(from: Index, to: Index)

  /** The neighbours `findPotentialMove` tries for cell i, in the order right, left, down, up. */
  function MoveNeighbours(i: Index): (ns: seq<Index>)
  {
    var r, c := Row(i), Col(i);
    (if c + 1 < SIZE then [PosToIdx(r, c + 1)] else []) +
    (if c - 1 >= 0 then [PosToIdx(r, c - 1)] else []) +
    (if r + 1 < SIZE then [PosToIdx(r + 1, c)] else []) +
    (if r - 1 >= 0 then [PosToIdx(r - 1, c)] else [])
  }

  /** Every neighbour tried is adjacent to i. */
  lemma MoveNeighboursSound(i: Index)
    ensures forall n | n in MoveNeighbours(i) :: AreAdjacent(i, n)
  {
    forall n | n in MoveNeighbours(i)
      ensures AreAdjacent(i, n)
    {
      AdjacentIsNeighbour(i, n);
    }
  }

  /** Every cell adjacent to i is tried. */
  lemma MoveNeighboursComplete(i: Index)
    ensures forall n: Index | AreAdjacent(i, n) :: n in MoveNeighbours(i)
  {
    forall n: Index | AreAdjacent(i, n)
      ensures n in MoveNeighbours(i)
    {
      AdjacentIsNeighbour(i, n);
      NeighbourListed(i, n);
    }
  }

  lemma NeighbourListed(i: Index, n: Index)
    requires (Row(i) == Row(n) && (n == i + 1 || n == i - 1)) || (Col(i) == Col(n) && (n == i + SIZE || n == i - SIZE))
    ensures n in MoveNeighbours(i)
  {
    var r, c := Row(i), Col(i);
    if Row(i) == Row(n) && n == i + 1 {
      assert c + 1 < SIZE && PosToIdx(r, c + 1) == n;
    } else if Row(i) == Row(n) {
      assert c - 1 >= 0 && PosToIdx(r, c - 1) == n;
    } else if n == i + SIZE {
      assert r + 1 < SIZE && PosToIdx(r + 1, c) == n;
    } else {
      assert r - 1 >= 0 && PosToIdx(r - 1, c) == n;
    }
  }

  /** No neighbour is tried twice. */
  lemma MoveNeighboursDistinct(i: Index)
    ensures forall k, l | 0 <= k < l < |MoveNeighbours(i)| :: MoveNeighbours(i)[k] != MoveNeighbours(i)[l]
  {
  }

  /** The neighbours tried are exactly the cells adjacent to i, each once. */
  lemma MoveNeighboursAdjacent(i: Index)
    ensures forall n | n in MoveNeighbours(i) :: AreAdjacent(i, n)
    ensures forall n: Index | AreAdjacent(i, n) :: n in MoveNeighbours(i)
    ensures forall k, l | 0 <= k < l < |MoveNeighbours(i)| :: MoveNeighbours(i)[k] != MoveNeighbours(i)[l]
  {
    MoveNeighboursSound(i);
    MoveNeighboursComplete(i);
    MoveNeighboursDistinct(i);
  }

  /** `canSwapMakeMatch(a, b)`: swapping a and b on a copy of the board produces a match group. */
  predicate MakesMatch(b: Board, i: Index, j: Index)
  {
    !Stable(Swap(b, i, j))
  }

  /** The pairs `findPotentialMove` accepts: the first cell holds a special, or the swap makes a match. */
  predicate Accepts(b: Board, i: Index, n: Index)
  {
    HasSpecial(b[i]) || MakesMatch(b, i, n)
  }

  /** `Accepts` on board b, as a test of pairs. */
  function AcceptsOn(b: Board): (Index, Index) -> bool
  {
    (i: Index, n: Index) => Accepts(b, i, n)
  }

  /** The inner loop of `findPotentialMove` for cell i over the neighbours `ns`, with test `accepts`. */
  function FirstIn(accepts: (Index, Index) -> bool, i: Index, ns: seq<Index>): (m: Option<Move>)
    ensures m.Some? ==> m.value.from == i && m.value.to in ns
    decreases |ns|
  {
    if ns == [] then None
    else if accepts(i, ns[0]) then Some(Move(i, ns[0]))
    else FirstIn(accepts, i, ns[1..])
  }

  /** The result of the inner loop for each cell. */
  function CellMoves(accepts: (Index, Index) -> bool): Index -> Option<Move>
  {
    (i: Index) => FirstIn(accepts, i, MoveNeighbours(i))
  }

  /** The outer loop of `findPotentialMove` from cell i on, where `found(j)` is what the inner loop finds for cell j. */
  function FirstFrom(found: Index -> Option<Move>, i: nat): Option<Move>
    requires i <= CELLS
    decreases CELLS - i
  {
    if i == CELLS then None
    else if found(i).Some? then found(i)
    else FirstFrom(found, i + 1)
  }

  /** `findPotentialMove(b)`. */
  function PotentialMove(b: Board): Option<Move>
  {
    FirstFrom(CellMoves(AcceptsOn(b)), 0)
  }

  /** `hasAnyMove(b)`. */
  predicate HasAnyMove(b: Board)
  {
    PotentialMove(b).Some?
  }

  /** The pair (i, n) comes before move m in the scan order of `findPotentialMove`. */
  ghost predicate Earlier(i: Index, n: Index, m: Move)
  {
    || i < m.from
    || (i == m.from && exists k, l | 0 <= k < l < |MoveNeighbours(i)| ::
          MoveNeighbours(i)[k] == n && MoveNeighbours(i)[l] == m.to)
  }

  // ---------------------------------------------------------------------------
  // What the oracle promises
  // ---------------------------------------------------------------------------

  /** `to` is the first neighbour in `ns` that `accepts` takes for cell i. */
  ghost predicate FirstAccepted(accepts: (Index, Index) -> bool, i: Index, ns: seq<Index>, to: Index)
  {
    exists k | 0 <= k < |ns| :: ns[k] == to && accepts(i, ns[k]) && forall l | 0 <= l < k :: !accepts(i, ns[l])
  }

  lemma {:induction false} FirstInNone(accepts: (Index, Index) -> bool, i: Index, ns: seq<Index>)
    ensures FirstIn(accepts, i, ns).None? <==> forall n | n in ns :: !accepts(i, n)
    decreases |ns|
  {
    if ns != [] && !accepts(i, ns[0]) {
      FirstInNone(accepts, i, ns[1..]);
      assert forall n | n in ns :: n == ns[0] || n in ns[1..];
    }
  }

  lemma {:induction false} FirstInSome(accepts: (Index, Index) -> bool, i: Index, ns: seq<Index>)
    requires FirstIn(accepts, i, ns).Some?
    ensures FirstAccepted(accepts, i, ns, FirstIn(accepts, i, ns).value.to)
    decreases |ns|
  {
    if accepts(i, ns[0]) {
      assert ns[0] == FirstIn(accepts, i, ns).value.to;
    } else {
      FirstInSome(accepts, i, ns[1..]);
      var m := FirstIn(accepts, i, ns);
      var k :| 0 <= k < |ns[1..]| && ns[1..][k] == m.value.to && accepts(i, ns[1..][k]) &&
        forall l | 0 <= l < k :: !accepts(i, ns[1..][l]);
      assert ns[k + 1] == m.value.to;
      forall l | 0 < l < k + 1 ensures !accepts(i, ns[l]) {
        assert ns[1..][l - 1] == ns[l];
      }
    }
  }

  lemma {:induction false} FirstFromNone(found: Index -> Option<Move>, i: nat)
    requires i <= CELLS
    ensures FirstFrom(found, i).None? <==> forall j: Index | i <= j :: found(j).None?
    decreases CELLS - i
  {
    if i < CELLS {
      FirstFromNone(found, i + 1);
      assert (forall j: Index | i <= j :: found(j).None?) <==>
             found(i).None? && forall j: Index | i + 1 <= j :: found(j).None?;
    }
  }

  lemma {:induction false} FirstFromSome(found: Index -> Option<Move>, i: nat)
    requires i <= CELLS
    requires FirstFrom(found, i).Some?
    ensures exists j: Index | i <= j :: FirstFrom(found, i) == found(j) && forall k: Index | i <= k < j :: found(k).None?
    decreases CELLS - i
  {
    if found(i).None? {
      FirstFromSome(found, i + 1);
      var j: Index :| i + 1 <= j && FirstFrom(found, i + 1) == found(j) && forall k: Index | i + 1 <= k < j :: found(k).None?;
    } else {
      assert FirstFrom(found, i) == found(i);
    }
  }

  /** Scan order within one cell: the neighbours before the first accepted one are rejected. */
  lemma EarlierRejected(accepts: (Index, Index) -> bool, m: Move, n: Index)
    requires FirstAccepted(accepts, m.from, MoveNeighbours(m.from), m.to)
    requires Earlier(m.from, n, m)
    ensures !accepts(m.from, n)
  {
    var ns := MoveNeighbours(m.from);
    MoveNeighboursAdjacent(m.from);
    var k0 :| 0 <= k0 < |ns| && ns[k0] == m.to && accepts(m.from, ns[k0]) && forall l | 0 <= l < k0 :: !accepts(m.from, ns[l]);
    var k, l :| 0 <= k < l < |ns| && ns[k] == n && ns[l] == m.to;
    assert l == k0;
  }

  /** Cell j yields no move exactly when `accepts` takes none of its adjacent cells. */
  lemma CellNone(accepts: (Index, Index) -> bool, j: Index)
    ensures CellMoves(accepts)(j).None? <==> forall n: Index | AreAdjacent(j, n) :: !accepts(j, n)
  {
    MoveNeighboursAdjacent(j);
    FirstInNone(accepts, j, MoveNeighbours(j));
  }

  /** The move cell j yields is its first accepted neighbour in scan order. */
  lemma CellSome(accepts: (Index, Index) -> bool, j: Index)
    requires CellMoves(accepts)(j).Some?
    ensures var m := CellMoves(accepts)(j).value;
      && m.from == j && AreAdjacent(j, m.to) && accepts(j, m.to)
      && forall n: Index | Earlier(j, n, m) :: !accepts(j, n)
  {
    var m := CellMoves(accepts)(j).value;
    FirstInSome(accepts, j, MoveNeighbours(j));
    MoveNeighboursAdjacent(j);
    forall n: Index | Earlier(j, n, m)
      ensures !accepts(j, n)
    {
      EarlierRejected(accepts, m, n);
    }
  }

  /** The scan finds nothing exactly when no adjacent pair is accepted. */
  lemma ScanNone(accepts: (Index, Index) -> bool)
    ensures FirstFrom(CellMoves(accepts), 0).None? <==> forall j: Index, n: Index | AreAdjacent(j, n) :: !accepts(j, n)
  {
    var found := CellMoves(accepts);
    FirstFromNone(found, 0);
    if FirstFrom(found, 0).None? {
      forall j: Index, n: Index | AreAdjacent(j, n)
        ensures !accepts(j, n)
      {
        CellNone(accepts, j);
      }
    } else {
      var j: Index :| found(j).Some?;
      CellSome(accepts, j);
      var n := found(j).value.to;
      assert AreAdjacent(j, n) && accepts(j, n);
    }
  }

  /** The move the scan finds is accepted, and every pair scanned before it is not. */
  lemma ScanSome(accepts: (Index, Index) -> bool)
    requires FirstFrom(CellMoves(accepts), 0).Some?
    ensures var m := FirstFrom(CellMoves(accepts), 0).value;
      && AreAdjacent(m.from, m.to) && accepts(m.from, m.to)
      && forall j: Index, n: Index | AreAdjacent(j, n) && Earlier(j, n, m) :: !accepts(j, n)
  {
    var found := CellMoves(accepts);
    FirstFromSome(found, 0);
    var m := FirstFrom(found, 0).value;
    var j0: Index :| found(j0).Some? && m == found(j0).value && forall k: Index | k < j0 :: found(k).None?;
    CellSome(accepts, j0);
    forall j: Index, n: Index | AreAdjacent(j, n) && Earlier(j, n, m)
      ensures !accepts(j, n)
    {
      if j != j0 {
        CellNone(accepts, j);
      }
    }
  }

  /**
   * The move found is a pair of adjacent cells the player could swap, and
   * every pair scanned before it is refused; no move is found exactly when
   * every adjacent pair is refused.
   */
  lemma PotentialMoveFacts(b: Board)
    ensures PotentialMove(b).Some? ==> var m := PotentialMove(b).value;
      && AreAdjacent(m.from, m.to) && Accepts(b, m.from, m.to)
      && forall j: Index, n: Index | AreAdjacent(j, n) && Earlier(j, n, m) :: !Accepts(b, j, n)
    ensures PotentialMove(b).None? <==> forall j: Index, n: Index | AreAdjacent(j, n) :: !Accepts(b, j, n)
  {
    ScanNone(AcceptsOn(b));
    if PotentialMove(b).Some? {
      ScanSome(AcceptsOn(b));
    }
  }

  // ---------------------------------------------------------------------------
  // The imperative oracle, on the board array
  // ---------------------------------------------------------------------------

  /** `cloneBoard`: a fresh array with the same cells. */
  method CloneBoard(src: array<Cell>) returns (dst: array<Cell>)
    ensures fresh(dst) && dst[..] == src[..]
  {
    dst := new Cell[src.Length](j requires 0 <= j < src.Length reads src => src[j]);
  }

  /** `swapIn`: the contents of cells a and b are exchanged in place. */
  method SwapIn(arr: array<Cell>, a: Index, b: Index)
    requires arr.Length == CELLS
    modifies arr
    ensures arr[..] == Swap(old(arr[..]), a, b)
  {
    arr[a], arr[b] := arr[b], arr[a];
  }

  /** `canSwapMakeMatch(a, b)` on the board array arr, which it does not change. */
  method CanSwapMakeMatch(arr: array<Cell>, a: Index, b: Index) returns (r: bool)
    requires arr.Length == CELLS
    ensures r == MakesMatch(arr[..], a, b)
  {
    var test := CloneBoard(arr);
    SwapIn(test, a, b);
    var groups := FindMatchGroups(test[..]);
    r := |groups| > 0;
  }

  /** The `neighbors` list `findPotentialMove` builds for cell i. */
  method NeighboursOf(i: Index) returns (ns: seq<Index>)
    ensures ns == MoveNeighbours(i)
  {
    var r, c := Row(i), Col(i);
    ns := [];
    if c + 1 < SIZE { ns := ns + [PosToIdx(r, c + 1)]; }
    if c - 1 >= 0 { ns := ns + [PosToIdx(r, c - 1)]; }
    if r + 1 < SIZE { ns := ns + [PosToIdx(r + 1, c)]; }
    if r - 1 >= 0 { ns := ns + [PosToIdx(r - 1, c)]; }
  }

  /** The inner loop of `findPotentialMove(arr)` for cell i over the neighbours ns. */
  method ScanNeighbours(arr: array<Cell>, i: Index, ns: seq<Index>) returns (m: Option<Move>)
    requires arr.Length == CELLS
    ensures m == FirstIn(AcceptsOn(arr[..]), i, ns)
  {
    ghost var accepts := AcceptsOn(arr[..]);
    for k := 0 to |ns|
      invariant FirstIn(accepts, i, ns[k..]) == FirstIn(accepts, i, ns)
    {
      assert ns[k..][0] == ns[k] && ns[k..][1..] == ns[k + 1..];
      var n := ns[k];
      if HasSpecial(arr[i]) {
        return Some(Move(i, n));
      }
      var matches := CanSwapMakeMatch(arr, i, n);
      if matches {
        return Some(Move(i, n));
      }
    }
    m := None;
  }

  /** What `findPotentialMove(arr)` finds for cell i: its first accepted neighbour. */
  method ScanCell(arr: array<Cell>, i: Index) returns (m: Option<Move>)
    requires arr.Length == CELLS
    ensures m == CellMoves(AcceptsOn(arr[..]))(i)
  {
    var ns := NeighboursOf(i);
    m := ScanNeighbours(arr, i, ns);
  }

  /** `findPotentialMove(arr)`, which does not change arr. */
  method FindPotentialMove(arr: array<Cell>) returns (m: Option<Move>)
    requires arr.Length == CELLS
    ensures m == PotentialMove(arr[..])
  {
    ghost var found := CellMoves(AcceptsOn(arr[..]));
    for i := 0 to CELLS
      invariant FirstFrom(found, i) == PotentialMove(arr[..])
    {
      m := ScanCell(arr, i);
      if m.Some? {
        return;
      }
    }
    m := None;
  }

  /** `hasAnyMove(arr)`. */
  method HasAnyMoveOn(arr: array<Cell>) returns (r: bool)
    requires arr.Length == CELLS
    ensures r == HasAnyMove(arr[..])
  {
    var m := FindPotentialMove(arr);
    r := m.Some?;
  }
}
