/**
 * Run detection (`scanLineGroups`, `findMatchGroups`): every row, then every
 * column, is scanned from its first cell to its last; a run of consecutive
 * tokens of one colour that reaches length 3 is emitted as a match group when
 * it ends (at an empty cell, a change of colour, or the end of the line).
 */
module Matching {
  import opened Geometry
  import opened Cells

  datatype Orientation = H | V

  /** A match group: its cells in scan order, and the axis it lies on. */
  datatype Group = Group(cells: seq<Index>, orientation: Orientation)

  function OrientationOf(horizontal: bool): Orientation
  {
    if horizontal then H else V
  }

  /** Line p of the board: row p when `horizontal` holds, column p otherwise. */
  function Line(arr: Board, p: Coord, horizontal: bool): (line: seq<Cell>)
    ensures |line| == SIZE
  {
    seq(SIZE, s requires 0 <= s < SIZE => arr[CellIdx(p, s, horizontal)])
  }

  /** The indices of positions from .. from+len-1 of line p. */
  function Segment(p: Coord, from: int, len: nat, horizontal: bool): (cells: seq<Index>)
    requires 0 <= from && from + len <= SIZE
    ensures |cells| == len
    ensures forall k | 0 <= k < len :: cells[k] == CellIdx(p, from + k, horizontal)
  {
    seq<Index>(len, k requires 0 <= k < len => CellIdx(p, from + k, horizontal))
  }

  /** Two cells continue one run: both are tokens of the same colour. */
  predicate Joins(a: Cell, b: Cell)
  {
    a.Token? && b.Token? && a.color == b.color
  }

  /** The group emitted when a run of length runLen ends just before position s. */
  function Flush(p: Coord, s: int, runLen: nat, horizontal: bool): seq<Group>
    requires runLen <= s <= SIZE
  {
    if runLen >= 3 then [Group(Segment(p, s - runLen, runLen, horizontal), OrientationOf(horizontal))]
    else []
  }

  /**
   * The groups the scan of line p emits from position s on, when the current
   * run holds the runLen positions just before s.
   */
  function LineFrom(line: seq<Cell>, p: Coord, s: int, runLen: nat, horizontal: bool): seq<Group>
    requires |line| == SIZE && runLen <= s <= SIZE
    decreases SIZE - s
  {
    if s == SIZE then Flush(p, s, runLen, horizontal)
    else if line[s].Empty? then
      Flush(p, s, runLen, horizontal) + LineFrom(line, p, s + 1, 0, horizontal)
    else if runLen == 0 then
      LineFrom(line, p, s + 1, 1, horizontal)
    else if line[s - 1].Token? && line[s].color == line[s - 1].color then
      LineFrom(line, p, s + 1, runLen + 1, horizontal)
    else
      Flush(p, s, runLen, horizontal) + LineFrom(line, p, s + 1, 1, horizontal)
  }

  /** The groups of lines p .. SIZE-1, in line order. */
  function LinesFrom(arr: Board, p: int, horizontal: bool): seq<Group>
    requires 0 <= p <= SIZE
    decreases SIZE - p
  {
    if p == SIZE then []
    else LineFrom(Line(arr, p, horizontal), p, 0, 0, horizontal) + LinesFrom(arr, p + 1, horizontal)
  }

  /** What `scanLineGroups(arr, horizontal)` returns. */
  function LineGroups(arr: Board, horizontal: bool): seq<Group>
  {
    LinesFrom(arr, 0, horizontal)
  }

  /** What `findMatchGroups(arr)` returns: row groups, then column groups. */
  function MatchGroups(arr: Board): seq<Group>
  {
    LineGroups(arr, true) + LineGroups(arr, false)
  }

  /** The board holds no match group. */
  predicate Stable(arr: Board)
  {
    MatchGroups(arr) == []
  }

  /**
   * Positions from .. from+len-1 of a line form a maximal run: all tokens of
   * one colour, and neither neighbouring position continues it.
   */
  predicate MaximalRun(line: seq<Cell>, from: int, len: nat)
  {
    && 0 <= from && 0 < len && from + len <= |line|
    && (forall k | from <= k < from + len :: Joins(line[k], line[from]))
    && (from > 0 ==> !Joins(line[from - 1], line[from]))
    && (from + len < |line| ==> !Joins(line[from + len - 1], line[from + len]))
  }

  /** g is the maximal run at positions from .. of line p, at least 3 long, tagged with its axis. */
  ghost predicate GroupAt(arr: Board, g: Group, p: Coord, from: Coord)
  {
    && |g.cells| >= 3
    && from + |g.cells| <= SIZE
    && MaximalRun(Line(arr, p, g.orientation == H), from, |g.cells|)
    && g.cells == Segment(p, from, |g.cells|, g.orientation == H)
  }

  /** g is a match group of arr. */
  ghost predicate IsMatchGroup(arr: Board, g: Group)
  {
    exists p: Coord, from: Coord :: GroupAt(arr, g, p, from)
  }

  /**
   * The scan state at position s: the current run (positions s-runLen ..
   * s-1) is made of tokens of one colour and cannot be extended to the left;
   * an empty run means that s is the start of the line or follows an empty cell.
   */
  ghost predicate RunSoFar(line: seq<Cell>, s: int, runLen: nat)
    requires runLen <= s <= |line|
  {
    && (runLen == 0 ==> s == 0 || line[s - 1].Empty?)
    && (runLen > 0 ==>
          && (forall k | s - runLen <= k < s :: Joins(line[k], line[s - 1]))
          && (s - runLen > 0 ==> !Joins(line[s - runLen - 1], line[s - runLen])))
  }

  /** The current run ends at s: the line ends there or s does not continue it. */
  ghost predicate RunEnds(line: seq<Cell>, s: int)
    requires 0 < s <= |line|
  {
    s < |line| ==> !Joins(line[s - 1], line[s])
  }

  /**
   * A maximal run that starts inside the current run, when the current run
   * ends at s, is the current run itself; and the current run is maximal.
   */
  lemma MaximalRunIsCurrentRun(line: seq<Cell>, s: int, runLen: nat, from: int, len: nat)
    requires 0 < runLen <= s <= |line|
    requires RunSoFar(line, s, runLen) && RunEnds(line, s)
    requires MaximalRun(line, from, len)
    requires s - runLen <= from < s
    ensures from == s - runLen && len == runLen
  {
    forall i, j | s - runLen <= i < s && s - runLen <= j < s
      ensures Joins(line[i], line[j])
    {
      assert Joins(line[i], line[s - 1]) && Joins(line[j], line[s - 1]);
    }
  }

  /** After an empty cell the scan has no run. */
  lemma RunAfterEmpty(line: seq<Cell>, s: int)
    requires 0 <= s < |line| && line[s].Empty?
    ensures RunSoFar(line, s + 1, 0)
    ensures 0 < s ==> RunEnds(line, s)
  {
  }

  /** A token that does not continue the run before it starts a run of one. */
  lemma RunAfterStart(line: seq<Cell>, s: int, runLen: nat)
    requires runLen <= s < |line| && RunSoFar(line, s, runLen) && line[s].Token?
    requires runLen == 0 || !Joins(line[s - 1], line[s])
    ensures RunSoFar(line, s + 1, 1)
  {
  }

  /** A token of the colour of the cell before it grows the run by one. */
  lemma RunAfterExtend(line: seq<Cell>, s: int, runLen: nat)
    requires 0 < runLen <= s < |line| && RunSoFar(line, s, runLen) && line[s].Token?
    requires line[s - 1].Token? && line[s].color == line[s - 1].color
    ensures RunSoFar(line, s + 1, runLen + 1)
  {
    forall k | s + 1 - (runLen + 1) <= k < s + 1
      ensures Joins(line[k], line[s])
    {
      if k < s {
        assert Joins(line[k], line[s - 1]);
      }
    }
  }

  /** Soundness, one line: every group the scan emits from state s is a maximal run of 3 or more. */
  lemma {:induction false} LineFromSound(line: seq<Cell>, p: Coord, s: int, runLen: nat, horizontal: bool, g: Group)
    requires |line| == SIZE && runLen <= s <= SIZE
    requires RunSoFar(line, s, runLen)
    requires g in LineFrom(line, p, s, runLen, horizontal)
    ensures g.orientation == OrientationOf(horizontal) && |g.cells| >= 3
    ensures exists from: Coord :: from + |g.cells| <= SIZE && MaximalRun(line, from, |g.cells|) &&
                                  g.cells == Segment(p, from, |g.cells|, horizontal)
    decreases SIZE - s
  {
    if s == SIZE {
      FlushSound(line, p, s, runLen, horizontal, g);
    } else if line[s].Empty? {
      RunAfterEmpty(line, s);
      if g in Flush(p, s, runLen, horizontal) {
        FlushSound(line, p, s, runLen, horizontal, g);
      } else {
        LineFromSound(line, p, s + 1, 0, horizontal, g);
      }
    } else if runLen == 0 {
      RunAfterStart(line, s, runLen);
      LineFromSound(line, p, s + 1, 1, horizontal, g);
    } else if line[s - 1].Token? && line[s].color == line[s - 1].color {
      RunAfterExtend(line, s, runLen);
      LineFromSound(line, p, s + 1, runLen + 1, horizontal, g);
    } else {
      RunAfterStart(line, s, runLen);
      if g in Flush(p, s, runLen, horizontal) {
        FlushSound(line, p, s, runLen, horizontal, g);
      } else {
        LineFromSound(line, p, s + 1, 1, horizontal, g);
      }
    }
  }

  /** The group flushed at the end of a run is a maximal run of 3 or more. */
  lemma FlushSound(line: seq<Cell>, p: Coord, s: int, runLen: nat, horizontal: bool, g: Group)
    requires |line| == SIZE && runLen <= s <= SIZE
    requires RunSoFar(line, s, runLen)
    requires 0 < s ==> RunEnds(line, s)
    requires g in Flush(p, s, runLen, horizontal)
    ensures g.orientation == OrientationOf(horizontal) && |g.cells| >= 3
    ensures exists from: Coord :: from + |g.cells| <= SIZE && MaximalRun(line, from, |g.cells|) &&
                                  g.cells == Segment(p, from, |g.cells|, horizontal)
  {
    var from: Coord := s - runLen;
    assert MaximalRun(line, from, |g.cells|);
  }

  /**
   * Completeness, one line: a maximal run of 3 or more that does not start
   * before the current run is emitted by the scan from state s.
   */
  lemma {:induction false} LineFromComplete(line: seq<Cell>, p: Coord, s: int, runLen: nat, horizontal: bool,
                                            from: int, len: nat)
    requires |line| == SIZE && runLen <= s <= SIZE
    requires RunSoFar(line, s, runLen)
    requires MaximalRun(line, from, len) && len >= 3
    requires from >= s - runLen
    ensures Group(Segment(p, from, len, horizontal), OrientationOf(horizontal)) in LineFrom(line, p, s, runLen, horizontal)
    decreases SIZE - s
  {
    if s == SIZE {
      MaximalRunIsCurrentRun(line, s, runLen, from, len);
    } else if line[s].Empty? {
      RunAfterEmpty(line, s);
      if from > s {
        LineFromComplete(line, p, s + 1, 0, horizontal, from, len);
      } else {
        assert from != s;
        MaximalRunIsCurrentRun(line, s, runLen, from, len);
      }
    } else if runLen == 0 {
      RunAfterStart(line, s, runLen);
      LineFromComplete(line, p, s + 1, 1, horizontal, from, len);
    } else if line[s - 1].Token? && line[s].color == line[s - 1].color {
      RunAfterExtend(line, s, runLen);
      LineFromComplete(line, p, s + 1, runLen + 1, horizontal, from, len);
    } else if from >= s {
      RunAfterStart(line, s, runLen);
      LineFromComplete(line, p, s + 1, 1, horizontal, from, len);
    } else {
      MaximalRunIsCurrentRun(line, s, runLen, from, len);
    }
  }

  lemma MemberOfTail(arr: Board, p: Coord, horizontal: bool, g: Group)
    requires g in LinesFrom(arr, p + 1, horizontal)
    ensures g in LinesFrom(arr, p, horizontal)
  {
  }

  /** A group of line p is a match group. */
  lemma LineGroupSound(arr: Board, p: Coord, horizontal: bool, g: Group)
    requires g in LineFrom(Line(arr, p, horizontal), p, 0, 0, horizontal)
    ensures IsMatchGroup(arr, g) && g.orientation == OrientationOf(horizontal)
  {
    LineFromSound(Line(arr, p, horizontal), p, 0, 0, horizontal, g);
    var from: Coord :| from + |g.cells| <= SIZE && MaximalRun(Line(arr, p, horizontal), from, |g.cells|) &&
                       g.cells == Segment(p, from, |g.cells|, horizontal);
    assert GroupAt(arr, g, p, from);
  }

  /** A group of lines p.. is a group of line p or of lines p+1.. . */
  lemma LinesFromSplit(arr: Board, p: int, horizontal: bool, g: Group)
    requires 0 <= p <= SIZE && g in LinesFrom(arr, p, horizontal)
    ensures p < SIZE
    ensures g in LineFrom(Line(arr, p, horizontal), p, 0, 0, horizontal) || g in LinesFrom(arr, p + 1, horizontal)
  {
  }

  /** The line a group of lines p.. comes from. */
  lemma {:induction false} LinesFromLine(arr: Board, p: int, horizontal: bool, g: Group) returns (q: Coord)
    requires 0 <= p <= SIZE
    requires g in LinesFrom(arr, p, horizontal)
    ensures p <= q && g in LineFrom(Line(arr, q, horizontal), q, 0, 0, horizontal)
    decreases SIZE - p
  {
    LinesFromSplit(arr, p, horizontal, g);
    if g in LinesFrom(arr, p + 1, horizontal) {
      q := LinesFromLine(arr, p + 1, horizontal, g);
    } else {
      q := p;
    }
  }

  /** Every group of the lines p.. is a match group of the scan's axis. */
  lemma LinesFromSound(arr: Board, p: int, horizontal: bool, g: Group)
    requires 0 <= p <= SIZE
    requires g in LinesFrom(arr, p, horizontal)
    ensures IsMatchGroup(arr, g) && g.orientation == OrientationOf(horizontal)
  {
    var q := LinesFromLine(arr, p, horizontal, g);
    LineGroupSound(arr, q, horizontal, g);
  }

  lemma LineGroupComplete(arr: Board, q: Coord, horizontal: bool, from: int, len: nat)
    requires MaximalRun(Line(arr, q, horizontal), from, len) && len >= 3
    ensures Group(Segment(q, from, len, horizontal), OrientationOf(horizontal)) in LinesFrom(arr, q, horizontal)
  {
    LineFromComplete(Line(arr, q, horizontal), q, 0, 0, horizontal, from, len);
  }

  lemma {:induction false} LinesFromComplete(arr: Board, p: int, q: Coord, horizontal: bool, from: int, len: nat)
    requires 0 <= p <= q
    requires MaximalRun(Line(arr, q, horizontal), from, len) && len >= 3
    ensures Group(Segment(q, from, len, horizontal), OrientationOf(horizontal)) in LinesFrom(arr, p, horizontal)
    decreases SIZE - p
  {
    if p == q {
      LineGroupComplete(arr, q, horizontal, from, len);
    } else {
      LinesFromComplete(arr, p + 1, q, horizontal, from, len);
      MemberOfTail(arr, p, horizontal, Group(Segment(q, from, len, horizontal), OrientationOf(horizontal)));
    }
  }

  /**
   * Every group of `findMatchGroups` is a maximal run of at least 3 tokens of
   * one colour, consecutive along one row (tag H) or one column (tag V).
   */
  lemma MatchGroupsSound(arr: Board, g: Group)
    requires g in MatchGroups(arr)
    ensures IsMatchGroup(arr, g)
    ensures |g.cells| >= 3
    ensures forall x | x in g.cells :: Joins(arr[x], arr[g.cells[0]])
  {
    if g in LineGroups(arr, true) {
      LinesFromSound(arr, 0, true, g);
    } else {
      LinesFromSound(arr, 0, false, g);
    }
    var p: Coord, from: Coord :| GroupAt(arr, g, p, from);
    GroupAtCells(arr, g, p, from);
  }

  /** The cells of a group are tokens of the colour of its first cell. */
  lemma GroupAtCells(arr: Board, g: Group, p: Coord, from: Coord)
    requires GroupAt(arr, g, p, from)
    ensures forall x | x in g.cells :: Joins(arr[x], arr[g.cells[0]])
  {
    forall x | x in g.cells ensures Joins(arr[x], arr[g.cells[0]]) {
      var k :| 0 <= k < |g.cells| && g.cells[k] == x;
      GroupCellAt(arr, g, p, from, k);
    }
  }

  /** Cell k of a group is a token of the colour of its first cell. */
  lemma GroupCellAt(arr: Board, g: Group, p: Coord, from: Coord, k: int)
    requires GroupAt(arr, g, p, from) && 0 <= k < |g.cells|
    ensures Joins(arr[g.cells[k]], arr[g.cells[0]])
  {
    var line := Line(arr, p, g.orientation == H);
    assert line[from + k] == arr[g.cells[k]];
    assert line[from] == arr[g.cells[0]];
    assert Joins(line[from + k], line[from]);
  }

  /** Every maximal run of 3 or more tokens of one colour on a line is a group of `findMatchGroups`. */
  lemma MatchGroupsComplete(arr: Board, p: Coord, from: int, len: nat, horizontal: bool)
    requires MaximalRun(Line(arr, p, horizontal), from, len) && len >= 3
    ensures Group(Segment(p, from, len, horizontal), OrientationOf(horizontal)) in MatchGroups(arr)
  {
    LinesFromComplete(arr, 0, p, horizontal, from, len);
  }

  /**
   * The state of `scanLineGroups` on line p before position s: `run` holds
   * the indices of the current run, and `groups` followed by what the scan
   * still emits is everything line p emits.
   */
  ghost predicate ScanState(line: seq<Cell>, p: Coord, s: int, horizontal: bool, groups: seq<Group>, run: seq<Index>, whole: seq<Group>)
    requires |line| == SIZE
  {
    && |run| <= s <= SIZE
    && run == Segment(p, s - |run|, |run|, horizontal)
    && groups + LineFrom(line, p, s, |run|, horizontal) == whole
  }

  /** An empty cell flushes the run, which restarts with no cells. */
  lemma StepEmpty(line: seq<Cell>, p: Coord, s: Coord, horizontal: bool,
                  groups: seq<Group>, run: seq<Index>, whole: seq<Group>, groups': seq<Group>, run': seq<Index>)
    requires |line| == SIZE && line[s].Empty?
    requires ScanState(line, p, s, horizontal, groups, run, whole)
    requires groups' == groups + Flush(p, s, |run|, horizontal) && run' == []
    ensures ScanState(line, p, s + 1, horizontal, groups', run', whole)
  {
    AppendAssoc(groups, Flush(p, s, |run|, horizontal), LineFrom(line, p, s + 1, 0, horizontal));
  }

  /** A token with no run before it starts a run. */
  lemma StepStart(line: seq<Cell>, p: Coord, s: Coord, horizontal: bool,
                  groups: seq<Group>, run: seq<Index>, whole: seq<Group>, run': seq<Index>)
    requires |line| == SIZE && line[s].Token? && run == []
    requires ScanState(line, p, s, horizontal, groups, run, whole)
    requires run' == [CellIdx(p, s, horizontal)]
    ensures ScanState(line, p, s + 1, horizontal, groups, run', whole)
  {
  }

  /** A token that joins the previous cell grows the run. */
  lemma StepExtend(line: seq<Cell>, p: Coord, s: Coord, horizontal: bool,
                   groups: seq<Group>, run: seq<Index>, whole: seq<Group>, run': seq<Index>)
    requires |line| == SIZE && ScanState(line, p, s, horizontal, groups, run, whole)
    requires line[s].Token? && run != [] && Joins(line[s - 1], line[s])
    requires run' == run + [CellIdx(p, s, horizontal)]
    ensures ScanState(line, p, s + 1, horizontal, groups, run', whole)
  {
    assert Segment(p, s - |run|, |run| + 1, horizontal) == run';
  }

  /** A token that does not join the previous cell flushes the run and starts a new one. */
  lemma StepBreak(line: seq<Cell>, p: Coord, s: Coord, horizontal: bool,
                  groups: seq<Group>, run: seq<Index>, whole: seq<Group>, groups': seq<Group>, run': seq<Index>)
    requires |line| == SIZE && ScanState(line, p, s, horizontal, groups, run, whole)
    requires line[s].Token? && run != [] && !Joins(line[s - 1], line[s])
    requires groups' == groups + Flush(p, s, |run|, horizontal) && run' == [CellIdx(p, s, horizontal)]
    ensures ScanState(line, p, s + 1, horizontal, groups', run', whole)
  {
    AppendAssoc(groups, Flush(p, s, |run|, horizontal), LineFrom(line, p, s + 1, 1, horizontal));
  }

  /** The last cell of a non-empty run is the cell just before position s. */
  lemma RunLast(line: seq<Cell>, arr: Board, p: Coord, s: int, horizontal: bool,
                groups: seq<Group>, run: seq<Index>, whole: seq<Group>)
    requires line == Line(arr, p, horizontal) && run != []
    requires ScanState(line, p, s, horizontal, groups, run, whole)
    ensures arr[run[|run| - 1]] == line[s - 1]
  {
  }

  lemma AppendAssoc(a: seq<Group>, b: seq<Group>, c: seq<Group>)
    ensures (a + b) + c == a + (b + c)
  {
  }

  lemma LinesFromUnfold(arr: Board, p: Coord, horizontal: bool)
    ensures LinesFrom(arr, p, horizontal) == LineFrom(Line(arr, p, horizontal), p, 0, 0, horizontal) + LinesFrom(arr, p + 1, horizontal)
  {
  }

  /**
   * The outer loop of `scanLineGroups` keeps its invariant when it appends
   * the groups of line p (giving groups') and moves on to line p'.
   */
  lemma LinesStep(arr: Board, p: Coord, horizontal: bool, groups: seq<Group>, lineGroups: seq<Group>,
                  groups': seq<Group>, p': int)
    requires groups + LinesFrom(arr, p, horizontal) == LineGroups(arr, horizontal)
    requires lineGroups == LineFrom(Line(arr, p, horizontal), p, 0, 0, horizontal)
    requires groups' == groups + lineGroups && p' == p + 1
    ensures groups' + LinesFrom(arr, p', horizontal) == LineGroups(arr, horizontal)
  {
    LinesFromUnfold(arr, p, horizontal);
    AppendAssoc(groups, lineGroups, LinesFrom(arr, p + 1, horizontal));
  }

  /** `scanLineGroups`: the groups of every line p in order, each line scanned by `ScanLine`. */
  method ScanLineGroups(arr: Board, horizontal: bool) returns (groups: seq<Group>)
    ensures groups == LineGroups(arr, horizontal)
  {
    groups := [];
    var p := 0;
    while p < SIZE
      invariant 0 <= p <= SIZE
      invariant groups + LinesFrom(arr, p, horizontal) == LineGroups(arr, horizontal)
    {
      var lineGroups := ScanLine(arr, p, horizontal);
      ghost var before := groups;
      groups := groups + lineGroups;
      p := p + 1;
      LinesStep(arr, p - 1, horizontal, before, lineGroups, groups, p);
    }
  }

  /** The inner loop of `scanLineGroups` over the positions of line p, growing and resetting a run. */
  method ScanLine(arr: Board, p: Coord, horizontal: bool) returns (groups: seq<Group>)
    ensures groups == LineFrom(Line(arr, p, horizontal), p, 0, 0, horizontal)
  {
    ghost var line := Line(arr, p, horizontal);
    ghost var whole := LineFrom(line, p, 0, 0, horizontal);
    groups := [];
    var run: seq<Index> := [];
    for s := 0 to SIZE
      invariant ScanState(line, p, s, horizontal, groups, run, whole)
    {
      groups, run := ScanCell(arr, p, s, horizontal, groups, run, whole);
    }
    groups := FlushRun(groups, run, p, SIZE, horizontal);
  }

  /** One pass of the inner loop of `scanLineGroups`: the cell at position s of line p extends, ends or starts a run. */
  method ScanCell(arr: Board, p: Coord, s: Coord, horizontal: bool, groups: seq<Group>, run: seq<Index>, ghost whole: seq<Group>)
    returns (groups': seq<Group>, run': seq<Index>)
    requires ScanState(Line(arr, p, horizontal), p, s, horizontal, groups, run, whole)
    ensures ScanState(Line(arr, p, horizontal), p, s + 1, horizontal, groups', run', whole)
  {
    ghost var line := Line(arr, p, horizontal);
    var idx := CellIdx(p, s, horizontal);
    var cell := arr[idx];
    assert cell == line[s];
    if cell.Empty? {
      groups' := FlushRun(groups, run, p, s, horizontal);
      run' := [];
      StepEmpty(line, p, s, horizontal, groups, run, whole, groups', run');
    } else if |run| == 0 {
      groups', run' := groups, [idx];
      StepStart(line, p, s, horizontal, groups, run, whole, run');
    } else {
      var prev := run[|run| - 1];
      RunLast(line, arr, p, s, horizontal, groups, run, whole);
      if arr[prev].Token? && cell.color == arr[prev].color {
        groups', run' := groups, run + [idx];
        StepExtend(line, p, s, horizontal, groups, run, whole, run');
      } else {
        groups' := FlushRun(groups, run, p, s, horizontal);
        run' := [idx];
        StepBreak(line, p, s, horizontal, groups, run, whole, groups', run');
      }
    }
  }

  /** Appends the run ending before position s as a group when it has at least 3 cells. */
  method FlushRun(groups: seq<Group>, run: seq<Index>, p: Coord, s: int, horizontal: bool) returns (r: seq<Group>)
    requires |run| <= s <= SIZE && run == Segment(p, s - |run|, |run|, horizontal)
    ensures r == groups + Flush(p, s, |run|, horizontal)
  {
    r := groups;
    if |run| >= 3 {
      r := r + [Group(run, OrientationOf(horizontal))];
    }
  }

  /** `findMatchGroups`: all row groups followed by all column groups. */
  method FindMatchGroups(arr: Board) returns (groups: seq<Group>)
    ensures groups == MatchGroups(arr)
    ensures forall g | g in groups :: IsMatchGroup(arr, g)
  {
    var rows := ScanLineGroups(arr, true);
    var cols := ScanLineGroups(arr, false);
    groups := rows + cols;
    forall g | g in groups ensures IsMatchGroup(arr, g) {
      MatchGroupsSound(arr, g);
    }
  }
}
