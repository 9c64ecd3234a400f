/**
 * Component grouping (`getMatchedComponents`): the cells of all match groups
 * are collected in first-seen order, and a breadth-first flood fill from each
 * not yet visited, non-empty one gathers the matched cells of its colour that
 * are reachable through up/down/left/right neighbours.
 */
module Components {
  import opened Geometry
  import opened Cells
  import opened Matching

  /** A flood-filled region: its colour and its cells in the order the BFS dequeued them. */
  datatype Component = Component(color: Color, cells: seq<Index>)

  /** The elements of a sequence of indices. */
  function Elems(s: seq<Index>): set<Index>
  {
    set x | x in s
  }

  /** No index occurs twice. */
  predicate Distinct(s: seq<Index>)
  {
    forall i, j | 0 <= i < j < |s| :: s[i] != s[j]
  }

  // ---------------------------------------------------------------------------
  // matchedSet: a JavaScript Set filled group by group, kept in insertion order
  // ---------------------------------------------------------------------------

  /** Adds the cells not seen yet to the end of `acc`, in order. */
  function AddCells(acc: seq<Index>, cells: seq<Index>): seq<Index>
    decreases |cells|
  {
    if cells == [] then acc
    else AddCells(if cells[0] in acc then acc else acc + [cells[0]], cells[1..])
  }

  function AddGroups(acc: seq<Index>, groups: seq<Group>): seq<Index>
    decreases |groups|
  {
    if groups == [] then acc else AddGroups(AddCells(acc, groups[0].cells), groups[1..])
  }

  /** The iteration order of `matchedSet`. */
  function MatchedOrder(groups: seq<Group>): seq<Index>
  {
    AddGroups([], groups)
  }

  /** Every cell of some group. */
  function GroupCells(groups: seq<Group>): set<Index>
    decreases |groups|
  {
    if groups == [] then {} else Elems(groups[0].cells) + GroupCells(groups[1..])
  }

  lemma {:induction false} AddCellsFacts(acc: seq<Index>, cells: seq<Index>)
    requires Distinct(acc)
    ensures Distinct(AddCells(acc, cells))
    ensures Elems(AddCells(acc, cells)) == Elems(acc) + Elems(cells)
    decreases |cells|
  {
    if cells != [] {
      var acc' := if cells[0] in acc then acc else acc + [cells[0]];
      assert Elems(acc') == Elems(acc) + {cells[0]};
      assert Elems(cells) == {cells[0]} + Elems(cells[1..]);
      AddCellsFacts(acc', cells[1..]);
    }
  }

  lemma {:induction false} AddGroupsFacts(acc: seq<Index>, groups: seq<Group>)
    requires Distinct(acc)
    ensures Distinct(AddGroups(acc, groups))
    ensures Elems(AddGroups(acc, groups)) == Elems(acc) + GroupCells(groups)
    decreases |groups|
  {
    if groups != [] {
      AddCellsFacts(acc, groups[0].cells);
      AddGroupsFacts(AddCells(acc, groups[0].cells), groups[1..]);
    }
  }

  /** `matchedSet` holds each cell of each group exactly once. */
  lemma MatchedOrderFacts(groups: seq<Group>)
    ensures Distinct(MatchedOrder(groups))
    ensures Elems(MatchedOrder(groups)) == GroupCells(groups)
  {
    AddGroupsFacts([], groups);
  }

  // ---------------------------------------------------------------------------
  // The flood fill
  // ---------------------------------------------------------------------------

  /** The in-range neighbours of a cell in the order up, down, left, right. */
  function Neighbours(idx: Index): (ns: seq<Index>)
    ensures forall n | n in ns :: AreAdjacent(idx, n)
  {
    var r, c := Row(idx), Col(idx);
    (if r - 1 >= 0 then [PosToIdx(r - 1, c)] else []) +
    (if r + 1 < SIZE then [PosToIdx(r + 1, c)] else []) +
    (if c - 1 >= 0 then [PosToIdx(r, c - 1)] else []) +
    (if c + 1 < SIZE then [PosToIdx(r, c + 1)] else [])
  }

  /** A cell the fill of a component of `color` may enter: matched, and a token of that colour. */
  predicate Joinable(b: Board, matched: set<Index>, color: Color, x: Index)
  {
    x in matched && b[x].Token? && b[x].color == color
  }

  /** The neighbour loop: each unvisited joinable neighbour is marked visited and queued. */
  function Enqueue(b: Board, matched: set<Index>, color: Color, ns: seq<Index>,
                   queue: seq<Index>, visited: set<Index>): (r: (seq<Index>, set<Index>))
    ensures visited <= r.1
    ensures r.1 == visited ==> r.0 == queue
    decreases |ns|
  {
    if ns == [] then (queue, visited)
    else if ns[0] in visited || !Joinable(b, matched, color, ns[0]) then
      Enqueue(b, matched, color, ns[1..], queue, visited)
    else
      Enqueue(b, matched, color, ns[1..], queue + [ns[0]], visited + {ns[0]})
  }

  /** The queue loop: dequeue a cell, record it, enqueue its neighbours; yields the cells and the visited set. */
  function Bfs(b: Board, matched: set<Index>, color: Color, queue: seq<Index>,
               visited: set<Index>, cells: seq<Index>): (r: (seq<Index>, set<Index>))
    decreases AllIndices - visited, |queue|
  {
    if queue == [] then (cells, visited)
    else
      var next := Enqueue(b, matched, color, Neighbours(queue[0]), queue[1..], visited);
      Bfs(b, matched, color, next.0, next.1, cells + [queue[0]])
  }

  /** The loop over `matchedSet` from position i on; yields the components and the final visited set. */
  function ComponentsFrom(b: Board, order: seq<Index>, matched: set<Index>, i: nat,
                          visited: set<Index>): (r: (seq<Component>, set<Index>))
    requires i <= |order|
    decreases |order| - i
  {
    if i == |order| then ([], visited)
    else
      var start := order[i];
      if start in visited || b[start].Empty? then ComponentsFrom(b, order, matched, i + 1, visited)
      else
        var found := Bfs(b, matched, b[start].color, [start], visited + {start}, []);
        var rest := ComponentsFrom(b, order, matched, i + 1, found.1);
        ([Component(b[start].color, found.0)] + rest.0, rest.1)
  }

  /** What `getMatchedComponents(groups)` returns on board b. */
  function MatchedComponents(b: Board, groups: seq<Group>): seq<Component>
  {
    var order := MatchedOrder(groups);
    ComponentsFrom(b, order, Elems(order), 0, {}).0
  }

  /** All cells of all components, in order. */
  function Flat(comps: seq<Component>): seq<Index>
    decreases |comps|
  {
    if comps == [] then [] else comps[0].cells + Flat(comps[1..])
  }

  /** y is a 4-neighbour of one of the cells. */
  predicate Parented(cells: seq<Index>, y: Index)
  {
    exists j | 0 <= j < |cells| :: AreAdjacent(cells[j], y)
  }

  /** Every cell after the first is a 4-neighbour of an earlier one (the BFS tree). */
  predicate Linked(cells: seq<Index>)
  {
    forall k | 0 < k < |cells| :: Parented(cells[..k], cells[k])
  }

  // ---------------------------------------------------------------------------
  // Sequence helpers
  // ---------------------------------------------------------------------------

  lemma ElemsAppend(a: seq<Index>, c: seq<Index>)
    ensures Elems(a + c) == Elems(a) + Elems(c)
  {
    assert forall x | x in a + c :: x in a || x in c;
  }

  lemma DistinctAppend(a: seq<Index>, c: seq<Index>)
    ensures Distinct(a + c) <==> Distinct(a) && Distinct(c) && Elems(a) !! Elems(c)
  {
    if Distinct(a + c) {
      forall i, j | 0 <= i < |a| && 0 <= j < |c| ensures a[i] != c[j] {
        assert (a + c)[i] == a[i] && (a + c)[|a| + j] == c[j];
      }
      forall i, j | 0 <= i < j < |c| ensures c[i] != c[j] {
        assert (a + c)[|a| + i] == c[i] && (a + c)[|a| + j] == c[j];
      }
      forall i, j | 0 <= i < j < |a| ensures a[i] != a[j] {
        assert (a + c)[i] == a[i] && (a + c)[j] == a[j];
      }
    }
    if Distinct(a) && Distinct(c) && Elems(a) !! Elems(c) {
      forall i, j | 0 <= i < j < |a + c| ensures (a + c)[i] != (a + c)[j] {
        if j < |a| {
          assert (a + c)[i] == a[i] && (a + c)[j] == a[j];
        } else if i >= |a| {
          assert (a + c)[i] == c[i - |a|] && (a + c)[j] == c[j - |a|];
        } else {
          assert (a + c)[i] == a[i] && (a + c)[j] == c[j - |a|];
          assert a[i] in Elems(a) && c[j - |a|] in Elems(c);
        }
      }
    }
  }

  // ---------------------------------------------------------------------------
  // Facts about one flood fill
  // ---------------------------------------------------------------------------

  /**
   * r is what the neighbour loop over `ns` makes of `queue` and `visited`:
   * `queue` followed by distinct, unvisited, joinable cells of `ns`, each
   * of them now visited, and nothing else visited.
   */
  ghost predicate EnqueuedFrom(b: Board, matched: set<Index>, color: Color, ns: seq<Index>,
                               queue: seq<Index>, visited: set<Index>, r: (seq<Index>, set<Index>))
  {
    && |queue| <= |r.0| && r.0[..|queue|] == queue
    && Distinct(r.0[|queue|..])
    && r.1 == visited + Elems(r.0[|queue|..])
    && forall k | |queue| <= k < |r.0| :: r.0[k] !in visited && Joinable(b, matched, color, r.0[k]) && r.0[k] in ns
  }

  /** What the neighbour loop appends: distinct, unvisited, joinable neighbours, each now visited. */
  lemma {:induction false} EnqueueFacts(b: Board, matched: set<Index>, color: Color, ns: seq<Index>,
                                        queue: seq<Index>, visited: set<Index>)
    ensures EnqueuedFrom(b, matched, color, ns, queue, visited, Enqueue(b, matched, color, ns, queue, visited))
    decreases |ns|
  {
    if ns == [] {
      assert Elems([]) == {};
    } else if ns[0] in visited || !Joinable(b, matched, color, ns[0]) {
      EnqueueFacts(b, matched, color, ns[1..], queue, visited);
      EnqueuedSkip(b, matched, color, ns, queue, visited, Enqueue(b, matched, color, ns[1..], queue, visited));
    } else {
      EnqueueFacts(b, matched, color, ns[1..], queue + [ns[0]], visited + {ns[0]});
      EnqueuedTake(b, matched, color, ns, queue, visited,
                   Enqueue(b, matched, color, ns[1..], queue + [ns[0]], visited + {ns[0]}));
    }
  }

  /** Skipping the first neighbour keeps what the rest of the loop appends. */
  lemma EnqueuedSkip(b: Board, matched: set<Index>, color: Color, ns: seq<Index>,
                     queue: seq<Index>, visited: set<Index>, r: (seq<Index>, set<Index>))
    requires ns != []
    requires EnqueuedFrom(b, matched, color, ns[1..], queue, visited, r)
    ensures EnqueuedFrom(b, matched, color, ns, queue, visited, r)
  {
    forall k | |queue| <= k < |r.0| ensures r.0[k] in ns {
      assert r.0[k] in ns[1..];
    }
  }

  /** Queueing the first neighbour, unvisited and joinable, before what the rest of the loop appends. */
  lemma EnqueuedTake(b: Board, matched: set<Index>, color: Color, ns: seq<Index>,
                     queue: seq<Index>, visited: set<Index>, r: (seq<Index>, set<Index>))
    requires ns != [] && ns[0] !in visited && Joinable(b, matched, color, ns[0])
    requires EnqueuedFrom(b, matched, color, ns[1..], queue + [ns[0]], visited + {ns[0]}, r)
    ensures EnqueuedFrom(b, matched, color, ns, queue, visited, r)
  {
    var n := ns[0];
    var q1 := queue + [n];
    var added := r.0[|q1|..];
    assert r.0[|queue|..] == [n] + added by {
      assert r.0[|queue|] == q1[|queue|];
    }
    assert n !in Elems(added);
    DistinctAppend([n], added);
    ElemsAppend([n], added);
    assert Elems([n]) == {n};
    forall k | |queue| < k < |r.0| ensures r.0[k] in ns {
      assert r.0[k] in ns[1..];
    }
    assert r.0[..|queue|] == queue by {
      assert r.0[..|queue|] == q1[..|queue|];
    }
  }

  /** The cells already recorded stay a prefix of the result. */
  lemma {:induction false} BfsPrefix(b: Board, matched: set<Index>, color: Color, queue: seq<Index>,
                                     visited: set<Index>, cells: seq<Index>)
    ensures var r := Bfs(b, matched, color, queue, visited, cells);
      |cells| <= |r.0| && r.0[..|cells|] == cells && visited <= r.1
    decreases AllIndices - visited, |queue|
  {
    if queue != [] {
      var next := Enqueue(b, matched, color, Neighbours(queue[0]), queue[1..], visited);
      BfsPrefix(b, matched, color, next.0, next.1, cells + [queue[0]]);
      var r := Bfs(b, matched, color, queue, visited, cells);
      assert r.0[..|cells|] == (r.0[..|cells| + 1])[..|cells|];
    }
  }

  /** One dequeue step: the recorded cells followed by the queue grow by exactly what was enqueued. */
  lemma BfsStepShape(cells: seq<Index>, queue: seq<Index>, next: seq<Index>)
    requires queue != [] && |queue| - 1 <= |next| && next[..|queue| - 1] == queue[1..]
    ensures (cells + [queue[0]]) + next == (cells + queue) + next[|queue| - 1..]
  {
    assert next == queue[1..] + next[|queue| - 1..];
    assert queue == [queue[0]] + queue[1..];
  }

  /**
   * The fill records each cell once, and the cells recorded (together with
   * the cells `prior` fills recorded) are exactly the visited set.
   */
  lemma {:induction false} BfsDistinct(b: Board, matched: set<Index>, color: Color, queue: seq<Index>,
                                       visited: set<Index>, cells: seq<Index>, prior: set<Index>)
    requires Distinct(cells + queue) && Elems(cells + queue) !! prior && prior + Elems(cells + queue) == visited
    ensures var r := Bfs(b, matched, color, queue, visited, cells);
      Distinct(r.0) && Elems(r.0) !! prior && prior + Elems(r.0) == r.1
    decreases AllIndices - visited, |queue|
  {
    if queue != [] {
      var next := Enqueue(b, matched, color, Neighbours(queue[0]), queue[1..], visited);
      EnqueueFacts(b, matched, color, Neighbours(queue[0]), queue[1..], visited);
      var added := next.0[|queue| - 1..];
      BfsStepShape(cells, queue, next.0);
      var w := cells + queue;
      assert Elems(w) <= visited;
      forall x | x in Elems(added) ensures x !in visited {
        var m :| 0 <= m < |added| && added[m] == x;
        assert next.0[|queue| - 1 + m] == x;
      }
      DistinctAppend(w, added);
      ElemsAppend(w, added);
      assert Distinct((cells + [queue[0]]) + next.0);
      assert Elems((cells + [queue[0]]) + next.0) !! prior;
      assert prior + Elems((cells + [queue[0]]) + next.0) == next.1;
      BfsDistinct(b, matched, color, next.0, next.1, cells + [queue[0]], prior);
    } else {
      assert cells + queue == cells;
    }
  }

  /** Every cell the fill records after `cells` was queued as joinable. */
  lemma {:induction false} BfsJoinable(b: Board, matched: set<Index>, color: Color, queue: seq<Index>,
                                       visited: set<Index>, cells: seq<Index>)
    requires forall x | x in queue :: Joinable(b, matched, color, x)
    ensures var r := Bfs(b, matched, color, queue, visited, cells);
      forall k | |cells| <= k < |r.0| :: Joinable(b, matched, color, r.0[k])
    decreases AllIndices - visited, |queue|
  {
    if queue != [] {
      var next := Enqueue(b, matched, color, Neighbours(queue[0]), queue[1..], visited);
      EnqueueFacts(b, matched, color, Neighbours(queue[0]), queue[1..], visited);
      forall x | x in next.0 ensures Joinable(b, matched, color, x) {
        var k :| 0 <= k < |next.0| && next.0[k] == x;
        if k < |queue| - 1 {
          assert x == queue[1..][k];
        }
      }
      BfsJoinable(b, matched, color, next.0, next.1, cells + [queue[0]]);
      BfsPrefix(b, matched, color, next.0, next.1, cells + [queue[0]]);
      var r := Bfs(b, matched, color, queue, visited, cells);
      assert r.0[|cells|] == (cells + [queue[0]])[|cells|];
    }
  }

  /** A parent among some cells stays a parent when one more cell is recorded; the new cell parents its neighbours. */
  lemma ParentedExtend(cells: seq<Index>, x: Index, y: Index)
    requires Parented(cells, y) || AreAdjacent(x, y)
    ensures Parented(cells + [x], y)
  {
    if Parented(cells, y) {
      var j :| 0 <= j < |cells| && AreAdjacent(cells[j], y);
      assert (cells + [x])[j] == cells[j];
    } else {
      assert (cells + [x])[|cells|] == x;
    }
  }

  /** Recording a dequeued cell that has a parent keeps the recorded cells a BFS tree. */
  lemma LinkedStep(cells: seq<Index>, idx: Index)
    requires Linked(cells) && (cells != [] ==> Parented(cells, idx))
    ensures Linked(cells + [idx])
  {
    var cells' := cells + [idx];
    forall k | 0 < k < |cells'| ensures Parented(cells'[..k], cells'[k]) {
      if k < |cells| {
        assert cells'[..k] == cells[..k] && cells'[k] == cells[k];
      } else {
        assert cells'[..k] == cells && cells'[k] == idx;
      }
    }
  }

  /** After a dequeue, every queued cell has a parent among the recorded cells. */
  lemma ParentedStep(cells: seq<Index>, queue: seq<Index>, next: seq<Index>)
    requires queue != [] && |queue| - 1 <= |next| && next[..|queue| - 1] == queue[1..]
    requires cells == [] ==> |queue| <= 1
    requires cells != [] ==> forall y | y in queue :: Parented(cells, y)
    requires forall k | |queue| - 1 <= k < |next| :: AreAdjacent(queue[0], next[k])
    ensures forall y | y in next :: Parented(cells + [queue[0]], y)
  {
    forall y | y in next ensures Parented(cells + [queue[0]], y) {
      var k :| 0 <= k < |next| && next[k] == y;
      if k < |queue| - 1 {
        assert y == queue[1..][k] && y in queue;
      }
      ParentedExtend(cells, queue[0], y);
    }
  }

  /** The fill from one start cell records a BFS tree: each later cell is adjacent to an earlier one. */
  lemma {:induction false} BfsLinked(b: Board, matched: set<Index>, color: Color, queue: seq<Index>,
                                     visited: set<Index>, cells: seq<Index>)
    requires Linked(cells)
    requires cells == [] ==> |queue| <= 1
    requires cells != [] ==> forall y | y in queue :: Parented(cells, y)
    ensures Linked(Bfs(b, matched, color, queue, visited, cells).0)
    decreases AllIndices - visited, |queue|
  {
    if queue != [] {
      var next := Enqueue(b, matched, color, Neighbours(queue[0]), queue[1..], visited);
      EnqueueFacts(b, matched, color, Neighbours(queue[0]), queue[1..], visited);
      assert cells != [] ==> Parented(cells, queue[0]);
      LinkedStep(cells, queue[0]);
      forall k | |queue| - 1 <= k < |next.0| ensures AreAdjacent(queue[0], next.0[k]) {
        assert next.0[k] in Neighbours(queue[0]);
      }
      ParentedStep(cells, queue, next.0);
      BfsLinked(b, matched, color, next.0, next.1, cells + [queue[0]]);
    }
  }

  /** Each of the four cells next to idx on the board is one of the neighbours the fill looks at. */
  lemma NeighbourListed(idx: Index, y: Index)
    requires (Row(idx) == Row(y) && (y == idx + 1 || y == idx - 1)) || (Col(idx) == Col(y) && (y == idx + SIZE || y == idx - SIZE))
    ensures y in Neighbours(idx)
  {
    var r, c := Row(idx), Col(idx);
    if Row(idx) == Row(y) && y == idx + 1 {
      assert c + 1 < SIZE && PosToIdx(r, c + 1) == y;
    } else if Row(idx) == Row(y) {
      assert c - 1 >= 0 && PosToIdx(r, c - 1) == y;
    } else if y == idx + SIZE {
      assert r + 1 < SIZE && PosToIdx(r + 1, c) == y;
    } else {
      assert r - 1 >= 0 && PosToIdx(r - 1, c) == y;
    }
  }

  /** Every cell adjacent to idx is one of the neighbours the fill looks at. */
  lemma NeighboursComplete(idx: Index, y: Index)
    requires AreAdjacent(idx, y)
    ensures y in Neighbours(idx)
  {
    AdjacentIsNeighbour(idx, y);
    NeighbourListed(idx, y);
  }

  /** Being a neighbour is symmetric. */
  lemma NeighboursSymmetric(x: Index, y: Index)
    requires y in Neighbours(x)
    ensures x in Neighbours(y)
  {
    AdjacentIsNeighbour(x, y);
    NeighboursComplete(y, x);
  }

  /** After the neighbour loop every joinable neighbour is visited, queued now or before. */
  lemma {:induction false} EnqueueCovers(b: Board, matched: set<Index>, color: Color, ns: seq<Index>,
                                         queue: seq<Index>, visited: set<Index>)
    ensures forall n | n in ns && Joinable(b, matched, color, n) :: n in Enqueue(b, matched, color, ns, queue, visited).1
    decreases |ns|
  {
    if ns != [] {
      if ns[0] in visited || !Joinable(b, matched, color, ns[0]) {
        EnqueueCovers(b, matched, color, ns[1..], queue, visited);
      } else {
        EnqueueCovers(b, matched, color, ns[1..], queue + [ns[0]], visited + {ns[0]});
      }
      forall n | n in ns && Joinable(b, matched, color, n)
        ensures n in Enqueue(b, matched, color, ns, queue, visited).1
      {
        if n != ns[0] {
          assert n in ns[1..];
        }
      }
    }
  }

  /** Every joinable neighbour of the cells is in v. */
  ghost predicate NeighboursIn(b: Board, matched: set<Index>, color: Color, cells: seq<Index>, v: set<Index>)
  {
    forall x, y | x in cells && y in Neighbours(x) && Joinable(b, matched, color, y) :: y in v
  }

  /** Recording a cell whose joinable neighbours are all visited keeps the recorded cells' neighbours visited. */
  lemma NeighboursInStep(b: Board, matched: set<Index>, color: Color, cells: seq<Index>, idx: Index,
                         visited: set<Index>, visited': set<Index>)
    requires NeighboursIn(b, matched, color, cells, visited) && visited <= visited'
    requires forall n | n in Neighbours(idx) && Joinable(b, matched, color, n) :: n in visited'
    ensures NeighboursIn(b, matched, color, cells + [idx], visited')
  {
    forall x, y | x in cells + [idx] && y in Neighbours(x) && Joinable(b, matched, color, y)
      ensures y in visited'
    {
      if x in cells {
        assert y in visited;
      }
    }
  }

  /** The fill leaves no joinable neighbour of a recorded cell unvisited. */
  lemma {:induction false} BfsClosed(b: Board, matched: set<Index>, color: Color, queue: seq<Index>,
                                     visited: set<Index>, cells: seq<Index>)
    requires NeighboursIn(b, matched, color, cells, visited)
    ensures var r := Bfs(b, matched, color, queue, visited, cells);
      NeighboursIn(b, matched, color, r.0, r.1)
    decreases AllIndices - visited, |queue|
  {
    if queue != [] {
      var next := Enqueue(b, matched, color, Neighbours(queue[0]), queue[1..], visited);
      EnqueueCovers(b, matched, color, Neighbours(queue[0]), queue[1..], visited);
      NeighboursInStep(b, matched, color, cells, queue[0], visited, next.1);
      BfsClosed(b, matched, color, next.0, next.1, cells + [queue[0]]);
    }
  }

  // ---------------------------------------------------------------------------
  // Facts about the loop over matchedSet
  // ---------------------------------------------------------------------------

  /** The fill from a single start records the start first. */
  lemma BfsStart(b: Board, matched: set<Index>, color: Color, start: Index, visited: set<Index>)
    ensures var r := Bfs(b, matched, color, [start], visited, []);
      r.0 != [] && r.0[0] == start
  {
    assert [start][0] == start && [start][1..] == [] && [] + [start] == [start];
    var next := Enqueue(b, matched, color, Neighbours(start), [], visited);
    assert Bfs(b, matched, color, [start], visited, []) == Bfs(b, matched, color, next.0, next.1, [start]);
    BfsPrefix(b, matched, color, next.0, next.1, [start]);
  }

  /** The components are disjoint from each other and from `visited`, and together with it make the final visited set. */
  lemma {:induction false} ComponentsDistinct(b: Board, order: seq<Index>, matched: set<Index>, i: nat, visited: set<Index>)
    requires i <= |order|
    ensures var r := ComponentsFrom(b, order, matched, i, visited);
      Distinct(Flat(r.0)) && Elems(Flat(r.0)) !! visited && visited + Elems(Flat(r.0)) == r.1
    decreases |order| - i
  {
    if i == |order| {
      assert Elems([]) == {};
    } else {
      var start := order[i];
      if start in visited || b[start].Empty? {
        ComponentsDistinct(b, order, matched, i + 1, visited);
      } else {
        var color := b[start].color;
        var found := Bfs(b, matched, color, [start], visited + {start}, []);
        assert [] + [start] == [start];
        assert Elems([start]) == {start};
        BfsDistinct(b, matched, color, [start], visited + {start}, [], visited);
        ComponentsDistinct(b, order, matched, i + 1, found.1);
        var rest := ComponentsFrom(b, order, matched, i + 1, found.1);
        var comps := [Component(color, found.0)] + rest.0;
        assert Flat(comps) == found.0 + Flat(rest.0) by {
          assert comps[1..] == rest.0;
        }
        DistinctAppend(found.0, Flat(rest.0));
        ElemsAppend(found.0, Flat(rest.0));
      }
    }
  }

  /** Every component is non-empty, starts at its start cell, is a BFS tree, and holds joinable cells of its colour. */
  lemma {:induction false} ComponentsShape(b: Board, order: seq<Index>, matched: set<Index>, i: nat, visited: set<Index>)
    requires i <= |order| && Elems(order) <= matched
    ensures var r := ComponentsFrom(b, order, matched, i, visited);
      forall c | c in r.0 :: c.cells != [] && Linked(c.cells) &&
        forall x | x in c.cells :: Joinable(b, matched, c.color, x)
    decreases |order| - i
  {
    if i < |order| {
      var start := order[i];
      ComponentsShape(b, order, matched, i + 1, visited);
      if start !in visited && b[start].Token? {
        var color := b[start].color;
        var found := Bfs(b, matched, color, [start], visited + {start}, []);
        ComponentsShape(b, order, matched, i + 1, found.1);
        assert start in Elems(order);
        BfsStart(b, matched, color, start, visited + {start});
        BfsLinked(b, matched, color, [start], visited + {start}, []);
        BfsJoinable(b, matched, color, [start], visited + {start}, []);
        assert forall x | x in found.0 :: Joinable(b, matched, color, x);
      }
    }
  }

  /** Every start cell that holds a token ends up visited, and nothing visited is forgotten. */
  lemma {:induction false} ComponentsCover(b: Board, order: seq<Index>, matched: set<Index>, i: nat, visited: set<Index>)
    requires i <= |order|
    ensures var r := ComponentsFrom(b, order, matched, i, visited);
      visited <= r.1 && forall k | i <= k < |order| :: b[order[k]].Token? ==> order[k] in r.1
    decreases |order| - i
  {
    if i < |order| {
      var start := order[i];
      if start in visited || b[start].Empty? {
        ComponentsCover(b, order, matched, i + 1, visited);
      } else {
        var found := Bfs(b, matched, b[start].color, [start], visited + {start}, []);
        BfsPrefix(b, matched, b[start].color, [start], visited + {start}, []);
        ComponentsCover(b, order, matched, i + 1, found.1);
      }
    }
  }

  /** Every joinable neighbour of a visited token, joinable for that token's colour, is visited too. */
  ghost predicate VisitedClosed(b: Board, matched: set<Index>, visited: set<Index>)
  {
    forall x, y | x in visited && b[x].Token? && y in Neighbours(x) && Joinable(b, matched, b[x].color, y) :: y in visited
  }

  /**
   * No component can grow: every joinable neighbour of one of its cells, of
   * its colour, is in it. A neighbour visited by an earlier fill would have
   * pulled this cell into that earlier component.
   */
  lemma {:induction false} ComponentsClosed(b: Board, order: seq<Index>, matched: set<Index>, i: nat, visited: set<Index>)
    requires i <= |order| && Elems(order) <= matched
    requires VisitedClosed(b, matched, visited)
    ensures var r := ComponentsFrom(b, order, matched, i, visited);
      forall c | c in r.0 :: NeighboursIn(b, matched, c.color, c.cells, Elems(c.cells))
    decreases |order| - i
  {
    if i < |order| {
      var start := order[i];
      if start in visited || b[start].Empty? {
        ComponentsClosed(b, order, matched, i + 1, visited);
      } else {
        assert start in Elems(order);
        var found := Bfs(b, matched, b[start].color, [start], visited + {start}, []);
        FillClosed(b, matched, start, visited);
        ComponentsClosed(b, order, matched, i + 1, found.1);
      }
    }
  }

  /**
   * A fill from an unvisited matched token, on top of a closed visited set:
   * its cells hold every joinable neighbour of theirs, and the visited set
   * stays closed.
   */
  lemma FillClosed(b: Board, matched: set<Index>, start: Index, visited: set<Index>)
    requires start !in visited && start in matched && b[start].Token?
    requires VisitedClosed(b, matched, visited)
    ensures var color := b[start].color;
      var found := Bfs(b, matched, color, [start], visited + {start}, []);
      NeighboursIn(b, matched, color, found.0, Elems(found.0)) && VisitedClosed(b, matched, found.1)
  {
    var color := b[start].color;
    var found := Bfs(b, matched, color, [start], visited + {start}, []);
    assert [] + [start] == [start];
    assert Elems([start]) == {start};
    BfsDistinct(b, matched, color, [start], visited + {start}, [], visited);
    BfsJoinable(b, matched, color, [start], visited + {start}, []);
    BfsClosed(b, matched, color, [start], visited + {start}, []);
    ClosedUnion(b, matched, color, visited, found.0, found.1);
  }

  /**
   * Cells of one colour, disjoint from a closed visited set, whose joinable
   * neighbours are all in the union: their neighbours lie among themselves,
   * and the union is closed.
   */
  lemma ClosedUnion(b: Board, matched: set<Index>, color: Color, visited: set<Index>, cells: seq<Index>, v: set<Index>)
    requires VisitedClosed(b, matched, visited)
    requires Elems(cells) !! visited && v == visited + Elems(cells)
    requires forall k | 0 <= k < |cells| :: Joinable(b, matched, color, cells[k])
    requires NeighboursIn(b, matched, color, cells, v)
    ensures NeighboursIn(b, matched, color, cells, Elems(cells)) && VisitedClosed(b, matched, v)
  {
    forall x, y | x in cells && y in Neighbours(x) && Joinable(b, matched, color, y)
      ensures y in Elems(cells)
    {
      var k :| 0 <= k < |cells| && cells[k] == x;
      assert Joinable(b, matched, color, x);
      NeighboursSymmetric(x, y);
      assert y in v;
      assert y in visited ==> x in visited;
      assert x in Elems(cells);
    }
    forall x, y | x in v && b[x].Token? && y in Neighbours(x) && Joinable(b, matched, b[x].color, y)
      ensures y in v
    {
      if x !in visited {
        var k :| 0 <= k < |cells| && cells[k] == x;
        assert Joinable(b, matched, color, x);
      }
    }
  }

  lemma {:induction false} FlatMember(comps: seq<Component>, x: Index)
    ensures x in Flat(comps) <==> exists k | 0 <= k < |comps| :: x in comps[k].cells
    decreases |comps|
  {
    if comps != [] {
      FlatMember(comps[1..], x);
      if x in Flat(comps[1..]) {
        var k :| 0 <= k < |comps[1..]| && x in comps[1..][k].cells;
        assert x in comps[k + 1].cells;
      }
      if exists k | 0 <= k < |comps| :: x in comps[k].cells {
        var k :| 0 <= k < |comps| && x in comps[k].cells;
        if k > 0 {
          assert x in comps[1..][k - 1].cells;
        }
      }
    }
  }

  /** Cells of distinct components never coincide. */
  lemma {:induction false} FlatDisjoint(comps: seq<Component>)
    requires Distinct(Flat(comps))
    ensures forall i, j | 0 <= i < j < |comps| :: Elems(comps[i].cells) !! Elems(comps[j].cells)
    ensures forall i | 0 <= i < |comps| :: Distinct(comps[i].cells)
    decreases |comps|
  {
    if comps != [] {
      DistinctAppend(comps[0].cells, Flat(comps[1..]));
      FlatDisjoint(comps[1..]);
      forall j | 0 < j < |comps| ensures Elems(comps[0].cells) !! Elems(comps[j].cells) {
        forall x | x in comps[j].cells ensures x in Flat(comps[1..]) {
          assert comps[j] == comps[1..][j - 1];
          FlatMember(comps[1..], x);
        }
      }
      forall i, j | 0 < i < j < |comps| ensures Elems(comps[i].cells) !! Elems(comps[j].cells) {
        assert comps[i] == comps[1..][i - 1] && comps[j] == comps[1..][j - 1];
      }
      forall i | 0 < i < |comps| ensures Distinct(comps[i].cells) {
        assert comps[i] == comps[1..][i - 1];
      }
    }
  }

  /** The matched cells that hold a token (the cells `getMatchedComponents` can reach). */
  function MatchedTokens(b: Board, groups: seq<Group>): set<Index>
  {
    set x | x in GroupCells(groups) && b[x].Token?
  }

  /**
   * `getMatchedComponents`: the components are pairwise disjoint and together
   * cover exactly the matched cells that hold a token; each is non-empty, all
   * its cells are matched tokens of its colour, and each of its cells after
   * the first is a 4-neighbour of an earlier one, so every cell reaches the
   * start cell through matched cells of that colour; and each is maximal: a
   * matched token of its colour next to one of its cells is one of its cells.
   */
  lemma MatchedComponentsFacts(b: Board, groups: seq<Group>)
    ensures var comps := MatchedComponents(b, groups);
      && (forall i, j | 0 <= i < j < |comps| :: Elems(comps[i].cells) !! Elems(comps[j].cells))
      && (forall i | 0 <= i < |comps| :: Distinct(comps[i].cells))
      && Elems(Flat(comps)) == MatchedTokens(b, groups)
      && (forall c | c in comps :: c.cells != [] && Linked(c.cells) &&
           forall x | x in c.cells :: x in GroupCells(groups) && b[x].Token? && b[x].color == c.color)
      && forall c, x, y: Index | c in comps && x in c.cells && AreAdjacent(x, y) &&
           y in GroupCells(groups) && b[y].Token? && b[y].color == c.color :: y in c.cells
  {
    var order := MatchedOrder(groups);
    var matched := Elems(order);
    MatchedOrderFacts(groups);
    var r := ComponentsFrom(b, order, matched, 0, {});
    ComponentsDistinct(b, order, matched, 0, {});
    ComponentsShape(b, order, matched, 0, {});
    ComponentsCover(b, order, matched, 0, {});
    ComponentsMaximal(b, groups);
    FlatDisjoint(r.0);
    forall x | x in MatchedTokens(b, groups) ensures x in Elems(Flat(r.0)) {
      var k :| 0 <= k < |order| && order[k] == x;
    }
    forall x | x in Elems(Flat(r.0)) ensures x in MatchedTokens(b, groups) {
      FlatMember(r.0, x);
      var k :| 0 <= k < |r.0| && x in r.0[k].cells;
      assert r.0[k] in r.0;
    }
  }

  /** No component can be grown by a matched token of its colour next to one of its cells. */
  lemma ComponentsMaximal(b: Board, groups: seq<Group>)
    ensures var comps := MatchedComponents(b, groups);
      forall c, x, y: Index | c in comps && x in c.cells && AreAdjacent(x, y) &&
        y in GroupCells(groups) && b[y].Token? && b[y].color == c.color :: y in c.cells
  {
    var order := MatchedOrder(groups);
    var matched := Elems(order);
    MatchedOrderFacts(groups);
    var r := ComponentsFrom(b, order, matched, 0, {});
    ComponentsClosed(b, order, matched, 0, {});
    forall c, x, y: Index | c in r.0 && x in c.cells && AreAdjacent(x, y) &&
      y in GroupCells(groups) && b[y].Token? && b[y].color == c.color
      ensures y in c.cells
    {
      NeighboursComplete(x, y);
      assert Joinable(b, matched, c.color, y);
      assert NeighboursIn(b, matched, c.color, c.cells, Elems(c.cells));
      assert y in Elems(c.cells);
    }
  }

  // ---------------------------------------------------------------------------
  // The imperative getMatchedComponents
  // ---------------------------------------------------------------------------

  /** Adds the cells of one group to `matchedSet`. */
  method AddGroupCells(order: seq<Index>, matched: set<Index>, cells: seq<Index>)
    returns (order': seq<Index>, matched': set<Index>)
    requires matched == Elems(order)
    ensures order' == AddCells(order, cells) && matched' == Elems(order')
  {
    order', matched' := order, matched;
    for k := 0 to |cells|
      invariant matched' == Elems(order')
      invariant AddCells(order', cells[k..]) == AddCells(order, cells)
    {
      assert cells[k..][0] == cells[k] && cells[k..][1..] == cells[k + 1..];
      var idx := cells[k];
      if idx !in matched' {
        ElemsAppend(order', [idx]);
        assert Elems([idx]) == {idx};
        order', matched' := order' + [idx], matched' + {idx};
      }
    }
  }

  /** The first loop of `getMatchedComponents`: `matchedSet`, as its iteration order and its membership. */
  method CollectMatched(groups: seq<Group>) returns (order: seq<Index>, matched: set<Index>)
    ensures order == MatchedOrder(groups) && matched == Elems(order)
  {
    order, matched := [], {};
    assert Elems([]) == {};
    for g := 0 to |groups|
      invariant matched == Elems(order)
      invariant AddGroups(order, groups[g..]) == MatchedOrder(groups)
    {
      assert groups[g..][0] == groups[g] && groups[g..][1..] == groups[g + 1..];
      order, matched := AddGroupCells(order, matched, groups[g].cells);
    }
  }

  /** The `neighbors.forEach` loop of the flood fill. */
  method EnqueueNeighbours(b: Board, matched: set<Index>, color: Color, ns: seq<Index>,
                           queue: seq<Index>, visited: set<Index>)
    returns (queue': seq<Index>, visited': set<Index>)
    ensures (queue', visited') == Enqueue(b, matched, color, ns, queue, visited)
  {
    queue', visited' := queue, visited;
    for k := 0 to |ns|
      invariant Enqueue(b, matched, color, ns[k..], queue', visited') == Enqueue(b, matched, color, ns, queue, visited)
    {
      assert ns[k..][0] == ns[k] && ns[k..][1..] == ns[k + 1..];
      var n := ns[k];
      if n !in visited' && n in matched && b[n].Token? && b[n].color == color {
        visited' := visited' + {n};
        queue' := queue' + [n];
      }
    }
  }

  /** The `while (queue.length > 0)` loop: a breadth-first fill from `start`. */
  method FloodFill(b: Board, matched: set<Index>, color: Color, start: Index, visited0: set<Index>)
    returns (cells: seq<Index>, visited: set<Index>)
    ensures (cells, visited) == Bfs(b, matched, color, [start], visited0 + {start}, [])
  {
    var queue := [start];
    visited := visited0 + {start};
    cells := [];
    while queue != []
      invariant Bfs(b, matched, color, queue, visited, cells) == Bfs(b, matched, color, [start], visited0 + {start}, [])
      decreases AllIndices - visited, |queue|
    {
      var idx := queue[0];
      cells := cells + [idx];
      queue, visited := EnqueueNeighbours(b, matched, color, Neighbours(idx), queue[1..], visited);
    }
  }

  /** `getMatchedComponents(groups)` on board b. */
  method GetMatchedComponents(b: Board, groups: seq<Group>) returns (components: seq<Component>)
    ensures components == MatchedComponents(b, groups)
  {
    var order, matched := CollectMatched(groups);
    ghost var whole := ComponentsFrom(b, order, matched, 0, {}).0;
    var visited: set<Index> := {};
    components := [];
    for i := 0 to |order|
      invariant components + ComponentsFrom(b, order, matched, i, visited).0 == whole
    {
      var start := order[i];
      if start !in visited && b[start].Token? {
        var color := b[start].color;
        var cells, visited' := FloodFill(b, matched, color, start, visited);
        ComponentsStep(b, order, matched, i, visited, components, whole);
        components, visited := components + [Component(color, cells)], visited';
      }
    }
  }

  /** The loop over `matchedSet` keeps its invariant when start cell i opens a component. */
  lemma ComponentsStep(b: Board, order: seq<Index>, matched: set<Index>, i: nat, visited: set<Index>,
                       components: seq<Component>, whole: seq<Component>)
    requires i < |order| && order[i] !in visited && b[order[i]].Token?
    requires components + ComponentsFrom(b, order, matched, i, visited).0 == whole
    ensures var start := order[i];
      var found := Bfs(b, matched, b[start].color, [start], visited + {start}, []);
      (components + [Component(b[start].color, found.0)]) + ComponentsFrom(b, order, matched, i + 1, found.1).0 == whole
  {
    var start := order[i];
    var found := Bfs(b, matched, b[start].color, [start], visited + {start}, []);
    var rest := ComponentsFrom(b, order, matched, i + 1, found.1).0;
    assert (components + [Component(b[start].color, found.0)]) + rest == components + ([Component(b[start].color, found.0)] + rest);
  }
}
