/**
 * One pass of `resolveCascades` and the cascade of passes: which matched
 * cells are removed and which become new specials (the plan), what
 * `applyRemoval` leaves on the board, and the score the cascade earns.
 */
module Resolution {
  import opened Wrappers
  import opened Geometry
  import opened Cells
  import opened Matching
  import opened Components
  import opened Specials
  import opened Gravity

  /** `removals` and `specialCreates` of one pass. */
  datatype Plan = Plan(removals: set<Index>, creates: map<Index, Create>)

  /** Every cell of every group holds a token. */
  predicate TokenGroups(b: Board, groups: seq<Group>)
  {
    forall g, x | g in groups && x in g.cells :: b[x].Token?
  }

  /** The groups of `findMatchGroups` consist of tokens. */
  lemma MatchGroupsTokens(b: Board)
    ensures TokenGroups(b, MatchGroups(b))
  {
    forall g, x | g in MatchGroups(b) && x in g.cells
      ensures b[x].Token?
    {
      MatchGroupsSound(b, g);
    }
  }

  /**
   * The rocket a group of four makes: in the first pass of a move, the
   * direction of the swap; otherwise the direction of the group.
   */
  function RocketKind(swapped: SwappedPair, combo: nat, g: Group): Special
  {
    if swapped.Some? && combo == 1 then
      (if IsHorizontalSwap(swapped.value) then RocketH else RocketV)
    else if g.orientation == H then RocketH
    else RocketV
  }

  /** One group's turn in the rocket loop: a group of exactly four cells turns its pivot into a rocket. */
  function RocketStep(b: Board, g: Group, swapped: SwappedPair, combo: nat, plan: Plan): Plan
    requires forall x | x in g.cells :: b[x].Token?
  {
    if |g.cells| != 4 then plan
    else
      var pivot := ChooseSpecialIndex(g.cells, swapped);
      Plan(plan.removals - {pivot}, Upsert(plan.creates, pivot, RocketKind(swapped, combo, g), b[pivot].color))
  }

  /** The rocket loop over the groups, in order. */
  function PlanRockets(b: Board, groups: seq<Group>, swapped: SwappedPair, combo: nat, plan: Plan): Plan
    requires TokenGroups(b, groups)
    decreases |groups|
  {
    if groups == [] then plan
    else
      assert forall g | g in groups[1..] :: g in groups;
      PlanRockets(b, groups[1..], swapped, combo, RocketStep(b, groups[0], swapped, combo, plan))
  }

  /** One component's turn in the bomb loop: a component of more than four cells turns its pivot into a bomb. */
  function BombStep(c: Component, swapped: SwappedPair, plan: Plan): Plan
  {
    if |c.cells| <= 4 then plan
    else
      var pivot := ChooseSpecialIndex(c.cells, swapped);
      Plan(plan.removals - {pivot}, Upsert(plan.creates, pivot, Bomb, c.color))
  }

  /** The bomb loop over the components, in order. */
  function PlanBombs(comps: seq<Component>, swapped: SwappedPair, plan: Plan): Plan
    decreases |comps|
  {
    if comps == [] then plan
    else PlanBombs(comps[1..], swapped, BombStep(comps[0], swapped, plan))
  }

  /** The plan of a pass on board b: every matched cell is removed, except the pivots of new specials. */
  function PassPlan(b: Board, swapped: SwappedPair, combo: nat): Plan
  {
    var groups := MatchGroups(b);
    MatchGroupsTokens(b);
    PlanBombs(MatchedComponents(b, groups), swapped,
              PlanRockets(b, groups, swapped, combo, Plan(GroupCells(groups), map[])))
  }

  // ---------------------------------------------------------------------------
  // What the plan promises
  // ---------------------------------------------------------------------------

  /**
   * A plan over the matched cells `cells`: each of them is either removed or
   * the pivot of a creation, never both; every creation is a special of the
   * colour of the token on its cell.
   */
  ghost predicate PlanInvariant(b: Board, cells: set<Index>, plan: Plan)
  {
    && plan.removals !! plan.creates.Keys
    && plan.removals + plan.creates.Keys == cells
    && forall k | k in plan.creates ::
         b[k].Token? && plan.creates[k].color == b[k].color && plan.creates[k].special != Plain
  }

  /** Creations are never withdrawn, and a bomb stays a bomb. */
  ghost predicate Grows(before: Plan, after: Plan)
  {
    && before.creates.Keys <= after.creates.Keys
    && forall k | k in before.creates && before.creates[k].special == Bomb :: after.creates[k].special == Bomb
  }

  lemma RocketStepFacts(b: Board, cells: set<Index>, g: Group, swapped: SwappedPair, combo: nat, plan: Plan)
    requires forall x | x in g.cells :: b[x].Token?
    requires Elems(g.cells) <= cells
    requires PlanInvariant(b, cells, plan)
    ensures PlanInvariant(b, cells, RocketStep(b, g, swapped, combo, plan))
    ensures Grows(plan, RocketStep(b, g, swapped, combo, plan))
    ensures |g.cells| == 4 ==> ChooseSpecialIndex(g.cells, swapped) in RocketStep(b, g, swapped, combo, plan).creates
  {
    if |g.cells| == 4 {
      var pivot := ChooseSpecialIndex(g.cells, swapped);
      assert pivot in Elems(g.cells);
    }
  }

  lemma {:induction false} PlanRocketsFacts(b: Board, cells: set<Index>, groups: seq<Group>, swapped: SwappedPair,
                                            combo: nat, plan: Plan)
    requires TokenGroups(b, groups)
    requires forall g | g in groups :: Elems(g.cells) <= cells
    requires PlanInvariant(b, cells, plan)
    ensures PlanInvariant(b, cells, PlanRockets(b, groups, swapped, combo, plan))
    ensures Grows(plan, PlanRockets(b, groups, swapped, combo, plan))
    ensures forall g | g in groups && |g.cells| == 4 ::
      ChooseSpecialIndex(g.cells, swapped) in PlanRockets(b, groups, swapped, combo, plan).creates
    decreases |groups|
  {
    if groups != [] {
      var next := RocketStep(b, groups[0], swapped, combo, plan);
      assert groups[0] in groups;
      RocketStepFacts(b, cells, groups[0], swapped, combo, plan);
      assert forall g | g in groups[1..] :: g in groups;
      PlanRocketsFacts(b, cells, groups[1..], swapped, combo, next);
      assert forall g | g in groups :: g == groups[0] || g in groups[1..];
    }
  }

  /** A component as `getMatchedComponents` returns it: non-empty, inside `cells`, tokens of its colour. */
  ghost predicate GoodComponent(b: Board, cells: set<Index>, c: Component)
  {
    c.cells != [] && forall x | x in c.cells :: x in cells && b[x].Token? && b[x].color == c.color
  }

  lemma BombStepFacts(b: Board, cells: set<Index>, c: Component, swapped: SwappedPair, plan: Plan)
    requires GoodComponent(b, cells, c)
    requires PlanInvariant(b, cells, plan)
    ensures PlanInvariant(b, cells, BombStep(c, swapped, plan))
    ensures Grows(plan, BombStep(c, swapped, plan))
    ensures |c.cells| > 4 ==> var pivot := ChooseSpecialIndex(c.cells, swapped);
      pivot in BombStep(c, swapped, plan).creates && BombStep(c, swapped, plan).creates[pivot].special == Bomb
  {
  }

  lemma {:induction false} PlanBombsFacts(b: Board, cells: set<Index>, comps: seq<Component>, swapped: SwappedPair,
                                          plan: Plan)
    requires forall c | c in comps :: GoodComponent(b, cells, c)
    requires PlanInvariant(b, cells, plan)
    ensures PlanInvariant(b, cells, PlanBombs(comps, swapped, plan))
    ensures Grows(plan, PlanBombs(comps, swapped, plan))
    ensures forall c | c in comps && |c.cells| > 4 ::
      var pivot := ChooseSpecialIndex(c.cells, swapped);
      pivot in PlanBombs(comps, swapped, plan).creates && PlanBombs(comps, swapped, plan).creates[pivot].special == Bomb
    decreases |comps|
  {
    if comps != [] {
      var next := BombStep(comps[0], swapped, plan);
      assert comps[0] in comps;
      BombStepFacts(b, cells, comps[0], swapped, plan);
      assert forall c | c in comps[1..] :: c in comps;
      PlanBombsFacts(b, cells, comps[1..], swapped, next);
      assert forall c | c in comps :: c == comps[0] || c in comps[1..];
    }
  }

  /** Every group lies inside GroupCells. */
  lemma {:induction false} GroupsInside(groups: seq<Group>)
    ensures forall g | g in groups :: Elems(g.cells) <= GroupCells(groups)
    decreases |groups|
  {
    if groups != [] {
      GroupsInside(groups[1..]);
      assert forall g | g in groups :: g == groups[0] || g in groups[1..];
    }
  }

  /**
   * The plan of a pass: every matched cell is removed or becomes a special,
   * not both; every new special has the colour of the token it replaces; the
   * pivot of every group of exactly four gets a special (a rocket, unless a
   * bomb claims the same cell), and the pivot of every component of more than
   * four cells gets a bomb.
   */
  lemma PassPlanFacts(b: Board, swapped: SwappedPair, combo: nat)
    ensures var plan := PassPlan(b, swapped, combo);
      var groups := MatchGroups(b);
      && plan.removals !! plan.creates.Keys
      && plan.removals + plan.creates.Keys == GroupCells(groups)
      && (forall k | k in plan.creates ::
            b[k].Token? && plan.creates[k].color == b[k].color && plan.creates[k].special != Plain)
      && (forall g | g in groups && |g.cells| == 4 :: ChooseSpecialIndex(g.cells, swapped) in plan.creates)
      && (forall c | c in MatchedComponents(b, groups) && |c.cells| > 4 ::
            ChooseSpecialIndex(c.cells, swapped) in plan.creates &&
            plan.creates[ChooseSpecialIndex(c.cells, swapped)].special == Bomb)
  {
    var groups := MatchGroups(b);
    var cells := GroupCells(groups);
    MatchGroupsTokens(b);
    GroupsInside(groups);
    var start := Plan(cells, map[]);
    var rockets := PlanRockets(b, groups, swapped, combo, start);
    PlanRocketsFacts(b, cells, groups, swapped, combo, start);
    var comps := MatchedComponents(b, groups);
    MatchedComponentsFacts(b, groups);
    PlanBombsFacts(b, cells, comps, swapped, rockets);
  }

  /** Group j is the first group of four in `groups` whose pivot is k. */
  predicate FirstPivot(groups: seq<Group>, swapped: SwappedPair, j: int, k: Index)
  {
    && 0 <= j < |groups| && |groups[j].cells| == 4 && ChooseSpecialIndex(groups[j].cells, swapped) == k
    && forall i | 0 <= i < j :: !(|groups[i].cells| == 4 && ChooseSpecialIndex(groups[i].cells, swapped) == k)
  }

  /** Every rocket among `creates` is the rocket of the first group of four among the first n whose pivot is its cell. */
  ghost predicate RocketsFrom(groups: seq<Group>, swapped: SwappedPair, combo: nat, n: nat, creates: map<Index, Create>)
  {
    forall k | k in creates && creates[k].special != Bomb ::
      exists j | FirstPivot(groups, swapped, j, k) && j < n :: creates[k].special == RocketKind(swapped, combo, groups[j])
  }

  /** The pivot of every group of four among the first n has an entry in `creates`. */
  ghost predicate PivotsPlaced(groups: seq<Group>, swapped: SwappedPair, n: nat, creates: map<Index, Create>)
  {
    forall j | 0 <= j < n && j < |groups| && |groups[j].cells| == 4 :: ChooseSpecialIndex(groups[j].cells, swapped) in creates
  }

  /** Group n's turn in the rocket loop: its pivot gets its rocket only when no earlier group of four claimed the cell. */
  lemma RocketKindsStep(b: Board, all: seq<Group>, n: nat, swapped: SwappedPair, combo: nat, plan: Plan, next: Plan)
    requires n < |all| && forall x | x in all[n].cells :: b[x].Token?
    requires next == RocketStep(b, all[n], swapped, combo, plan)
    requires RocketsFrom(all, swapped, combo, n, plan.creates) && PivotsPlaced(all, swapped, n, plan.creates)
    ensures RocketsFrom(all, swapped, combo, n + 1, next.creates) && PivotsPlaced(all, swapped, n + 1, next.creates)
  {
    var g := all[n];
    if |g.cells| == 4 {
      var p := ChooseSpecialIndex(g.cells, swapped);
      if p !in plan.creates {
        assert FirstPivot(all, swapped, n, p);
      }
      forall k | k in next.creates && next.creates[k].special != Bomb
        ensures exists j | FirstPivot(all, swapped, j, k) && j < n + 1 ::
                  next.creates[k].special == RocketKind(swapped, combo, all[j])
      {
        if k == p && p !in plan.creates {
          assert next.creates[k].special == RocketKind(swapped, combo, g);
        } else {
          assert next.creates[k] == plan.creates[k];
        }
      }
    }
  }

  lemma {:induction false} PlanRocketsKinds(b: Board, all: seq<Group>, n: nat, swapped: SwappedPair,
                                            combo: nat, plan: Plan)
    requires n <= |all| && TokenGroups(b, all[n..])
    requires RocketsFrom(all, swapped, combo, n, plan.creates) && PivotsPlaced(all, swapped, n, plan.creates)
    ensures RocketsFrom(all, swapped, combo, |all|, PlanRockets(b, all[n..], swapped, combo, plan).creates)
    decreases |all| - n
  {
    if n < |all| {
      assert all[n..][0] == all[n] && all[n..][1..] == all[n + 1..];
      assert all[n] in all[n..];
      assert forall g | g in all[n + 1..] :: g in all[n..];
      var next := RocketStep(b, all[n], swapped, combo, plan);
      RocketKindsStep(b, all, n, swapped, combo, plan, next);
      PlanRocketsKinds(b, all, n + 1, swapped, combo, next);
    }
  }

  lemma {:induction false} PlanBombsKinds(all: seq<Group>, comps: seq<Component>, swapped: SwappedPair, combo: nat,
                                          plan: Plan)
    requires RocketsFrom(all, swapped, combo, |all|, plan.creates)
    ensures RocketsFrom(all, swapped, combo, |all|, PlanBombs(comps, swapped, plan).creates)
    decreases |comps|
  {
    if comps != [] {
      var next := BombStep(comps[0], swapped, plan);
      forall k | k in next.creates && next.creates[k].special != Bomb
        ensures next.creates[k] == plan.creates[k]
      {
      }
      PlanBombsKinds(all, comps[1..], swapped, combo, next);
    }
  }

  /**
   * Every rocket a pass creates is the rocket of the first group of four, in
   * the order of `findMatchGroups`, whose pivot is its cell (a later group
   * with the same pivot does not change it): along the swap in the first
   * pass of a swap, and along that group otherwise.
   */
  lemma PassRocketKinds(b: Board, swapped: SwappedPair, combo: nat)
    ensures var plan := PassPlan(b, swapped, combo);
      forall k | k in plan.creates && plan.creates[k].special != Bomb ::
        exists j | FirstPivot(MatchGroups(b), swapped, j, k) ::
          plan.creates[k].special == (if swapped.Some? && combo == 1 then
                                        (if IsHorizontalSwap(swapped.value) then RocketH else RocketV)
                                      else if MatchGroups(b)[j].orientation == H then RocketH else RocketV)
  {
    var groups := MatchGroups(b);
    MatchGroupsTokens(b);
    var start := Plan(GroupCells(groups), map[]);
    assert groups[0..] == groups;
    PlanRocketsKinds(b, groups, 0, swapped, combo, start);
    PlanBombsKinds(groups, MatchedComponents(b, groups), swapped, combo, PlanRockets(b, groups, swapped, combo, start));
  }

  // ---------------------------------------------------------------------------
  // The loops of a pass that build the plan
  // ---------------------------------------------------------------------------

  /** The first loop of a pass: every cell of every group goes into `removals`. */
  method CollectRemovals(groups: seq<Group>) returns (removals: set<Index>)
    ensures removals == GroupCells(groups)
  {
    removals := {};
    for g := 0 to |groups|
      invariant removals + GroupCells(groups[g..]) == GroupCells(groups)
    {
      assert groups[g..][0] == groups[g] && groups[g..][1..] == groups[g + 1..];
      var cells := groups[g].cells;
      ghost var before := removals;
      for k := 0 to |cells|
        invariant removals == before + Elems(cells[..k])
      {
        assert cells[..k + 1] == cells[..k] + [cells[k]];
        ElemsAppend(cells[..k], [cells[k]]);
        removals := removals + {cells[k]};
      }
      assert cells[..|cells|] == cells;
    }
  }

  /** The rocket loop of a pass, over the groups in order. */
  method PlaceRockets(b: Board, groups: seq<Group>, swapped: SwappedPair, combo: nat, plan: Plan) returns (plan': Plan)
    requires TokenGroups(b, groups)
    ensures plan' == PlanRockets(b, groups, swapped, combo, plan)
  {
    var removals, creates := plan.removals, plan.creates;
    for g := 0 to |groups|
      invariant TokenGroups(b, groups[g..])
      invariant PlanRockets(b, groups[g..], swapped, combo, Plan(removals, creates)) == PlanRockets(b, groups, swapped, combo, plan)
    {
      assert groups[g..][0] == groups[g] && groups[g..][1..] == groups[g + 1..];
      var group := groups[g];
      if |group.cells| == 4 {
        var pivot := ChooseSpecialIndex(group.cells, swapped);
        removals := removals - {pivot};
        creates := Upsert(creates, pivot, RocketKind(swapped, combo, group), b[pivot].color);
      }
    }
    plan' := Plan(removals, creates);
  }

  /** The bomb loop of a pass, over the components in order. */
  method PlaceBombs(comps: seq<Component>, swapped: SwappedPair, plan: Plan) returns (plan': Plan)
    ensures plan' == PlanBombs(comps, swapped, plan)
  {
    var removals, creates := plan.removals, plan.creates;
    for k := 0 to |comps|
      invariant PlanBombs(comps[k..], swapped, Plan(removals, creates)) == PlanBombs(comps, swapped, plan)
    {
      assert comps[k..][0] == comps[k] && comps[k..][1..] == comps[k + 1..];
      var component := comps[k];
      if |component.cells| > 4 {
        var pivot := ChooseSpecialIndex(component.cells, swapped);
        removals := removals - {pivot};
        creates := Upsert(creates, pivot, Bomb, component.color);
      }
    }
    plan' := Plan(removals, creates);
  }

  // ---------------------------------------------------------------------------
  // applyRemoval, and the cascade of passes
  // ---------------------------------------------------------------------------

  /**
   * The board after `applyRemoval`: the cells of the blast set are emptied,
   * and then every creation places its special token, on an emptied cell or
   * over the token still there.
   */
  function AfterRemoval(b: Board, blast: set<Index>, creates: map<Index, Create>): Board
  {
    seq(CELLS, i requires 0 <= i < CELLS => if i in creates then Made(creates[i]) else if i in blast then Empty else b[i])
  }

  /** The empty cells of a board. */
  function EmptyCells(b: Board): set<Index>
  {
    set i: Index | 0 <= i < CELLS && b[i].Empty?
  }

  /**
   * On a full board, `applyRemoval` empties exactly the blast cells that do
   * not receive a creation, and leaves every other cell a token; cells
   * outside the blast and the creations keep their token.
   */
  lemma RemovalEmpties(b: Board, blast: set<Index>, creates: map<Index, Create>)
    requires Full(b)
    ensures EmptyCells(AfterRemoval(b, blast, creates)) == blast - creates.Keys
    ensures forall i: Index | i !in blast && i !in creates :: AfterRemoval(b, blast, creates)[i] == b[i]
  {
  }

  /** The game state the moves change: the board, the score and how many colours have been drawn. */
  datatype State = State(board: Board, score: int, drawn: nat)

  /**
   * Pass number `combo` of `resolveCascades`: plan, `applyRemoval` (10 points
   * per cleared cell) and `applyGravity`.
   */
  function Pass(s: State, colors: Stream, swapped: SwappedPair, combo: nat): State
  {
    var plan := PassPlan(s.board, swapped, combo);
    Fall(Remove(s, plan.removals, plan.creates), colors)
  }

  /** `applyRemoval(removals, creates)`: the blast set is cleared, the creations placed, 10 points per cleared cell. */
  function Remove(s: State, removals: set<Index>, creates: map<Index, Create>): State
  {
    var blast := BlastSet(s.board, removals);
    State(AfterRemoval(s.board, blast, creates), s.score + 10 * |blast|, s.drawn)
  }

  /** `applyGravity` on the state: one fresh colour drawn per hole. */
  function Fall(s: State, colors: Stream): State
  {
    State(ApplyGravity(s.board, colors, s.drawn), s.score, s.drawn + Draws(s.board))
  }

  /** One pass as a state transformer: state, swapped pair and pass number to the next state. */
  type Step = (State, SwappedPair, nat) -> State

  /** The passes of `resolveCascades`, drawing fresh colours from `colors`. */
  function PassStep(colors: Stream): Step
  {
    (s: State, swapped: SwappedPair, combo: nat) => Pass(s, colors, swapped, combo)
  }

  /** The test that ends the loop of `resolveCascades`: `findMatchGroups` finds nothing. */
  function NoGroups(): Board -> bool
  {
    (b: Board) => Stable(b)
  }

  /**
   * The `while (true)` loop of `resolveCascades`, after `combo` passes, with
   * room for at most `fuel` more: it runs `step` until `done` holds of the
   * board, and gives the final state and the number of passes. Only the
   * first pass sees the swapped pair.
   */
  function Cascade(step: Step, done: Board -> bool, s: State, swapped: SwappedPair, combo: nat, fuel: nat): (State, nat)
    decreases fuel
  {
    if fuel == 0 || done(s.board) then (s, combo)
    else Cascade(step, done, step(s, swapped, combo + 1), None, combo + 1, fuel - 1)
  }

  /** The cascade from s ran as many passes as its fuel allows, so its last board may still hold a group. */
  predicate FuelSpent(s: State, colors: Stream, swapped: SwappedPair, fuel: nat)
  {
    Cascade(PassStep(colors), NoGroups(), s, swapped, 0, fuel).1 == fuel
  }

  /** `resolveCascades(swapped)`: the cascade, and 20 points per pass for a cascade of two passes or more. */
  function Resolve(s: State, colors: Stream, swapped: SwappedPair, fuel: nat): State
  {
    var r := Cascade(PassStep(colors), NoGroups(), s, swapped, 0, fuel);
    if r.1 > 1 then r.0.(score := r.0.score + 20 * r.1) else r.0
  }

  /** A pass leaves no empty cell, never lowers the score and draws exactly one colour per cell it left empty. */
  lemma PassFacts(s: State, colors: Stream, swapped: SwappedPair, combo: nat)
    ensures Full(Pass(s, colors, swapped, combo).board)
    ensures Pass(s, colors, swapped, combo).score == s.score + 10 * |BlastSet(s.board, PassPlan(s.board, swapped, combo).removals)|
    ensures Pass(s, colors, swapped, combo).score >= s.score + 10 * |PassPlan(s.board, swapped, combo).removals|
    ensures Pass(s, colors, swapped, combo).drawn == s.drawn +
      Draws(AfterRemoval(s.board, BlastSet(s.board, PassPlan(s.board, swapped, combo).removals), PassPlan(s.board, swapped, combo).creates))
  {
    var plan := PassPlan(s.board, swapped, combo);
    var blast := BlastSet(s.board, plan.removals);
    GravityFull(AfterRemoval(s.board, blast, plan.creates), colors, s.drawn);
    BlastSetFixedPoint(s.board, plan.removals, {});
    assert |plan.removals| <= |blast| by {
      SubsetCard(plan.removals, blast);
    }
  }

  lemma SubsetCard(a: set<Index>, c: set<Index>)
    requires a <= c
    ensures |a| <= |c|
  {
    assert c == a + (c - a);
  }

  /** The cascade stops only once `done` holds or when its fuel is spent. */
  lemma {:induction false} CascadeStops(step: Step, done: Board -> bool, s: State, swapped: SwappedPair, combo: nat, fuel: nat)
    ensures combo <= Cascade(step, done, s, swapped, combo, fuel).1 <= combo + fuel
    ensures Cascade(step, done, s, swapped, combo, fuel).1 < combo + fuel ==> done(Cascade(step, done, s, swapped, combo, fuel).0.board)
    decreases fuel
  {
    if fuel != 0 && !done(s.board) {
      CascadeStops(step, done, step(s, swapped, combo + 1), None, combo + 1, fuel - 1);
    }
  }

  /** The loop ends once `done` holds or the fuel is spent, with the state and pass count it has. */
  lemma CascadeStop(step: Step, done: Board -> bool, s: State, swapped: SwappedPair, combo: nat, fuel: nat)
    requires fuel == 0 || done(s.board)
    ensures Cascade(step, done, s, swapped, combo, fuel) == (s, combo)
  {
  }

  /**
   * Otherwise it runs one more pass: the loop goes on from the state s' that
   * pass gives, with one pass more (combo') and one unit of fuel less (fuel'),
   * and without the swapped pair.
   */
  lemma CascadeNext(step: Step, done: Board -> bool, s: State, swapped: SwappedPair, combo: nat, fuel: nat,
                    s': State, combo': nat, fuel': nat)
    requires fuel > 0 && !done(s.board)
    requires s' == step(s, swapped, combo + 1) && combo' == combo + 1 && fuel' == fuel - 1
    ensures Cascade(step, done, s, swapped, combo, fuel) == Cascade(step, done, s', None, combo', fuel')
  {
  }

  /** `resolveCascades` ends with the cascade's state, plus the cascade bonus when it ran two passes or more. */
  lemma ResolveEnd(s: State, colors: Stream, swapped: SwappedPair, fuel: nat, t: State, combo: nat)
    requires Cascade(PassStep(colors), NoGroups(), s, swapped, 0, fuel) == (t, combo)
    ensures Resolve(s, colors, swapped, fuel) == if combo > 1 then t.(score := t.score + 20 * combo) else t
  {
    var r := Cascade(PassStep(colors), NoGroups(), s, swapped, 0, fuel);
    assert r.0 == t && r.1 == combo;
  }

  /** A step that never lowers the score nor rewinds the colour stream. */
  ghost predicate Monotone(step: Step)
  {
    forall s, swapped, combo :: step(s, swapped, combo).score >= s.score && step(s, swapped, combo).drawn >= s.drawn
  }

  /** A step that leaves no empty cell. */
  ghost predicate Fills(step: Step)
  {
    forall s, swapped, combo :: Full(step(s, swapped, combo).board)
  }

  /** The passes never lower the score, never rewind the colour stream and leave no empty cell. */
  lemma PassStepFacts(colors: Stream)
    ensures Monotone(PassStep(colors))
    ensures Fills(PassStep(colors))
  {
    forall s, swapped, combo
      ensures PassStep(colors)(s, swapped, combo).score >= s.score
      ensures PassStep(colors)(s, swapped, combo).drawn >= s.drawn
      ensures Full(PassStep(colors)(s, swapped, combo).board)
    {
      PassFacts(s, colors, swapped, combo);
    }
  }

  /** A cascade of monotone passes never lowers the score or rewinds the colour stream. */
  lemma {:induction false} CascadeMonotone(step: Step, done: Board -> bool, s: State, swapped: SwappedPair, combo: nat, fuel: nat)
    requires Monotone(step)
    ensures Cascade(step, done, s, swapped, combo, fuel).0.score >= s.score
    ensures Cascade(step, done, s, swapped, combo, fuel).0.drawn >= s.drawn
    decreases fuel
  {
    if fuel != 0 && !done(s.board) {
      CascadeMonotone(step, done, step(s, swapped, combo + 1), None, combo + 1, fuel - 1);
    }
  }

  /** After at least one pass that fills the board, or from a full board, the cascade leaves no empty cell. */
  lemma {:induction false} CascadeFull(step: Step, done: Board -> bool, s: State, swapped: SwappedPair, combo: nat, fuel: nat)
    requires Fills(step)
    requires Cascade(step, done, s, swapped, combo, fuel).1 > combo || Full(s.board)
    ensures Full(Cascade(step, done, s, swapped, combo, fuel).0.board)
    decreases fuel
  {
    if fuel != 0 && !done(s.board) {
      CascadeFull(step, done, step(s, swapped, combo + 1), None, combo + 1, fuel - 1);
    }
  }

  /** A stable board is left as it is: no pass, no points. */
  lemma ResolveStable(s: State, colors: Stream, swapped: SwappedPair, fuel: nat)
    requires Stable(s.board)
    ensures Resolve(s, colors, swapped, fuel) == s
  {
  }

  /**
   * `resolveCascades` ends on a stable board unless its fuel ran out, never
   * lowers the score, adds the 20-per-pass bonus exactly when there were
   * at least two passes, and leaves a full board full.
   */
  lemma ResolveFacts(s: State, colors: Stream, swapped: SwappedPair, fuel: nat)
    ensures var (t, n) := Cascade(PassStep(colors), NoGroups(), s, swapped, 0, fuel);
      var r := Resolve(s, colors, swapped, fuel);
      && r.board == t.board && r.drawn == t.drawn >= s.drawn
      && r.score == t.score + (if n > 1 then 20 * n else 0)
      && r.score >= s.score
      && (n < fuel ==> Stable(r.board))
      && (Full(s.board) ==> Full(r.board))
  {
    PassStepFacts(colors);
    CascadeStops(PassStep(colors), NoGroups(), s, swapped, 0, fuel);
    CascadeMonotone(PassStep(colors), NoGroups(), s, swapped, 0, fuel);
    if Full(s.board) {
      CascadeFull(PassStep(colors), NoGroups(), s, swapped, 0, fuel);
    }
  }
}
