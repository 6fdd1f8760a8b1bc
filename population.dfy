/** The population: the agents grouped by colour, the tick counters, one simulation
    tick, the seeding of the grid from a starting pattern, and per-colour satisfaction. */
module Populations {
  import opened Basics
  import opened Rules
  import opened Landscape
  import opened Agents
  import opened Pattern

  /** No proposal streak may exceed this many proposals per agent before the run is stable. */
  const StabilityFactor: nat := 10

  /** The stored satisfaction flags of `members`, in member order. */
  function Flags(members: seq<Agent>): (flags: seq<bool>)
    reads members
    ensures |flags| == |members| && forall i :: 0 <= i < |members| ==> flags[i] == members[i].satisfied
  {
    seq(|members|, i requires 0 <= i < |members| reads members => members[i].satisfied)
  }

  /** Satisfaction of a group: the percentage of its members whose stored flag is set,
      100 for an empty group. */
  function GroupSatisfaction(members: seq<Agent>): (pct: real)
    reads members
    ensures 0.0 <= pct <= 100.0
    ensures pct == 100.0 <==> forall i :: 0 <= i < |members| ==> members[i].satisfied
    ensures pct == 0.0 <==> |members| > 0 && forall i :: 0 <= i < |members| ==> !members[i].satisfied
  {
    GroupPercent(Flags(members))
  }

  /** The members that have no location yet, in member order. */
  function Unplaced(members: seq<Agent>): (r: seq<Agent>)
    reads members
    ensures forall i :: 0 <= i < |r| ==> r[i] in members && r[i].location.None?
    ensures forall a :: a in members && a.location.None? ==> a in r
    ensures (forall i, j :: 0 <= i < j < |members| ==> members[i] != members[j]) ==>
      forall i, j :: 0 <= i < j < |r| ==> r[i] != r[j]
  {
    if members == [] then []
    else if members[0].location.None? then [members[0]] + Unplaced(members[1..])
    else Unplaced(members[1..])
  }

  /** The queues of unplaced members per colour over the first `n` groups: colour
      `colours[g]` is keyed to the members of `groups[g]` without a location. */
  function FreeLists(colours: seq<Colour>, groups: seq<seq<Agent>>, n: nat): (free: map<Colour, seq<Agent>>)
    requires n <= |groups| && Grouping(colours, groups)
    reads Members(groups)
    ensures forall c :: c in free <==> c in colours[..n]
    ensures forall g :: 0 <= g < n ==> free[colours[g]] == Unplaced(groups[g])
  {
    MembersContain(groups);
    if n == 0 then map[]
    else FreeLists(colours, groups, n - 1)[colours[n - 1] := Unplaced(groups[n - 1])]
  }

  /** The location of every agent of `agents`. */
  ghost function Locations(agents: set<Agent>): (locs: map<Agent, Option<Pos>>)
    reads agents
    ensures locs.Keys == agents && forall a :: a in agents ==> locs[a] == a.location
  {
    map a | a in agents :: a.location
  }

  /** Every queued agent has the colour of its queue. */
  ghost predicate Coloured(free: map<Colour, seq<Agent>>)
  {
    forall c, i :: c in free && 0 <= i < |free[c]| ==> free[c][i].colour == c
  }

  /** The queues built from a grouping are keyed by its colours, and hold agents of their
      own colour that are members and have no location. */
  lemma FreeListsEntries(colours: seq<Colour>, groups: seq<seq<Agent>>)
    requires Grouping(colours, groups)
    ensures forall c :: c in FreeLists(colours, groups, |groups|) <==> c in colours
    ensures Coloured(FreeLists(colours, groups, |groups|))
    ensures forall c, i :: c in FreeLists(colours, groups, |groups|) && 0 <= i < |FreeLists(colours, groups, |groups|)[c]| ==>
      FreeLists(colours, groups, |groups|)[c][i] in Members(groups) && FreeLists(colours, groups, |groups|)[c][i].location.None?
  {
    var free := FreeLists(colours, groups, |groups|);
    MembersContain(groups);
    assert colours[..|groups|] == colours;
    forall c, i | c in free && 0 <= i < |free[c]|
      ensures free[c][i] in Members(groups) && free[c][i].location.None? && free[c][i].colour == c
    {
      var g :| 0 <= g < |groups| && colours[g] == c;
      assert free[c][i] in groups[g];
    }
  }

  /** No agent is queued twice, within a queue or across queues. */
  lemma FreeListsDistinct(colours: seq<Colour>, groups: seq<seq<Agent>>)
    requires Grouping(colours, groups)
    ensures Disjoint(FreeLists(colours, groups, |groups|))
  {
    var free: map<Colour, seq<Agent>> := FreeLists(colours, groups, |groups|);
    FreeListsEntries(colours, groups);
    forall c1, i1, c2, i2 |
      c1 in free && c2 in free && 0 <= i1 < |free[c1]| && 0 <= i2 < |free[c2]| && free[c1][i1] == free[c2][i2]
      ensures c1 == c2 && i1 == i2
    {
      assert free[c1][i1].colour == c1 && free[c2][i2].colour == c2;
      assert colours[..|groups|] == colours;
      var g :| 0 <= g < |groups| && colours[g] == c1;
      assert free[c1] == Unplaced(groups[g]);
    }
  }

  /** The queues built from a grouping hold each agent without a location exactly once. */
  lemma FreeListsQueued(colours: seq<Colour>, groups: seq<seq<Agent>>)
    requires Grouping(colours, groups)
    ensures Queues(FreeLists(colours, groups, |groups|), Locations(Members(groups)))
  {
    FreeListsEntries(colours, groups);
    FreeListsDistinct(colours, groups);
  }

  /** The stability test: the run goes on while the streak of proposals without a move
      is at most ten per agent. */
  predicate GoesOn(callsSinceLastMove: nat, popSize: nat)
    ensures popSize > 0 ==>
      (GoesOn(callsSinceLastMove, popSize) <==> callsSinceLastMove as real / popSize as real <= StabilityFactor as real)
    ensures popSize == 0 ==> (GoesOn(callsSinceLastMove, popSize) <==> callsSinceLastMove == 0)
  {
    PerAgent(callsSinceLastMove, popSize);
    callsSinceLastMove <= StabilityFactor * popSize
  }

  /** For a non-empty population, comparing a count against `StabilityFactor` per agent is
      comparing its share per agent with `StabilityFactor`. */
  lemma PerAgent(count: nat, agents: nat)
    ensures agents > 0 ==>
      (count <= StabilityFactor * agents <==> count as real / agents as real <= StabilityFactor as real)
  {
    if agents > 0 {
      var share := count as real / agents as real;
      assert share * agents as real == count as real;
      assert (StabilityFactor * agents) as real == StabilityFactor as real * agents as real;
    }
  }

  /** The grouping fixed for a run: one group per admissible colour, colours distinct,
      each member of its group's colour, no agent listed twice in a group. */
  ghost predicate Grouping(colours: seq<Colour>, groups: seq<seq<Agent>>)
  {
    |groups| == |colours| &&
    (forall g1, g2 :: 0 <= g1 < g2 < |colours| ==> colours[g1] != colours[g2]) &&
    (forall g, a :: 0 <= g < |groups| && a in groups[g] ==> a.colour == colours[g]) &&
    (forall g, i, j :: 0 <= g < |groups| && 0 <= i < j < |groups[g]| ==> groups[g][i] != groups[g][j])
  }

  /** All members of all groups. */
  ghost function Members(groups: seq<seq<Agent>>): set<Agent>
  {
    set g, a | 0 <= g < |groups| && a in groups[g] :: a
  }

  /** Each group's members are members of the population. */
  lemma MembersContain(groups: seq<seq<Agent>>)
    ensures forall g, a :: 0 <= g < |groups| && a in groups[g] ==> a in Members(groups)
  {
    forall g, a | 0 <= g < |groups| && a in groups[g]
      ensures a in Members(groups)
    {
    }
  }

  /** Every placed agent stands on a cell holding its colour, and no two agents share a cell. */
  ghost predicate Placement(agents: set<Agent>, cells: map<Pos, Colour>)
    reads agents
  {
    (forall a :: a in agents && a.location.Some? ==>
      a.location.value in cells && cells[a.location.value] == a.colour) &&
    (forall a, b :: a in agents && b in agents && a != b && a.location.Some? ==> a.location != b.location)
  }

  class Population {
    const params: Params
    const land: Land
    /** `groups[g]` holds the members of colour `params.colours[g]`. */
    const groups: seq<seq<Agent>>
    const popSize: nat
    ghost const agents: set<Agent>
    var simulationStep: nat
    var callsSinceLastMove: nat
    var moves: nat

    ghost predicate WellFormed()
    {
      Grouping(params.colours, groups) && agents == Members(groups) &&
      forall g, k :: 0 <= g < |groups| && 0 <= k < |groups[g]| ==> groups[g][k] in agents
    }

    /** The population invariant: the placement is consistent with the grid and no agent
        moved after the current step. */
    ghost predicate Valid()
      reads this, land, agents
    {
      WellFormed() &&
      (forall a :: a in agents ==> a.lastMoved <= simulationStep) &&
      Placement(agents, land.cells)
    }

    /** A population over the given groups, with every counter at zero. */
    constructor (params: Params, land: Land, groups: seq<seq<Agent>>, popSize: nat)
      requires Grouping(params.colours, groups) && Placement(Members(groups), land.cells)
      requires forall a :: a in Members(groups) ==> a.lastMoved <= 0
      ensures this.params == params && this.land == land && this.groups == groups && this.popSize == popSize
      ensures Valid()
      ensures simulationStep == 0 && callsSinceLastMove == 0 && moves == 0
    {
      this.params := params;
      this.land := land;
      this.groups := groups;
      this.popSize := popSize;
      agents := Members(groups);
      MembersContain(groups);
      simulationStep, callsSinceLastMove, moves := 0, 0, 0;
    }

    /** Satisfaction of every group, paired with its colour. */
    function Satisfaction(): (r: seq<(Colour, real)>)
      requires WellFormed()
      reads agents
      ensures |r| == |groups|
      ensures forall g :: 0 <= g < |groups| ==>
        r[g].0 == params.colours[g] && r[g].1 == GroupSatisfaction(groups[g]) && 0.0 <= r[g].1 <= 100.0
    {
      MembersContain(groups);
      seq(|groups|, g requires 0 <= g < |groups| reads agents => (params.colours[g], GroupSatisfaction(groups[g])))
    }

    /** The queues of unplaced members per colour as they stand now. */
    ghost function FreeNow(): map<Colour, seq<Agent>>
      requires WellFormed()
      reads agents
    {
      FreeLists(params.colours, groups, |groups|)
    }

    /** The pattern as it is laid on this grid: `Width * Height` tokens. */
    function Tokens(pattern: seq<Token>): seq<Token>
    {
      Normalise(pattern, land.width * land.height)
    }

    /** Places an agent without a location on `pos` when that cell is free, keeping the
        population invariant. */
    method PlaceUnplaced(agent: Agent, pos: Pos) returns (placed: bool)
      requires Valid() && agent in agents && agent.location.None?
      modifies land`cells, agent`location
      ensures Valid()
      ensures placed <==> pos !in old(land.cells)
      ensures placed ==> land.cells == old(land.cells)[pos := agent.colour] && agent.location == Some(pos)
      ensures !placed ==> land.cells == old(land.cells) && agent.location == None
    {
      placed := agent.Locate(land, pos, true);
    }

    /** The state of seeding after the first `n` tokens: `free` holds what is left of the
        starting queues `free0`, the grid holds the seeded occupancy, and every agent is
        where the plan from the starting locations `locs0` puts it. */
    ghost predicate Seeding(tokens: seq<Token>, n: nat, free: map<Colour, seq<Agent>>,
                            free0: map<Colour, seq<Agent>>, cells0: map<Pos, Colour>,
                            locs0: map<Agent, Option<Pos>>, locs: map<Agent, Option<Pos>>)
      requires n <= |tokens| && (n == 0 || land.width > 0)
      reads this, land, agents
    {
      Valid() &&
      (forall c :: c in free0 <==> c in params.colours) && Coloured(free0) && Queues(free0, locs0) &&
      locs0.Keys == agents && locs.Keys == agents && (forall a :: a in agents ==> a.location == locs[a]) &&
      QueuesAfter(tokens, n, free, free0) &&
      Plan(tokens, n, free0, cells0, land.width, locs0, locs) &&
      land.cells == Seed(cells0, tokens, free0, land.width, n)
    }

    /** Seeding starts from the queues and locations as they stand. */
    lemma SeedingStarts(tokens: seq<Token>)
      requires Valid()
      ensures Seeding(tokens, 0, FreeNow(), FreeNow(), land.cells, Locations(agents), Locations(agents))
    {
      var free0 := FreeNow();
      assert land.cells == Seed(land.cells, tokens, free0, land.width, 0);
      FreeListsEntries(params.colours, groups);
      FreeListsQueued(params.colours, groups);
      PlanStarts(tokens, free0, land.cells, land.width, Locations(agents));
      assert QueuesAfter(tokens, 0, free0, free0) by {
        forall c | c in free0
          ensures free0[c] == free0[c][Taken(tokens, 0, c, |free0[c]|)..]
        {
        }
      }
    }

    /** Once every token is handled, the plan is where the agents stand. */
    lemma SeedingEnds(tokens: seq<Token>, free: map<Colour, seq<Agent>>,
                      free0: map<Colour, seq<Agent>>, cells0: map<Pos, Colour>,
                      locs0: map<Agent, Option<Pos>>, locs: map<Agent, Option<Pos>>)
      requires |tokens| == 0 || land.width > 0
      requires Seeding(tokens, |tokens|, free, free0, cells0, locs0, locs)
      ensures Valid()
      ensures land.cells == Seed(cells0, tokens, free0, land.width, |tokens|)
      ensures forall j :: 0 <= j < |tokens| && Claims(tokens, free0, j) ==>
        land.width > 0 && free0[tokens[j].value][Rank(tokens, j, tokens[j].value)].location == Outcome(cells0, land.width, j)
      ensures forall c, i :: c in free0 && Taken(tokens, |tokens|, c, |free0[c]|) <= i < |free0[c]| ==>
        free0[c][i].location.None?
      ensures forall a :: a in agents && a in locs0 && locs0[a].Some? ==> a.location == locs0[a]
    {
    }

    /** Handles token `idx` of the pattern: when it names an admissible colour whose queue
        is not empty, the front agent of that queue leaves the queue and is placed on the
        token's cell if that cell is free; any other token changes nothing. */
    method SeedToken(tokens: seq<Token>, idx: nat, free: map<Colour, seq<Agent>>,
                     ghost free0: map<Colour, seq<Agent>>, ghost cells0: map<Pos, Colour>,
                     ghost locs0: map<Agent, Option<Pos>>, ghost locs: map<Agent, Option<Pos>>)
      returns (free': map<Colour, seq<Agent>>, ghost locs': map<Agent, Option<Pos>>)
      requires idx < |tokens| && land.width > 0
      requires Seeding(tokens, idx, free, free0, cells0, locs0, locs)
      modifies land`cells, agents`location
      ensures Seeding(tokens, idx + 1, free', free0, cells0, locs0, locs')
    {
      var token := tokens[idx];
      if token.Some? && token.value in params.colours {
        var lst := if token.value in free then free[token.value] else [];
        if |lst| > 0 {
          free', locs' := TakeFront(tokens, idx, free, free0, cells0, locs0, locs);
          return;
        }
      }
      free', locs' := free, locs;
      QueuesStep(tokens, idx, free, free0);
      PlanStep(tokens, idx, free0, cells0, land.width, locs0, locs);
    }

    /** The front agent of the queue of the colour token `idx` names leaves that queue and
        is placed on the token's cell if that cell is free. */
    method TakeFront(tokens: seq<Token>, idx: nat, free: map<Colour, seq<Agent>>,
                     ghost free0: map<Colour, seq<Agent>>, ghost cells0: map<Pos, Colour>,
                     ghost locs0: map<Agent, Option<Pos>>, ghost locs: map<Agent, Option<Pos>>)
      returns (free': map<Colour, seq<Agent>>, ghost locs': map<Agent, Option<Pos>>)
      requires idx < |tokens| && land.width > 0
      requires Seeding(tokens, idx, free, free0, cells0, locs0, locs)
      requires tokens[idx].Some? && tokens[idx].value in free && |free[tokens[idx].value]| > 0
      modifies land`cells, agents`location
      ensures Seeding(tokens, idx + 1, free', free0, cells0, locs0, locs')
    {
      var colour := tokens[idx].value;
      var pos := PositionOf(idx, land.width);
      var ind := free[colour][0];
      free' := free[colour := free[colour][1..]];
      QueuesStep(tokens, idx, free, free0);
      assert Claims(tokens, free0, idx) && ind == free0[colour][Rank(tokens, idx, colour)];
      PlanStep(tokens, idx, free0, cells0, land.width, locs0, locs);
      SeedAhead(cells0, tokens, free0, land.width, idx, idx);
      var placed := PlaceUnplaced(ind, pos);
      locs' := locs[ind := ind.location];
      assert ind.location == Outcome(cells0, land.width, idx);
    }

    /** Handles the tokens one by one, in order. */
    method SeedTokens(tokens: seq<Token>, free: map<Colour, seq<Agent>>,
                      ghost free0: map<Colour, seq<Agent>>, ghost cells0: map<Pos, Colour>,
                      ghost locs0: map<Agent, Option<Pos>>, ghost locs: map<Agent, Option<Pos>>)
      returns (free': map<Colour, seq<Agent>>, ghost locs': map<Agent, Option<Pos>>)
      requires |tokens| == 0 || land.width > 0
      requires Seeding(tokens, 0, free, free0, cells0, locs0, locs)
      modifies land`cells, agents`location
      ensures Seeding(tokens, |tokens|, free', free0, cells0, locs0, locs')
    {
      free', locs' := free, locs;
      for idx := 0 to |tokens|
        invariant Seeding(tokens, idx, free', free0, cells0, locs0, locs')
      {
        free', locs' := SeedToken(tokens, idx, free', free0, cells0, locs0, locs');
      }
    }

    /** Seeds the grid from a starting pattern, read row-major over the grid after being
        cut or padded to the grid size. Each token naming an admissible colour takes the
        next member of that colour that had no location, in member order, and places it
        on the token's cell; tokens that are empty, name no admissible colour, or whose
        colour has no such member left are skipped. An agent taken for a cell that is
        already occupied stays without a location. */
    method ApplyStartingPattern(pattern: seq<Token>)
      requires Valid()
      modifies land`cells, agents`location
      ensures Valid()
      ensures land.width > 0 ==>
        land.cells == Seed(old(land.cells), Tokens(pattern), old(FreeNow()), land.width, |Tokens(pattern)|)
      ensures land.width == 0 ==> land.cells == old(land.cells)
      ensures forall j :: 0 <= j < |Tokens(pattern)| && Claims(Tokens(pattern), old(FreeNow()), j) ==>
        land.width > 0 &&
        old(FreeNow())[Tokens(pattern)[j].value][Rank(Tokens(pattern), j, Tokens(pattern)[j].value)].location ==
          Outcome(old(land.cells), land.width, j)
      ensures forall c, i ::
        (c in old(FreeNow()) && Taken(Tokens(pattern), |Tokens(pattern)|, c, |old(FreeNow())[c]|) <= i < |old(FreeNow())[c]|) ==>
          old(FreeNow())[c][i].location.None?
      ensures forall a :: a in agents && old(a.location).Some? ==> a.location == old(a.location)
    {
      var tokens := Normalise(pattern, land.width * land.height);
      assert |tokens| > 0 ==> land.width > 0;
      var free := FreeLists(params.colours, groups, |groups|);
      ghost var free0 := FreeNow();
      ghost var cells0 := land.cells;
      ghost var locs0 := Locations(agents);
      ghost var locs := locs0;
      SeedingStarts(tokens);
      free, locs := SeedTokens(tokens, free, free0, cells0, locs0, locs);
      SeedingEnds(tokens, free, free0, cells0, locs0, locs);
    }

    /** Moves an agent to the first free cell among the draws, stamping it with the current
        step, keeping the population invariant. */
    method MoveAgent(agent: Agent, draws: seq<Option<Pos>>) returns (moved: bool)
      requires Valid() && agent in agents
      modifies land`cells, land`refreshes, agent`location, agent`lastMoved
      ensures Valid()
      ensures var landing := FirstLanding(old(land.cells), draws, 0);
        (moved <==> landing.Some?) &&
        (moved ==> (agent.location == Draw(draws, landing.value) && agent.lastMoved == simulationStep &&
                    land.cells == Relocated(old(land.cells), agent.colour, old(agent.location),
                                            Draw(draws, landing.value).value, true))) &&
        (!moved ==> (agent.location == old(agent.location) && agent.lastMoved == old(agent.lastMoved) &&
                     land.cells == old(land.cells)))
    {
      ghost var attempts;
      moved, attempts := agent.Moves(land, simulationStep, None, draws);
    }

    /** One tick: the agent `groups[g][k]` (the one the selection picked) evaluates itself
        at the next step from its neighbourhood counts `stats` and the aging draw `r`, and
        if unsatisfied tries to move using the free-cell draws `draws`. A move counts and
        resets the streak of proposals without a move; anything else lengthens the streak.
        The result says whether the run goes on. */
    method OneDecision(g: nat, k: nat, stats: map<Colour, nat>, r: int, draws: seq<Option<Pos>>)
      returns (goOn: bool)
      requires Valid()
      requires g < |groups| && k < |groups[g]|
      requires groups[g][k].location.Some? ==> Covers(stats, params.colours)
      modifies this, land, groups[g][k]
      ensures Valid()
      ensures simulationStep == old(simulationStep) + 1
      ensures old(groups[g][k].lastMoved) < simulationStep
      ensures var agent := groups[g][k];
        var decided := old(agent.location).None? ||
          !Satisfied(params, stats[agent.colour], Different(stats, params.colours, agent.colour),
                     simulationStep, old(agent.lastMoved), r);
        var landing := FirstLanding(old(land.cells), draws, 0);
        var moved := decided && landing.Some?;
        (agent.satisfied <==>
           (old(agent.location).None? ||
            Satisfied(params, stats[agent.colour], Different(stats, params.colours, agent.colour),
                      simulationStep, old(agent.lastMoved), r))) &&
        (moved ==> (moves == old(moves) + 1 && callsSinceLastMove == 0 &&
                    agent.location == Draw(draws, landing.value) && agent.lastMoved == simulationStep &&
                    land.cells == Relocated(old(land.cells), agent.colour, old(agent.location),
                                            Draw(draws, landing.value).value, true))) &&
        (!moved ==> (moves == old(moves) && callsSinceLastMove == old(callsSinceLastMove) + 1 &&
                     agent.location == old(agent.location) && agent.lastMoved == old(agent.lastMoved) &&
                     land.cells == old(land.cells)))
      ensures goOn <==> GoesOn(callsSinceLastMove, popSize)
      ensures forall a :: a in agents && a != groups[g][k] ==> a.location == old(a.location)
    {
      var agent := groups[g][k];
      callsSinceLastMove := callsSinceLastMove + 1;
      simulationStep := simulationStep + 1;
      var decided := agent.DecisionToMove(params, stats, simulationStep, r);
      if decided {
        var moved := MoveAgent(agent, draws);
        if moved {
          moves := moves + 1;
          callsSinceLastMove := 0;
        }
      }
      goOn := GoesOn(callsSinceLastMove, popSize);
    }
  }
}
