# Schelling segregation model, in Dafny

This project models the simulation engine of the `Segregationism` application of Evolife.
It is an instance of Schelling's residential-segregation model. Agents of several colours
occupy the cells of a grid. One agent at a time checks whether the share of neighbours of
another colour lies within the tolerated band. An unsatisfied agent may still stay put
through "aging", an inertia that grows with the time since its last move. Otherwise it
tries up to ten random empty cells. The population counts the proposals since the last
actual move and declares the run stable once that streak exceeds ten per agent. A run can
also start from a pattern: a flat, row-major list of colour tokens that seeds the grid with
agents that have no location yet.

The project has six modules:

- `Basics` (`basics.dfy`) holds the `Option`, `Colour` and `Pos` values.
- `Rules` (`rules.dfy`) holds the satisfaction rule, the aging rule and the group percentage as pure functions, with the lemmas about them.
- `Landscape` (`landscape.dfy`) holds the grid as the model sees it. The occupied cells are a `map<Pos, Colour>`. `Modify` is the check-then-place operation. `Statistics` is the free-cell refresh.
- `Agents` (`agent.dfy`) holds the `Agent` class, whose `location`, `satisfied` and `lastMoved` fields the methods update in place: `Locate`, `Satisfaction`, `DecisionToMove`, and the bounded-retry loop `Moves`.
- `Pattern` (`pattern.dfy`) holds the pure side of the starting pattern:
  - normalising the pattern to the grid size;
  - row-major positions;
  - the rank of a token among the tokens of its colour;
  - the occupancy the pattern produces (`Seed`);
  - the locations it gives the agents (`Plan`).
- `Populations` (`population.dfy`) holds the `Population` class: its counters, one simulation tick (`OneDecision`), the seeding (`ApplyStartingPattern`) and per-colour satisfaction.

Every random draw is an input of the model:

- The aging draw `random.randint(0, 100)` is the integer `r`.
- The landscape's successive random empty cells are the sequence `draws`, where `None` means no cell was found.
- The agent picked by `selectIndividual` is the pair of indices `g, k`.
- The neighbourhood counts from `InspectNeighbourhood` are the map `stats`.

The model decides with integer arithmetic. Each integer test is proved equivalent to the exact rational value of the Python expression:

- The tolerance test `100*D/(S+D) > T` becomes `100*D > T*(S+D)`.
- The aging test `r < (1 - 1/(age+2))*100` becomes `r*(age+2) < 100*(age+1)`.

## Model

| member | source | states |
|---|---|---|
| Agents.Agent.constructor | Evolife/Apps/Segregationism/Segregationism.py:93-102 | A new agent has its colour, no location, an unset satisfaction flag and `lastMoved` 0 |
| Agents.Agent.Locate | Evolife/Apps/Segregationism/Segregationism.py:107-119 | Succeeds exactly when the target cell was free. On success the agent stands on the target, the target holds its colour, and its previous cell is emptied when `erase` is set. On failure neither the agent nor the grid changes |
| Landscape.Land.Modify | Evolife/Apps/Segregationism/Segregationism.py:111-115 | The landscape operation `locate` relies on. With `check` set, it refuses an occupied cell and changes nothing. Otherwise it writes the colour, or empties the cell for `None` |
| Landscape.Land.Statistics | Evolife/Apps/Segregationism/Segregationism.py:163 | Refreshes the free-cell list: occupancy is unchanged and the refresh count goes up by one |
| Agents.Agent.Satisfaction | Evolife/Apps/Segregationism/Segregationism.py:127-149 | An unplaced agent stores `satisfied = true` yet reports false. A placed agent stores and reports the verdict `Satisfied`: within the tolerance band, or kept in place by aging |
| Agents.Agent.DecisionToMove | Evolife/Apps/Segregationism/Segregationism.py:124-125 | The agent wants to move exactly when its evaluation reports it unsatisfied; an unplaced agent always wants to move |
| Agents.Lands | Evolife/Apps/Segregationism/Segregationism.py:159-160 | An attempt lands when its draw names a cell that is free. A call past the end of the draws never lands. `FirstLanding` picks the first attempt that lands |
| Agents.FirstLanding | Evolife/Apps/Segregationism/Segregationism.py:158-162 | The attempt chosen is below ten and lands on a free cell, and every earlier attempt fails. `None` means all ten attempts fail |
| Agents.Relocated | Evolife/Apps/Segregationism/Segregationism.py:111-117 | After a successful placement the target holds the agent's colour, the previous cell is empty when erased, other cells keep their colour, and no other cell becomes occupied |
| Agents.Agent.Moves | Evolife/Apps/Segregationism/Segregationism.py:151-165 | With a position: one direct `locate`, and `lastMoved` is kept. Without one: at most ten attempts, and the move succeeds exactly when some draw lands on a free cell. The first such draw is where the agent goes, and `lastMoved` becomes the step. The free-cell list is refreshed exactly once, unless the first attempt succeeds. A failed move changes neither the agent nor the grid |
| Rules.Different | Evolife/Apps/Segregationism/Segregationism.py:133 | The count of different neighbours is at least the count of each admissible colour other than the agent's own |
| Rules.SameAndDifferent | Evolife/Apps/Segregationism/Segregationism.py:132-133 | With distinct colours, same and different neighbours together are all coloured neighbours, each counted once |
| Rules.DifferentWithout | Evolife/Apps/Segregationism/Segregationism.py:133 | When the agent's colour is not among the admissible colours, every coloured neighbour counts as different |
| Rules.Unsatisfied | Evolife/Apps/Segregationism/Segregationism.py:135-138 | The verdict before aging, in integers. An agent with no coloured neighbour is never unsatisfied, and neither is any agent when the band covers [0, 100]. `ThresholdRule` proves it is the strict percentage comparison |
| Rules.ForcedStay | Evolife/Apps/Segregationism/Segregationism.py:142-143 | The aging draw test in integers. Every draw below 50 stays and no draw of 100 or more does, at any age. `ForcedStayExact` proves it is the fractional test |
| Rules.StaysPut | Evolife/Apps/Segregationism/Segregationism.py:140-145 | Aging keeps an agent in place only with the aging flag at 1 and after step 0. Under those conditions every draw below 50 keeps it. `AgingOneWay` places this in the verdict |
| Rules.Satisfied | Evolife/Apps/Segregationism/Segregationism.py:135-145 | A placed agent is satisfied exactly when it has no coloured neighbour, or its share of different neighbours lies within [lower tolerance, tolerance], or aging keeps it in place |
| Rules.ThresholdRule | Evolife/Apps/Segregationism/Segregationism.py:135-138 | The integer test is the percentage rule: unsatisfied exactly when the share of different neighbours is strictly above the tolerance or strictly below the lower tolerance |
| Rules.BoundsAreSatisfied | Evolife/Apps/Segregationism/Segregationism.py:135-138 | When the lower tolerance is at most the tolerance, a share exactly equal to either bound is satisfied, since both comparisons are strict |
| Rules.ThresholdExamples | Evolife/Apps/Segregationism/Segregationism.py:135-138 | With tolerance 50 and aging off, 25% different neighbours is satisfied and 75% is not |
| Rules.AgingOneWay | Evolife/Apps/Segregationism/Segregationism.py:128-145 | No coloured neighbour means satisfied. Aging only turns an unsatisfied verdict into a satisfied one, and only with aging on and after step 0 |
| Rules.StayThreshold | Evolife/Apps/Segregationism/Segregationism.py:143 | The forced-stay threshold `100*(1 - 1/(age+2))` lies in [50, 100) |
| Rules.ForcedStayExact | Evolife/Apps/Segregationism/Segregationism.py:143 | The integer aging test holds exactly when the draw is below the fractional threshold |
| Rules.StayThresholdGrows | Evolife/Apps/Segregationism/Segregationism.py:142-143 | The threshold does not decrease with age |
| Rules.ForcedStayMonotone | Evolife/Apps/Segregationism/Segregationism.py:142-143 | A draw that keeps an agent in place at some age keeps it in place at every greater age |
| Rules.ForcedStayRange | Evolife/Apps/Segregationism/Segregationism.py:143 | At age 0 exactly the draws 0..49 stay, which is 50 of the 101 outcomes of `randint(0, 100)`. Those draws stay at every age, and the draw 100 never stays. At age 1 exactly the draws 0..66 stay, and they stay at every later age |
| Rules.GroupPercent | Evolife/Apps/Segregationism/Segregationism.py:190 | The percentage of set flags (100 for none) lies in [0, 100]. It is 100 exactly when every flag is set, and 0 exactly when the group is non-empty and no flag is set |
| Populations.GroupSatisfaction | Evolife/Apps/Segregationism/Segregationism.py:190 | A group's satisfaction lies in [0, 100]. It is 100 exactly when every member's stored flag is set (so always for an empty group), and 0 exactly when the group is non-empty and no member is satisfied |
| Populations.Population.Satisfaction | Evolife/Apps/Segregationism/Segregationism.py:258 | One entry per group, pairing the group's colour with its satisfaction, which lies in [0, 100] |
| Pattern.Normalise | Evolife/Apps/Segregationism/Segregationism.py:233-235 | The pattern is cut or padded with empty tokens to exactly `width*height` tokens, keeping its prefix |
| Pattern.PositionOf | Evolife/Apps/Segregationism/Segregationism.py:246 | The cell of an index: the column lies within the width, and row times width plus column gives the index back. `RowMajor` and `PositionOfInjective` add that the cell is inside the grid and that distinct indices give distinct cells |
| Pattern.Claims | Evolife/Apps/Segregationism/Segregationism.py:241-250 | A token takes an agent exactly when it names an admissible colour whose queue is not yet used up when the token is reached. This is the negation of the three skips. `SeedContents` and `ClaimsTakeDistinctAgents` give its effect on the grid and on the agents |
| Pattern.RowMajor | Evolife/Apps/Segregationism/Segregationism.py:246 | Every index of the grid names a cell inside the grid, and `y*width + x` gives the index back |
| Pattern.PositionOfInjective | Evolife/Apps/Segregationism/Segregationism.py:246 | Distinct indices name distinct cells |
| Pattern.Taken | Evolife/Apps/Segregationism/Segregationism.py:248-251 | The number of agents of a colour the tokens so far have taken is their count of that colour's tokens, capped by the queue length |
| Pattern.QueuesStep | Evolife/Apps/Segregationism/Segregationism.py:248-251 | Popping the front of a non-empty queue takes the agent whose index is the token's rank, and keeps each queue equal to its original less the taken prefix. Any other token leaves the queues as they are |
| Pattern.Outcome | Evolife/Apps/Segregationism/Segregationism.py:246-253 | A taken agent is placed on the token's cell exactly when that cell was empty; otherwise it stays without a location |
| Pattern.Seed | Evolife/Apps/Segregationism/Segregationism.py:240-253 | The occupancy after the first tokens. Every cell occupied at the start keeps its colour |
| Pattern.SeedAhead | Evolife/Apps/Segregationism/Segregationism.py:240-253 | Seeding never touches the cell of a token not yet reached |
| Pattern.SeedContents | Evolife/Apps/Segregationism/Segregationism.py:240-253 | Seeding keeps every occupied cell and writes each claiming token's colour on its empty cell. Nothing else becomes occupied |
| Pattern.ClaimsTakeDistinctAgents | Evolife/Apps/Segregationism/Segregationism.py:251 | Two different tokens never take the same agent, so each agent is popped at most once |
| Pattern.PlanStarts | Evolife/Apps/Segregationism/Segregationism.py:237-239 | Before any token, the starting locations satisfy the plan |
| Pattern.PlanStep | Evolife/Apps/Segregationism/Segregationism.py:240-253 | Handling one token keeps the plan. A claiming token moves exactly its agent to the token's outcome; any other token changes nothing |
| Pattern.TwoByTwoPattern | Evolife/Apps/Segregationism/Segregationism.py:232-253 | On a 2 by 2 grid, `[red, blue, empty, empty]` puts the red agent on (0, 0) and the blue one on (1, 0). The other two cells stay empty |
| Populations.Unplaced | Evolife/Apps/Segregationism/Segregationism.py:238 | Holds exactly the members without a location, each once when members are distinct |
| Populations.FreeLists | Evolife/Apps/Segregationism/Segregationism.py:237-239 | One queue per admissible colour, holding that colour's group members that have no location |
| Populations.FreeListsEntries | Evolife/Apps/Segregationism/Segregationism.py:237-239 | The queues are keyed by exactly the admissible colours. Each holds population members of its own colour that have no location |
| Populations.FreeListsDistinct | Evolife/Apps/Segregationism/Segregationism.py:237-239 | No agent appears twice, within a queue or across queues |
| Populations.FreeListsQueued | Evolife/Apps/Segregationism/Segregationism.py:237-239 | The queues hold distinct agents without a location |
| Populations.GoesOn | Evolife/Apps/Segregationism/Segregationism.py:282-284 | With a non-empty population, the run goes on exactly when the proposals since the last move, divided by the population size, are at most ten. With an empty population it goes on only while no proposal has been made |
| Populations.PerAgent | Evolife/Apps/Segregationism/Segregationism.py:282 | The integer test `calls <= 10 * size` is the per-agent test `calls / size <= 10` |
| Populations.Population.constructor | Evolife/Apps/Segregationism/Segregationism.py:206-208 | A new population keeps its invariant, with the move, streak and step counters at zero |
| Populations.Population.PlaceUnplaced | Evolife/Apps/Segregationism/Segregationism.py:253 | Placing an agent that has no location succeeds exactly when the cell is free, and keeps the population invariant |
| Populations.Population.SeedingStarts | Evolife/Apps/Segregationism/Segregationism.py:237-239 | Seeding starts from the current queues and locations |
| Populations.Population.SeedingEnds | Evolife/Apps/Segregationism/Segregationism.py:240-253 | After the last token, the grid is the seeded occupancy and every taken agent is at its outcome. Every agent not taken is still unplaced, and every agent placed before is where it was |
| Populations.Population.SeedToken | Evolife/Apps/Segregationism/Segregationism.py:241-253 | One token keeps the seeding invariant over one more token |
| Populations.Population.TakeFront | Evolife/Apps/Segregationism/Segregationism.py:246-253 | Popping and placing the front agent keeps the seeding invariant over one more token |
| Populations.Population.SeedTokens | Evolife/Apps/Segregationism/Segregationism.py:240-253 | After handling every token in order, the seeding invariant holds over all of them |
| Populations.Population.ApplyStartingPattern | Evolife/Apps/Segregationism/Segregationism.py:212-253 | The grid becomes the seeded occupancy of the normalised pattern. The token with rank `k` among tokens of colour `c` takes the `k`-th unplaced member of colour `c`, which ends on its cell if that cell was empty and nowhere otherwise. Members no token takes stay unplaced, and agents already placed keep their location. The population invariant is kept |
| Populations.Population.MoveAgent | Evolife/Apps/Segregationism/Segregationism.py:151-165 | A random move succeeds exactly when some draw lands. It puts the agent on the first such cell, stamped with the current step. The grid becomes the relocated occupancy: the new cell holds the agent's colour, its previous cell is emptied, and no other cell changes. The population invariant is kept. A failed move changes nothing |
| Populations.Population.OneDecision | Evolife/Apps/Segregationism/Segregationism.py:260-284 | The step advances by one, so the picked agent is evaluated at an age of at least 1. The picked agent's stored flag becomes true when it is unplaced and otherwise is its verdict at the new step. An unplaced or unsatisfied agent tries to move. A move increments the move count, resets the streak, and relocates the agent on the grid as `MoveAgent` states. Otherwise the streak grows by one, and the agent's location, its last-move step and the grid are unchanged. No other agent moves. The run goes on exactly when the streak is at most ten per agent |

## Left out

- Scenario parameters and their loading from a configuration file are not modelled. `Params` holds the values, and the neighbourhood radius is unused because the neighbourhood counts are an input.
- A pattern given as a string is not modelled. The source evaluates a string `P=...` with `eval`, falls back to an empty pattern, or converts other iterables with `list` (lines 220-230). The model takes the token list that results.
- The landscape's internals are not modelled: the neighbourhood count, the random empty-cell draw and the free-cell index. They are inputs or the abstract `Land` class.
- Agents.Agent.Locate: emptying the previous cell always succeeds in the model, so the "badly placed" message of line 116 is never reached.
- The observer, display, curves and printed messages are left out. They are I/O, including `display` in `locate` and the curve updates in `One_Decision`.
- The random initial placement of agents is not modelled. Without a starting pattern, `setColour` calls `moves(0)`. The model takes any initial placement that satisfies the population invariant.
- The `locate(None)` branch is not modelled. The source never calls it, and its `display` call would fail on a missing location.
- Float rounding is not modelled. The percentage `100 * Different / (Same + Different)` and the aging threshold `(1 - 1/(age + 2)) * 100` are taken as exact rationals, not IEEE doubles. A comparison whose two sides differ only by rounding could come out differently in Python.
- Positions are not constrained to lie inside the grid. `RowMajor` proves this for pattern positions, and draws are taken as given.
- Populations.Population.OneDecision: assumes the caller supplies counts covering every colour for a placed agent. In the source, the landscape supplies them.
- Everything outside `Segregationism.py` is not part of this model. This covers the Evolife base classes for groups, populations and individuals, the simulation loop, and the `__main__` bootstrap.

## Notes on the source

- The aging draw `random.randint(0, 100)` (line 143) includes 100, so it has 101 outcomes. `One_Decision` advances `SimulationStep` before the agent decides (lines 268-269), and `lastMoved` is at most the previous step. So a tick always evaluates aging at an age of at least 1, and an unsatisfied agent with aging on stays with probability at least 67/101 (draws 0..66). The threshold formula would give 50/101 at age 0, but no tick reaches that case. `ForcedStayRange` and `OneDecision` state these facts.
- The comment on line 252 speaks of calling `locate` with `Erase=False`, but line 253 uses the default `Erase=True`. An agent taken from a queue has no location, so nothing is erased either way.
- An agent without a location stores `satisfied = True` but reports `False` (lines 128-129). Each time it is selected it wants to move. Once it has been evaluated, it counts as satisfied in its group's percentage; before its first evaluation its flag is the `False` set at line 96.
- A token whose cell is already occupied still pops an agent from its queue (lines 251-253). That agent stays without a location.
