/** An agent of the segregation model: its colour, where it stands, whether it was
    satisfied at its last evaluation, and the step at which it last moved. */
module Agents {
  import opened Basics
  import opened Rules
  import opened Landscape

  /** Bound on the random relocation attempts of one move. */
  const MaxAttempts: nat := 10

  /** Answer of the `i`-th call to the landscape's random empty-cell draw; calls past the
      end of the oracle find no cell. */
  function Draw(draws: seq<Option<Pos>>, i: nat): Option<Pos>
  {
    if i < |draws| then draws[i] else None
  }

  /** The `i`-th draw names a cell that is free in `cells`; a call past the end of the
      oracle never lands. */
  predicate Lands(cells: map<Pos, Colour>, draws: seq<Option<Pos>>, i: nat)
    ensures Lands(cells, draws, i) ==> i < |draws| && draws[i].Some? && draws[i].value !in cells
  {
    Draw(draws, i).Some? && Draw(draws, i).value !in cells
  }

  /** The first attempt, from `from` on and below `MaxAttempts`, whose draw lands on a
      free cell, or `None` when every remaining attempt fails. */
  function FirstLanding(cells: map<Pos, Colour>, draws: seq<Option<Pos>>, from: nat): (k: Option<nat>)
    requires from <= MaxAttempts
    ensures k.Some? ==> from <= k.value < MaxAttempts && Lands(cells, draws, k.value)
    ensures forall i :: from <= i < MaxAttempts && (k.None? || i < k.value) ==> !Lands(cells, draws, i)
    decreases MaxAttempts - from
  {
    if from == MaxAttempts then None
    else if Lands(cells, draws, from) then Some(from)
    else FirstLanding(cells, draws, from + 1)
  }

  /** Occupancy after an agent of colour `colour` standing at `previous` is placed on the
      free cell `target`: the target holds its colour and, when `erase` is set, the
      previous cell is emptied. */
  function Relocated(cells: map<Pos, Colour>, colour: Colour, previous: Option<Pos>, target: Pos, erase: bool): (r: map<Pos, Colour>)
    requires target !in cells
    ensures previous != Some(target) ==> target in r && r[target] == colour
    ensures erase && previous.Some? ==> previous.value !in r
    ensures forall p :: p in cells && p != target && (!erase || previous != Some(p)) ==> p in r && r[p] == cells[p]
    ensures forall p :: p in r ==> p in cells || p == target
  {
    var placed := cells[target := colour];
    if erase && previous.Some? then placed - {previous.value} else placed
  }

  class Agent {
    const colour: Colour
    var location: Option<Pos>
    var satisfied: bool
    var lastMoved: int

    constructor (colour: Colour)
      ensures this.colour == colour
      ensures location == None && !satisfied && lastMoved == 0
    {
      this.colour := colour;
      location := None;
      satisfied := false;
      lastMoved := 0;
    }

    /** Places the agent on `newPosition` if that cell is free, then empties its previous
        cell when `erase` is set. An occupied target changes nothing. */
    method Locate(land: Land, newPosition: Pos, erase: bool) returns (ok: bool)
      modifies this`location, land`cells
      ensures ok <==> newPosition !in old(land.cells)
      ensures ok ==> (location == Some(newPosition) &&
                      land.cells == Relocated(old(land.cells), colour, old(location), newPosition, erase))
      ensures !ok ==> location == old(location) && land.cells == old(land.cells)
    {
      ok := land.Modify(newPosition, Some(colour), true);
      if !ok {
        return;
      }
      if erase && location.Some? {
        var erased := land.Modify(location.value, None, false);
      }
      location := Some(newPosition);
    }

    /** Evaluates the agent at `step` from the colour counts `stats` of its neighbourhood
        and the aging draw `r`, and stores the verdict. An unplaced agent stores `true`
        but reports `false`. */
    method Satisfaction(p: Params, stats: map<Colour, nat>, step: int, r: int) returns (s: bool)
      requires location.Some? ==> Covers(stats, p.colours) && colour in stats
      requires lastMoved <= step
      modifies this`satisfied
      ensures location.None? ==> satisfied && !s
      ensures location.Some? ==> (s == satisfied &&
        (s <==> Satisfied(p, stats[colour], Different(stats, p.colours, colour), step, lastMoved, r)))
    {
      satisfied := true;
      if location.None? {
        return false;
      }
      var same := stats[colour];
      var different := Different(stats, p.colours, colour);
      if same + different > 0 &&
         (100 * different > p.tolerance * (same + different) ||
          100 * different < p.lowerTolerance * (same + different)) {
        satisfied := false;
      }
      if !satisfied {
        var age := step - lastMoved;
        if p.aging == 1 && step != 0 && r * (age + 2) < 100 * (age + 1) {
          satisfied := true;
        }
      }
      s := satisfied;
    }

    /** The agent wants to move exactly when its evaluation reports it unsatisfied. */
    method DecisionToMove(p: Params, stats: map<Colour, nat>, step: int, r: int) returns (move: bool)
      requires location.Some? ==> Covers(stats, p.colours) && colour in stats
      requires lastMoved <= step
      modifies this`satisfied
      ensures location.None? ==> satisfied && move
      ensures location.Some? ==> (move == !satisfied &&
        (move <==> !Satisfied(p, stats[colour], Different(stats, p.colours, colour), step, lastMoved, r)))
    {
      var s := Satisfaction(p, stats, step, r);
      move := !s;
    }

    /** Moves the agent. With an explicit `position` it makes one direct attempt and leaves
        `lastMoved` alone. Otherwise it tries the landscape's random free cells `draws` at
        most `MaxAttempts` times, refreshing the free-cell list once after a failed first
        attempt; the first draw that lands moves the agent and records `step` as its last
        move. A failed move changes nothing but the refresh count. */
    method Moves(land: Land, step: int, position: Option<Pos>, draws: seq<Option<Pos>>)
      returns (moved: bool, ghost attempts: nat)
      modifies this`location, this`lastMoved, land`cells, land`refreshes
      ensures attempts <= MaxAttempts
      ensures !moved ==> location == old(location) && lastMoved == old(lastMoved) && land.cells == old(land.cells)
      ensures position.Some? ==>
        attempts == 1 && lastMoved == old(lastMoved) && land.refreshes == old(land.refreshes) &&
        (moved <==> position.value !in old(land.cells)) &&
        (moved ==> (location == position &&
                    land.cells == Relocated(old(land.cells), colour, old(location), position.value, true)))
      ensures position.None? ==>
        var k := FirstLanding(old(land.cells), draws, 0);
        (moved <==> k.Some?) &&
        attempts == (if moved then k.value + 1 else MaxAttempts) &&
        land.refreshes == old(land.refreshes) + (if k == Some(0) then 0 else 1) &&
        (moved ==> (location == Draw(draws, k.value) && lastMoved == step &&
                    land.cells == Relocated(old(land.cells), colour, old(location), Draw(draws, k.value).value, true)))
    {
      if position.Some? {
        moved := Locate(land, position.value, true);
        attempts := 1;
        return;
      }
      var ii := 0;
      while ii < MaxAttempts
        invariant 0 <= ii <= MaxAttempts
        invariant land.cells == old(land.cells) && location == old(location) && lastMoved == old(lastMoved)
        invariant forall i :: 0 <= i < ii ==> !Lands(old(land.cells), draws, i)
        invariant land.refreshes == old(land.refreshes) + (if ii == 0 then 0 else 1)
      {
        var landing := Draw(draws, ii);
        if landing.Some? {
          var ok := Locate(land, landing.value, true);
          if ok {
            lastMoved := step;
            moved, attempts := true, ii + 1;
            return;
          }
        }
        if ii == 0 {
          land.Statistics();
        }
        ii := ii + 1;
      }
      moved, attempts := false, MaxAttempts;
    }
  }
}
