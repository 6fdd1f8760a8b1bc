/** The occupancy grid the agents live on, reduced to the interface the model uses:
    a map from occupied cells to the colour they hold, the check-then-place `Modify`,
    and the free-cell refresh `Statistics`, which has no effect on occupancy. */
module Landscape {
  import opened Basics

  class Land {
    const width: nat
    const height: nat
    /** Occupied cells and their colour; a cell that is not a key is empty. */
    var cells: map<Pos, Colour>
    /** How many times the free-cell list has been recomputed. */
    ghost var refreshes: nat

    constructor (width: nat, height: nat)
      ensures this.width == width && this.height == height
      ensures cells == map[] && refreshes == 0
    {
      this.width := width;
      this.height := height;
      cells := map[];
      refreshes := 0;
    }

    /** Puts `content` in the cell at `pos` (`None` empties it). With `check` set, an
        occupied cell is refused and nothing changes. */
    method Modify(pos: Pos, content: Option<Colour>, check: bool) returns (ok: bool)
      modifies this`cells
      ensures ok <==> !check || pos !in old(cells)
      ensures !ok ==> cells == old(cells)
      ensures ok && content.Some? ==> cells == old(cells)[pos := content.value]
      ensures ok && content.None? ==> cells == old(cells) - {pos}
    {
      if check && pos in cells {
        return false;
      }
      match content {
        case Some(c) => cells := cells[pos := c];
        case None => cells := cells - {pos};
      }
      ok := true;
    }

    /** Recomputes the list of free cells; occupancy is unchanged. */
    method Statistics()
      modifies this`refreshes
      ensures refreshes == old(refreshes) + 1
    {
      refreshes := refreshes + 1;
    }
  }
}
