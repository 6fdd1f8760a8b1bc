/** The pure side of seeding the grid from a starting pattern: reconciling the token
    list with the grid size, the row-major index-to-cell mapping, the rank of a token
    among the tokens of its colour, and the occupancy that results. */
module Pattern {
  import opened Basics

  /** A pattern token: a colour, or `None` for a cell left empty. */
  type Token = Option<Colour>

  /** The pattern truncated to `total` tokens, or padded with `None` up to `total`. */
  function Normalise(pattern: seq<Token>, total: nat): (r: seq<Token>)
    ensures |r| == total
    ensures forall i :: 0 <= i < total ==> r[i] == (if i < |pattern| then pattern[i] else None)
  {
    var keep := if |pattern| < total then |pattern| else total;
    var pad := if total > |pattern| then total - |pattern| else 0;
    pattern[..keep] + seq(pad, _ => None)
  }

  /** Cell of grid index `idx` in row-major order: column `idx % width`, row `idx / width`.
      The column lies within the width, and row times width plus column is the index. */
  function PositionOf(idx: nat, width: nat): (p: Pos)
    requires width > 0
    ensures 0 <= p.x < width && 0 <= p.y && p.y * width + p.x == idx
  {
    Pos(idx % width, idx / width)
  }

  /** Every index of a `width` by `height` grid names a cell inside it, and the cell
      gives the index back as `y * width + x`. */
  lemma RowMajor(idx: nat, width: nat, height: nat)
    requires idx < width * height
    ensures width > 0
    ensures 0 <= PositionOf(idx, width).x < width && 0 <= PositionOf(idx, width).y < height
    ensures PositionOf(idx, width).y * width + PositionOf(idx, width).x == idx
  {
    assert width > 0;
    var p := PositionOf(idx, width);
    assert p.y * width + p.x == idx;
    assert p.y < height by {
      assert idx / width < height;
    }
  }

  /** Distinct indices name distinct cells. */
  lemma PositionOfInjective(i: nat, j: nat, width: nat)
    requires width > 0 && i != j
    ensures PositionOf(i, width) != PositionOf(j, width)
  {
    assert (i / width) * width + i % width == i;
    assert (j / width) * width + j % width == j;
  }

  /** Number of `Some(c)` tokens among the first `n`. */
  function Rank(tokens: seq<Token>, n: nat, c: Colour): (k: nat)
    requires n <= |tokens|
    ensures k <= n
  {
    if n == 0 then 0 else Rank(tokens, n - 1, c) + (if tokens[n - 1] == Some(c) then 1 else 0)
  }

  /** How many agents of colour `c`, from a queue of `queueLen`, the first `n` tokens
      have taken: one per `Some(c)` token until the queue runs out. */
  function Taken(tokens: seq<Token>, n: nat, c: Colour, queueLen: nat): (t: nat)
    requires n <= |tokens|
    ensures t <= queueLen && t <= Rank(tokens, n, c)
    ensures t == queueLen || t == Rank(tokens, n, c)
  {
    if Rank(tokens, n, c) < queueLen then Rank(tokens, n, c) else queueLen
  }

  /** After a token, the count taken of its colour grows by one while the queue lasts;
      every other count stays. */
  lemma TakenStep(tokens: seq<Token>, n: nat, c: Colour, queueLen: nat)
    requires n < |tokens|
    ensures Taken(tokens, n + 1, c, queueLen) ==
      if tokens[n] == Some(c) && Taken(tokens, n, c, queueLen) < queueLen
      then Taken(tokens, n, c, queueLen) + 1 else Taken(tokens, n, c, queueLen)
  {
  }

  /** The per-colour queues `free` after the first `n` tokens: each colour's original
      queue in `free0` less the members the tokens so far have taken from its front. */
  ghost predicate QueuesAfter<A>(tokens: seq<Token>, n: nat, free: map<Colour, seq<A>>, free0: map<Colour, seq<A>>)
    requires n <= |tokens|
  {
    free.Keys == free0.Keys &&
    forall c :: c in free0 ==> free[c] == free0[c][Taken(tokens, n, c, |free0[c]|)..]
  }

  /** Handling token `n` by popping the front of its colour's queue, when that colour has
      a non-empty queue, gives the queues after `n + 1` tokens. */
  lemma QueuesStep<A>(tokens: seq<Token>, n: nat, free: map<Colour, seq<A>>, free0: map<Colour, seq<A>>)
    requires n < |tokens| && QueuesAfter(tokens, n, free, free0)
    ensures tokens[n].Some? && tokens[n].value in free && |free[tokens[n].value]| > 0 ==>
      free0[tokens[n].value][Taken(tokens, n, tokens[n].value, |free0[tokens[n].value]|)] == free[tokens[n].value][0] &&
      Taken(tokens, n, tokens[n].value, |free0[tokens[n].value]|) == Rank(tokens, n, tokens[n].value) &&
      QueuesAfter(tokens, n + 1, free[tokens[n].value := free[tokens[n].value][1..]], free0)
    ensures !(tokens[n].Some? && tokens[n].value in free && |free[tokens[n].value]| > 0) ==>
      QueuesAfter(tokens, n + 1, free, free0)
  {
    forall c | c in free0
      ensures Taken(tokens, n + 1, c, |free0[c]|) ==
        if tokens[n] == Some(c) && Taken(tokens, n, c, |free0[c]|) < |free0[c]|
        then Taken(tokens, n, c, |free0[c]|) + 1 else Taken(tokens, n, c, |free0[c]|)
    {
      TakenStep(tokens, n, c, |free0[c]|);
    }
  }

  /** Two tokens of one colour have different ranks: a later one ranks strictly higher. */
  lemma {:induction false} RankIncreases(tokens: seq<Token>, i: nat, j: nat, c: Colour)
    requires i < j <= |tokens| && tokens[i] == Some(c)
    ensures Rank(tokens, i, c) < Rank(tokens, j, c)
  {
    if j > i + 1 {
      RankIncreases(tokens, i, j - 1, c);
    }
  }

  /** The token at `j` takes an agent: it names a colour with a queue in `free0` (the
      queues of agents without a location, one per admissible colour) that is not yet
      exhausted at this point. */
  predicate Claims<A>(tokens: seq<Token>, free0: map<Colour, seq<A>>, j: nat)
    requires j < |tokens|
    ensures Claims(tokens, free0, j) <==>
      tokens[j].Some? && tokens[j].value in free0 &&
      Taken(tokens, j, tokens[j].value, |free0[tokens[j].value]|) < |free0[tokens[j].value]|
  {
    tokens[j].Some? && tokens[j].value in free0 &&
    Rank(tokens, j, tokens[j].value) < |free0[tokens[j].value]|
  }

  /** Where the agent taken by token `j` ends up: on the token's cell when that cell was
      empty in `cells0`, nowhere otherwise. */
  function Outcome(cells0: map<Pos, Colour>, width: nat, j: nat): (loc: Option<Pos>)
    requires width > 0
    ensures loc.Some? <==> PositionOf(j, width) !in cells0
    ensures loc.Some? ==> loc.value == PositionOf(j, width)
  {
    if PositionOf(j, width) in cells0 then None else Some(PositionOf(j, width))
  }

  /** Occupancy after the first `n` tokens: each claiming token whose cell was empty in
      `cells0` puts its colour there. Cells occupied at the start keep their colour. */
  function Seed<A>(cells0: map<Pos, Colour>, tokens: seq<Token>, free0: map<Colour, seq<A>>,
                   width: nat, n: nat): (m: map<Pos, Colour>)
    requires n <= |tokens| && (n == 0 || width > 0)
    ensures forall p :: p in cells0 ==> p in m && m[p] == cells0[p]
  {
    if n == 0 then cells0
    else
      var m := Seed(cells0, tokens, free0, width, n - 1);
      if Claims(tokens, free0, n - 1) && PositionOf(n - 1, width) !in cells0
      then m[PositionOf(n - 1, width) := tokens[n - 1].value]
      else m
  }

  /** A cell of an index not yet reached is as it was in `cells0`. */
  lemma {:induction false} SeedAhead<A>(cells0: map<Pos, Colour>, tokens: seq<Token>, free0: map<Colour, seq<A>>,
                                        width: nat, n: nat, m: nat)
    requires width > 0 && n <= m && n <= |tokens|
    ensures PositionOf(m, width) in Seed(cells0, tokens, free0, width, n) <==> PositionOf(m, width) in cells0
    ensures PositionOf(m, width) in cells0 ==>
      Seed(cells0, tokens, free0, width, n)[PositionOf(m, width)] == cells0[PositionOf(m, width)]
  {
    if n > 0 {
      SeedAhead(cells0, tokens, free0, width, n - 1, m);
      PositionOfInjective(n - 1, m, width);
    }
  }

  /** Seeding keeps every occupied cell as it was, gives each claiming token on an empty
      cell its colour, and occupies nothing else. */
  lemma {:induction false} SeedContents<A>(cells0: map<Pos, Colour>, tokens: seq<Token>, free0: map<Colour, seq<A>>,
                                           width: nat, n: nat)
    requires width > 0 && n <= |tokens|
    ensures forall p :: p in cells0 ==>
      p in Seed(cells0, tokens, free0, width, n) && Seed(cells0, tokens, free0, width, n)[p] == cells0[p]
    ensures forall j :: 0 <= j < n && Claims(tokens, free0, j) && PositionOf(j, width) !in cells0 ==>
      PositionOf(j, width) in Seed(cells0, tokens, free0, width, n) &&
      Seed(cells0, tokens, free0, width, n)[PositionOf(j, width)] == tokens[j].value
    ensures forall p :: p in Seed(cells0, tokens, free0, width, n) && p !in cells0 ==>
      exists j :: 0 <= j < n && Claims(tokens, free0, j) && PositionOf(j, width) == p
  {
    if n > 0 {
      SeedContents(cells0, tokens, free0, width, n - 1);
      forall j | 0 <= j < n - 1 && Claims(tokens, free0, j) && PositionOf(j, width) !in cells0
        ensures PositionOf(j, width) != PositionOf(n - 1, width)
      {
        PositionOfInjective(j, n - 1, width);
      }
    }
  }

  /** No agent is queued twice, within a queue or across queues. */
  ghost predicate Disjoint<A>(free0: map<Colour, seq<A>>)
  {
    forall c1, i1, c2, i2 ::
      c1 in free0 && c2 in free0 && 0 <= i1 < |free0[c1]| && 0 <= i2 < |free0[c2]| && free0[c1][i1] == free0[c2][i2] ==>
        c1 == c2 && i1 == i2
  }

  /** The queues hold agents without a location in `locs0`, and no agent is queued twice. */
  ghost predicate Queues<A>(free0: map<Colour, seq<A>>, locs0: map<A, Option<Pos>>)
  {
    (forall c, i :: c in free0 && 0 <= i < |free0[c]| ==> free0[c][i] in locs0 && locs0[free0[c][i]].None?) &&
    Disjoint(free0)
  }

  /** Two different claiming tokens take two different agents: no agent is popped twice. */
  lemma ClaimsTakeDistinctAgents<A>(tokens: seq<Token>, free0: map<Colour, seq<A>>, j1: nat, j2: nat)
    requires j1 < j2 < |tokens| && Disjoint(free0)
    requires Claims(tokens, free0, j1) && Claims(tokens, free0, j2)
    ensures free0[tokens[j1].value][Rank(tokens, j1, tokens[j1].value)] !=
            free0[tokens[j2].value][Rank(tokens, j2, tokens[j2].value)]
  {
    if tokens[j1].value == tokens[j2].value {
      RankIncreases(tokens, j1, j2, tokens[j1].value);
    }
  }

  /** The locations `locs` after the first `n` tokens, starting from `locs0`: the agent
      each claiming token took is at that token's outcome, the agents no token has taken
      yet are still without a location, and every agent located at the start is where it was. */
  ghost predicate Plan<A>(tokens: seq<Token>, n: nat, free0: map<Colour, seq<A>>, cells0: map<Pos, Colour>,
                          width: nat, locs0: map<A, Option<Pos>>, locs: map<A, Option<Pos>>)
    requires n <= |tokens| && (n == 0 || width > 0)
  {
    locs.Keys == locs0.Keys &&
    (forall j :: 0 <= j < n && Claims(tokens, free0, j) ==>
      free0[tokens[j].value][Rank(tokens, j, tokens[j].value)] in locs &&
      locs[free0[tokens[j].value][Rank(tokens, j, tokens[j].value)]] == Outcome(cells0, width, j)) &&
    (forall c, i :: c in free0 && Taken(tokens, n, c, |free0[c]|) <= i < |free0[c]| ==>
      free0[c][i] in locs && locs[free0[c][i]].None?) &&
    (forall a :: a in locs0 && locs0[a].Some? ==> locs[a] == locs0[a])
  }

  /** Before any token, the plan holds of the starting locations. */
  lemma PlanStarts<A>(tokens: seq<Token>, free0: map<Colour, seq<A>>, cells0: map<Pos, Colour>,
                      width: nat, locs0: map<A, Option<Pos>>)
    requires Queues(free0, locs0)
    ensures Plan(tokens, 0, free0, cells0, width, locs0, locs0)
  {
  }

  /** Handling token `n` keeps the plan: a claiming token moves its agent to the token's
      outcome, any other token changes nothing. */
  lemma PlanStep<A>(tokens: seq<Token>, n: nat, free0: map<Colour, seq<A>>, cells0: map<Pos, Colour>,
                    width: nat, locs0: map<A, Option<Pos>>, locs: map<A, Option<Pos>>)
    requires n < |tokens| && width > 0
    requires Queues(free0, locs0) && Plan(tokens, n, free0, cells0, width, locs0, locs)
    ensures Claims(tokens, free0, n) ==>
      Plan(tokens, n + 1, free0, cells0, width, locs0,
           locs[free0[tokens[n].value][Rank(tokens, n, tokens[n].value)] := Outcome(cells0, width, n)])
    ensures !Claims(tokens, free0, n) ==> Plan(tokens, n + 1, free0, cells0, width, locs0, locs)
  {
    forall c | c in free0
      ensures Taken(tokens, n + 1, c, |free0[c]|) ==
        if tokens[n] == Some(c) && Taken(tokens, n, c, |free0[c]|) < |free0[c]|
        then Taken(tokens, n, c, |free0[c]|) + 1 else Taken(tokens, n, c, |free0[c]|)
    {
      TakenStep(tokens, n, c, |free0[c]|);
    }
    if Claims(tokens, free0, n) {
      var c := tokens[n].value;
      var k := Rank(tokens, n, c);
      var a := free0[c][k];
      var locs' := locs[a := Outcome(cells0, width, n)];
      forall j | 0 <= j < n && Claims(tokens, free0, j)
        ensures free0[tokens[j].value][Rank(tokens, j, tokens[j].value)] != a
      {
        if tokens[j].value == c {
          RankIncreases(tokens, j, n, c);
        }
      }
      assert Taken(tokens, n, c, |free0[c]|) == k;
      assert Plan(tokens, n + 1, free0, cells0, width, locs0, locs');
    }
  }

  /** A 2 by 2 grid, the pattern `[red, blue, empty, empty]` and one unplaced agent of each
      colour on an empty grid: the red agent lands on (0, 0), the blue one on (1, 0), and
      (0, 1) and (1, 1) stay empty. */
  lemma TwoByTwoPattern()
    ensures var red, blue := Named("red"), Named("blue");
      var tokens := Normalise([Some(red), Some(blue), None, None], 2 * 2);
      var free0 := map[red := [1], blue := [2]];
      var locs0: map<int, Option<Pos>> := map[1 := None, 2 := None];
      Seed(map[], tokens, free0, 2, 4) == map[Pos(0, 0) := red, Pos(1, 0) := blue] &&
      Plan(tokens, 4, free0, map[], 2, locs0, map[1 := Some(Pos(0, 0)), 2 := Some(Pos(1, 0))])
  {
    var red, blue := Named("red"), Named("blue");
    var tokens := Normalise([Some(red), Some(blue), None, None], 2 * 2);
    var free0 := map[red := [1], blue := [2]];
    assert tokens == [Some(red), Some(blue), None, None];
    assert red != blue by {
      assert red.name[0] != blue.name[0];
    }
    assert Rank(tokens, 1, red) == 1 && Rank(tokens, 1, blue) == 0;
    assert Rank(tokens, 2, red) == 1 && Rank(tokens, 2, blue) == 1;
    assert Rank(tokens, 3, red) == 1 && Rank(tokens, 3, blue) == 1;
    assert Rank(tokens, 4, red) == 1 && Rank(tokens, 4, blue) == 1;
    assert PositionOf(0, 2) == Pos(0, 0) && PositionOf(1, 2) == Pos(1, 0);
    assert Claims(tokens, free0, 0) && Claims(tokens, free0, 1);
    assert !Claims(tokens, free0, 2) && !Claims(tokens, free0, 3);
    assert Seed(map[], tokens, free0, 2, 1) == map[Pos(0, 0) := red];
    assert Seed(map[], tokens, free0, 2, 2) == map[Pos(0, 0) := red, Pos(1, 0) := blue];
    assert Taken(tokens, 4, red, 1) == 1 && Taken(tokens, 4, blue, 1) == 1;
  }
}
