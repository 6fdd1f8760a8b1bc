/** The decision rules of the segregation model as pure functions: when an agent is
    satisfied with its neighbourhood, when aging keeps an unsatisfied agent in place,
    and the satisfaction percentage of a group. */
module Rules {
  import opened Basics

  /** Run parameters shared by every agent: the admissible colours in order, the upper
      and lower tolerance (percentages of different neighbours) and the aging flag. */
  datatype Params = Params(colours: seq<Colour>, tolerance: int, lowerTolerance: int, aging: int)

  /** The neighbourhood counts hold an entry for every admissible colour. */
  predicate Covers(stats: map<Colour, nat>, colours: seq<Colour>)
  {
    forall c :: c in colours ==> c in stats
  }

  /** Number of neighbours of an admissible colour other than `own`: at least the count
      of each such colour. */
  function Different(stats: map<Colour, nat>, colours: seq<Colour>, own: Colour): (d: nat)
    requires Covers(stats, colours)
    ensures forall c :: c in colours && c != own ==> stats[c] <= d
  {
    if colours == [] then 0
    else (if colours[0] != own then stats[colours[0]] else 0) + Different(stats, colours[1..], own)
  }

  /** Number of neighbours of every admissible colour. */
  function Total(stats: map<Colour, nat>, colours: seq<Colour>): nat
    requires Covers(stats, colours)
  {
    if colours == [] then 0 else stats[colours[0]] + Total(stats, colours[1..])
  }

  /** With distinct admissible colours, the neighbours of the agent's own colour and the
      different ones together are all the coloured neighbours, each counted once. */
  lemma {:induction false} SameAndDifferent(stats: map<Colour, nat>, colours: seq<Colour>, own: Colour)
    requires Covers(stats, colours) && own in colours
    requires forall i, j :: 0 <= i < j < |colours| ==> colours[i] != colours[j]
    ensures stats[own] + Different(stats, colours, own) == Total(stats, colours)
  {
    if colours[0] == own {
      DifferentWithout(stats, colours[1..], own);
    } else {
      SameAndDifferent(stats, colours[1..], own);
    }
  }

  /** Without `own` among the colours, every neighbour counted is a different one. */
  lemma {:induction false} DifferentWithout(stats: map<Colour, nat>, colours: seq<Colour>, own: Colour)
    requires Covers(stats, colours) && own !in colours
    ensures Different(stats, colours, own) == Total(stats, colours)
  {
    if colours != [] {
      DifferentWithout(stats, colours[1..], own);
    }
  }

  /** Verdict before aging, in integers: a placed agent with at least one coloured
      neighbour is unsatisfied when its share of different neighbours, in percent, is
      strictly above `tolerance` or strictly below `lower`. An agent with no coloured
      neighbour is never unsatisfied, and neither is any agent when the band is the whole
      of [0, 100]. `ThresholdRule` gives the percentage reading. */
  predicate Unsatisfied(same: nat, different: nat, tolerance: int, lower: int)
    ensures Unsatisfied(same, different, tolerance, lower) ==> same + different > 0
    ensures lower <= 0 && 100 <= tolerance ==> !Unsatisfied(same, different, tolerance, lower)
  {
    assert lower <= 0 && 100 <= tolerance ==>
      lower * (same + different) <= 0 && 100 * (same + different) <= tolerance * (same + different);
    same + different > 0 &&
    (100 * different > tolerance * (same + different) ||
     100 * different < lower * (same + different))
  }

  /** The share of different neighbours in percent, as an exact rational. */
  function Percentage(different: nat, total: nat): real
    requires total > 0
  {
    100.0 * different as real / total as real
  }

  /** The forced-stay threshold `100 * (1 - 1/(age+2))` of an agent unmoved for `age` steps. */
  function StayThreshold(age: nat): (t: real)
    ensures 50.0 <= t < 100.0
  {
    var inv := 1.0 / (age + 2) as real;
    assert 0.0 < inv <= 0.5 by {
      assert inv * (age + 2) as real == 1.0;
    }
    100.0 * (1.0 - inv)
  }

  /** The draw `r` (in 0..100) keeps an agent unmoved for `age` steps in place: the
      integer form of `r < 100 * (1 - 1/(age+2))` (see `ForcedStayExact`). Every draw
      below 50 stays and no draw of 100 or more does, whatever the age. */
  predicate ForcedStay(age: nat, r: int)
    ensures r < 50 ==> ForcedStay(age, r)
    ensures r >= 100 ==> !ForcedStay(age, r)
  {
    assert r < 50 ==> r * (age + 2) <= 49 * (age + 2);
    assert r >= 100 ==> r * (age + 2) >= 100 * (age + 2);
    r * (age + 2) < 100 * (age + 1)
  }

  /** Aging overrides an unsatisfied verdict only with the aging flag at 1, after step 0,
      and when the draw falls below the threshold for the agent's age. With aging on and
      after step 0, a draw below 50 always keeps the agent in place. */
  predicate StaysPut(aging: int, step: int, lastMoved: int, r: int)
    requires lastMoved <= step
    ensures StaysPut(aging, step, lastMoved, r) ==> aging == 1 && step != 0
    ensures aging == 1 && step != 0 && r < 50 ==> StaysPut(aging, step, lastMoved, r)
  {
    aging == 1 && step != 0 && ForcedStay(step - lastMoved, r)
  }

  /** Final verdict of a placed agent with `same` and `different` coloured neighbours:
      satisfied when it has no coloured neighbour, when its share of different neighbours
      lies within [lower tolerance, tolerance], or when aging keeps it in place. */
  predicate Satisfied(p: Params, same: nat, different: nat, step: int, lastMoved: int, r: int)
    requires lastMoved <= step
    ensures Satisfied(p, same, different, step, lastMoved, r) <==>
      (same + different == 0 ||
       (p.lowerTolerance as real <= Percentage(different, same + different) <= p.tolerance as real) ||
       StaysPut(p.aging, step, lastMoved, r))
  {
    if same + different > 0 then
      ThresholdRule(same, different, p.tolerance, p.lowerTolerance);
      !Unsatisfied(same, different, p.tolerance, p.lowerTolerance) || StaysPut(p.aging, step, lastMoved, r)
    else
      true
  }

  /** The integer verdict is the percentage rule: unsatisfied exactly when the share of
      different neighbours is strictly outside [lower, tolerance]. */
  lemma ThresholdRule(same: nat, different: nat, tolerance: int, lower: int)
    requires same + different > 0
    ensures Unsatisfied(same, different, tolerance, lower) <==>
      (Percentage(different, same + different) > tolerance as real ||
       Percentage(different, same + different) < lower as real)
  {
    PercentageScaled(different, same + different);
    ScaledBand(Percentage(different, same + different), same + different, different, tolerance, lower);
  }

  /** Comparing a share `pct` (with `pct * n == 100 * different`) against a bound is the
      cross-multiplied integer comparison. */
  lemma ScaledBand(pct: real, n: nat, different: nat, tolerance: int, lower: int)
    requires n > 0 && pct * n as real == 100.0 * different as real
    ensures (100 * different > tolerance * n || 100 * different < lower * n) <==>
      (pct > tolerance as real || pct < lower as real)
  {
    ScaledAbove(pct, n, different, tolerance);
    ScaledBelow(pct, n, different, lower);
  }

  /** The upper-bound half of `ScaledBand`. */
  lemma ScaledAbove(pct: real, n: nat, different: nat, bound: int)
    requires n > 0 && pct * n as real == 100.0 * different as real
    ensures 100 * different > bound * n <==> pct > bound as real
  {
    RealProduct(bound, n);
    ScaledOrder(pct, bound as real, n as real);
  }

  /** The lower-bound half of `ScaledBand`. */
  lemma ScaledBelow(pct: real, n: nat, different: nat, bound: int)
    requires n > 0 && pct * n as real == 100.0 * different as real
    ensures 100 * different < bound * n <==> pct < bound as real
  {
    RealProduct(bound, n);
    ScaledOrder(bound as real, pct, n as real);
  }

  /** A percentage times its base gives back a hundred times its part. */
  lemma PercentageScaled(part: nat, total: nat)
    requires total > 0
    ensures Percentage(part, total) * total as real == 100.0 * part as real
  {
    var t := total as real;
    assert (100.0 * part as real / t) * t == 100.0 * part as real;
  }

  /** Conversion to a real commutes with multiplication. */
  lemma RealProduct(a: int, b: int)
    ensures (a * b) as real == a as real * b as real
  {
  }

  /** Multiplying both sides by a positive factor keeps a strict order. */
  lemma ScaledOrder(a: real, b: real, n: real)
    requires n > 0.0
    ensures a > b <==> a * n > b * n
  {
    assert a * n - b * n == (a - b) * n;
  }

  /** A share exactly on either bound of a band with `lower <= tolerance` is satisfied. */
  lemma BoundsAreSatisfied(same: nat, different: nat, tolerance: int, lower: int)
    requires same + different > 0 && lower <= tolerance
    requires Percentage(different, same + different) == tolerance as real ||
             Percentage(different, same + different) == lower as real
    ensures !Unsatisfied(same, different, tolerance, lower)
  {
    ThresholdRule(same, different, tolerance, lower);
  }

  /** With tolerance 50 and lower tolerance 0, three same and one different neighbour
      (25% different) is satisfied, one same and three different (75%) is not, and aging
      switched off leaves both verdicts as they are. */
  lemma ThresholdExamples(colours: seq<Colour>, step: int, lastMoved: int, r: int)
    requires lastMoved <= step
    ensures Satisfied(Params(colours, 50, 0, 0), 3, 1, step, lastMoved, r)
    ensures !Satisfied(Params(colours, 50, 0, 0), 1, 3, step, lastMoved, r)
    ensures Percentage(1, 4) == 25.0 && Percentage(3, 4) == 75.0
  {
  }

  /** With no coloured neighbour an agent is satisfied whatever the draw, and aging
      can only turn an unsatisfied verdict into a satisfied one, never the reverse. */
  lemma AgingOneWay(p: Params, same: nat, different: nat, step: int, lastMoved: int, r: int)
    requires lastMoved <= step
    ensures same + different == 0 ==> Satisfied(p, same, different, step, lastMoved, r)
    ensures !Unsatisfied(same, different, p.tolerance, p.lowerTolerance) ==> Satisfied(p, same, different, step, lastMoved, r)
    ensures Satisfied(p, same, different, step, lastMoved, r) && Unsatisfied(same, different, p.tolerance, p.lowerTolerance)
      ==> p.aging == 1 && step != 0
  {
  }

  /** The integer test agrees with the threshold written as a fraction. */
  lemma ForcedStayExact(age: nat, r: int)
    ensures ForcedStay(age, r) <==> (r as real) < StayThreshold(age)
  {
    var k := (age + 2) as real;
    var t := StayThreshold(age);
    assert t * k == 100.0 * (age + 1) as real by {
      assert (1.0 / k) * k == 1.0;
    }
    assert (r as real) < t <==> (r as real) * k < t * k;
  }

  /** The threshold never decreases as the agent ages. */
  lemma StayThresholdGrows(age1: nat, age2: nat)
    requires age1 <= age2
    ensures StayThreshold(age1) <= StayThreshold(age2)
  {
    var k1, k2 := (age1 + 2) as real, (age2 + 2) as real;
    assert (1.0 / k2) * k2 == 1.0 && (1.0 / k1) * k1 == 1.0;
    assert 1.0 / k2 <= 1.0 / k1 by {
      assert (1.0 / k2) * k1 <= (1.0 / k2) * k2;
    }
  }

  /** A draw that keeps a younger agent in place keeps every older one in place too. */
  lemma ForcedStayMonotone(age1: nat, age2: nat, r: int)
    requires age1 <= age2 && 0 <= r <= 100
    ensures ForcedStay(age1, r) ==> ForcedStay(age2, r)
  {
    assert r * (age2 + 2) == r * (age1 + 2) + r * (age2 - age1);
    assert r * (age2 - age1) <= 100 * (age2 - age1);
  }

  /** For draws in 0..100: at age 0 the draws 0..49 stay (50 of the 101 outcomes), every
      such draw stays at any age, and the top draw 100 never stays. At age 1 the draws
      0..66 stay (67 of the 101 outcomes), and they stay at every later age. */
  lemma ForcedStayRange(age: nat, r: int)
    requires 0 <= r <= 100
    ensures ForcedStay(0, r) <==> r < 50
    ensures r < 50 ==> ForcedStay(age, r)
    ensures !ForcedStay(age, 100)
    ensures ForcedStay(1, r) <==> r < 67
    ensures 1 <= age && r < 67 ==> ForcedStay(age, r)
  {
    if 1 <= age && r < 67 {
      ForcedStayMonotone(1, age, r);
    }
  }

  /** Number of `true` flags. */
  function CountTrue(flags: seq<bool>): (n: nat)
    ensures n <= |flags|
  {
    if flags == [] then 0 else (if flags[0] then 1 else 0) + CountTrue(flags[1..])
  }

  /** Every flag is set exactly when all of them count. */
  lemma {:induction false} CountTrueAll(flags: seq<bool>)
    ensures CountTrue(flags) == |flags| <==> forall i :: 0 <= i < |flags| ==> flags[i]
  {
    if flags != [] {
      CountTrueAll(flags[1..]);
      assert forall i :: 1 <= i < |flags| ==> flags[i] == flags[1..][i - 1];
    }
  }

  /** No flag is set exactly when none of them count. */
  lemma {:induction false} CountTrueNone(flags: seq<bool>)
    ensures CountTrue(flags) == 0 <==> forall i :: 0 <= i < |flags| ==> !flags[i]
  {
    if flags != [] {
      CountTrueNone(flags[1..]);
      assert forall i :: 1 <= i < |flags| ==> flags[i] == flags[1..][i - 1];
    }
  }

  /** `100 * k / n` for `0 <= k <= n` lies in [0, 100] and hits either end only at `k == 0` or `k == n`. */
  lemma RatioBounds(k: real, n: real)
    requires 0.0 <= k <= n && n > 0.0
    ensures 0.0 <= 100.0 * k / n <= 100.0
    ensures 100.0 * k / n == 100.0 <==> k == n
    ensures 100.0 * k / n == 0.0 <==> k == 0.0
  {
    assert k / n <= 1.0;
    assert 100.0 * k / n == 100.0 * (k / n);
    assert (k / n) * n == k;
  }

  /** Satisfaction of a group whose members' flags are `flags`: the percentage of
      satisfied members, and 100 for an empty group. It lies in [0, 100], is 100 exactly
      when every member is satisfied, and 0 exactly when the group is non-empty and no
      member is. */
  function GroupPercent(flags: seq<bool>): (pct: real)
    ensures 0.0 <= pct <= 100.0
    ensures pct == 100.0 <==> forall i :: 0 <= i < |flags| ==> flags[i]
    ensures pct == 0.0 <==> |flags| > 0 && forall i :: 0 <= i < |flags| ==> !flags[i]
  {
    CountTrueAll(flags);
    CountTrueNone(flags);
    if |flags| > 0 then
      RatioBounds(CountTrue(flags) as real, |flags| as real);
      100.0 * CountTrue(flags) as real / |flags| as real
    else
      100.0
  }
}
