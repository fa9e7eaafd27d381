/**
 `get_fixed_start_goal_pairs(bounds)`: refine the grid one mark per axis at
 a time, starting at 11 marks, until the free grid states give at least
 1000 ordered (start, goal) pairs, and return the pairs of the first
 resolution that does.

 The loop stops exactly when `bounds.high[0] > 0` and
 `bounds.low[0] < bounds.high[0]`: otherwise no grid state is ever free
 (NoFreeStatesWithoutRoom), and when they hold some resolution is fine
 enough (SufficientMarks).
 */
module StartGoal {
  import opened EvenMarks
  import opened Grid

  /** Marks per axis on the first pass. */
  const FirstMarks: nat := 11

  /** The loop runs while fewer pairs than this were produced. */
  const MinPairs: nat := 1000

  /** The free states of the grid with n marks per axis. */
  function FreeGridStates(n: nat, b: Bounds): seq<Point>
    requires b.HasFirstAxis()
  {
    FilterFree(RecAllStates(0, n, b), b)
  }

  /** One pass of the loop body: all ordered pairs of free grid states. */
  function PairsAt(n: nat, b: Bounds): seq<StatePair>
    requires b.HasFirstAxis()
  {
    AllPairs(FreeGridStates(n, b))
  }

  /** Number of free marks on one axis. */
  function FreeMarkCount(n: nat, b: Bounds): nat
    requires b.HasFirstAxis()
  {
    |FreeMarks(AxisMarks(n, b), b.high[0])|
  }

  /** With m free marks per axis there are m * m free states and
      (m * m) * (m * m) pairs, and every pair joins two free grid states. */
  lemma PairsAtCount(n: nat, b: Bounds)
    requires b.HasFirstAxis()
    ensures |FreeGridStates(n, b)| == FreeMarkCount(n, b) * FreeMarkCount(n, b)
    ensures |PairsAt(n, b)| == |FreeGridStates(n, b)| * |FreeGridStates(n, b)|
    ensures forall p :: p in PairsAt(n, b) ==>
              p.0 in RecAllStates(0, n, b) && IsFree(p.0, b) &&
              p.1 in RecAllStates(0, n, b) && IsFree(p.1, b)
  {
    FreeGridIsGridOfFreeMarks(n, b);
    var states := FreeGridStates(n, b);
    AllPairsCount(states);
    forall p | p in PairsAt(n, b)
      ensures p.0 in RecAllStates(0, n, b) && IsFree(p.0, b)
      ensures p.1 in RecAllStates(0, n, b) && IsFree(p.1, b)
    {
      AllPairsMember(states, p.0, p.1);
      FilterFreeMember(RecAllStates(0, n, b), b, p.0);
      FilterFreeMember(RecAllStates(0, n, b), b, p.1);
    }
  }

  /** The condition under which the loop terminates. */
  predicate RoomInside(b: Bounds)
    requires b.HasFirstAxis()
  {
    0.0 < b.high[0] && b.low[0] < b.high[0]
  }

  /** Without room inside the bounds no mark is free, so no grid state is
      free and every pass yields no pairs: the loop would never stop. */
  lemma NoFreeStatesWithoutRoom(n: nat, b: Bounds)
    requires b.HasFirstAxis() && !RoomInside(b)
    ensures FreeGridStates(n, b) == []
    ensures PairsAt(n, b) == []
  {
    var lo, hi := b.low[0], b.high[0];
    var s := AxisMarks(n, b);
    forall k | 0 <= k < |s|
      ensures Abs(s[k]) >= hi
    {
      MarkWithin(lo, hi, n, k);
      assert s[k] == Mark(lo, hi, n, k);
    }
    FreeMarksAllOutside(s, hi);
    FreeGridIsGridOfFreeMarks(n, b);
  }

  /** Once 3 * (high - low) < (n - 1) * high, the six marks just below
      `high` are all strictly inside the bound. */
  lemma SixFreeMarks(n: nat, b: Bounds)
    requires b.HasFirstAxis() && RoomInside(b)
    requires n >= 7
    requires 3.0 * (b.high[0] - b.low[0]) < ((n - 1) as real) * b.high[0]
    ensures FreeMarkCount(n, b) >= 6
  {
    var lo, hi := b.low[0], b.high[0];
    var s := AxisMarks(n, b);
    ShortStep(lo, hi, n);
    forall k | n - 7 <= k < n - 1
      ensures Abs(s[k]) < hi
    {
      var j: nat := n - 1 - k;
      var step := Step(lo, hi, n);
      assert j <= 6;
      assert (j as real) * step <= 6.0 * step by {
        ScaleLe(j as real, 6.0, step);
      }
      TopMarkFree(lo, hi, n, j);
    }
    FreeMarksOfInsideSlice(s, n - 7, n - 1, hi);
  }

  /** Scaling by a non-negative factor keeps the order. */
  lemma ScaleLe(a: real, c: real, x: real)
    requires a <= c && 0.0 <= x
    ensures a * x <= c * x
  {
    assert c * x - a * x == (c - a) * x;
  }

  /** The condition on n makes three steps shorter than `high`. */
  lemma ShortStep(lo: real, hi: real, n: nat)
    requires lo < hi && n >= 2
    requires 3.0 * (hi - lo) < ((n - 1) as real) * hi
    ensures 0.0 < Step(lo, hi, n) && 3.0 * Step(lo, hi, n) < hi
  {
    var step := Step(lo, hi, n);
    StepSpansInterval(lo, hi, n);
    assert ((n - 1) as real) * (3.0 * step) == 3.0 * (hi - lo);
  }

  /** A slice of marks all inside the bound contributes all of its marks. */
  lemma FreeMarksOfInsideSlice(s: seq<real>, a: nat, c: nat, h: real)
    requires a <= c <= |s|
    requires forall k :: a <= k < c ==> Abs(s[k]) < h
    ensures |FreeMarks(s, h)| >= c - a
  {
    var before, middle, after := s[..a], s[a..c], s[c..];
    assert forall k :: 0 <= k < |middle| ==> Abs(middle[k]) < h by {
      forall k | 0 <= k < |middle|
        ensures Abs(middle[k]) < h
      {
        assert middle[k] == s[a + k];
      }
    }
    FreeMarksAllInside(middle, h);
    assert s == (before + middle) + after;
    FreeMarksConcat(before + middle, after, h);
    FreeMarksConcat(before, middle, h);
    assert |FreeMarks(s, h)| == |FreeMarks(before, h)| + |middle| + |FreeMarks(after, h)|;
  }

  /** The mark j steps below `high` is free while those j steps stay short
      of the full width `2 * high` of the free band. */
  lemma TopMarkFree(lo: real, hi: real, n: nat, j: nat)
    requires lo < hi && 1 <= j < n
    requires (j as real) * Step(lo, hi, n) < 2.0 * hi
    ensures Abs(Mark(lo, hi, n, n - 1 - j)) < hi
  {
    MarkFromTop(lo, hi, n, j);
    assert Step(lo, hi, n) > 0.0;
    assert (j as real) * Step(lo, hi, n) > 0.0;
  }

  /** A resolution at which the loop is certain to stop. */
  function SufficientMarks(b: Bounds): (n: nat)
    requires b.HasFirstAxis() && RoomInside(b)
    ensures n >= FirstMarks
    ensures |PairsAt(n, b)| >= MinPairs
  {
    var lo, hi := b.low[0], b.high[0];
    var q := 3.0 * (hi - lo) / hi;
    assert q > 0.0;
    var n: nat := if q.Floor + 2 < FirstMarks then FirstMarks else q.Floor + 2;
    assert ((n - 1) as real) > q;
    assert 3.0 * (hi - lo) < ((n - 1) as real) * hi by {
      assert q * hi == 3.0 * (hi - lo);
    }
    SixFreeMarks(n, b);
    PairsAtCount(n, b);
    FourthPowerAtLeast(FreeMarkCount(n, b), 6);
    n
  }

  lemma FourthPowerAtLeast(m: nat, lower: nat)
    requires m >= lower
    ensures (m * m) * (m * m) >= (lower * lower) * (lower * lower)
  {
    assert m * m >= lower * lower by {
      assert m * m >= lower * m >= lower * lower;
    }
  }

  /** `get_fixed_start_goal_pairs(bounds)`. The result holds at least 1000
      pairs of free grid states, and it is the pair list of the first
      resolution from 11 marks upward that reaches 1000 pairs. */
  method FixedStartGoalPairs(b: Bounds) returns (allPairs: seq<StatePair>)
    requires b.HasFirstAxis() && RoomInside(b)
    ensures |allPairs| >= MinPairs
    ensures forall p :: p in allPairs ==> IsFree(p.0, b) && IsFree(p.1, b)
    ensures exists n :: FirstMarks <= n && allPairs == PairsAt(n, b) &&
                        forall m :: FirstMarks <= m < n ==> |PairsAt(m, b)| < MinPairs
  {
    allPairs := [];
    var gridMarks := FirstMarks;
    ghost var enough := SufficientMarks(b);
    ghost var last: nat := FirstMarks - 1;
    while |allPairs| < MinPairs
      invariant gridMarks == last + 1
      invariant FirstMarks <= gridMarks <= enough + 1
      invariant last < FirstMarks ==> allPairs == []
      invariant last >= FirstMarks ==> allPairs == PairsAt(last, b)
      invariant forall m :: FirstMarks <= m < last ==> |PairsAt(m, b)| < MinPairs
      decreases enough + 1 - gridMarks
    {
      assert last != enough;
      assert last >= FirstMarks ==> |PairsAt(last, b)| < MinPairs;
      forall m | FirstMarks <= m < gridMarks
        ensures |PairsAt(m, b)| < MinPairs
      {
        if m < last {
        } else {
          assert m == last;
        }
      }
      var gridStates := RecAllStates(0, gridMarks, b);
      gridStates := FilterFree(gridStates, b);
      allPairs := AllPairs(gridStates);
      last := gridMarks;
      gridMarks := gridMarks + 1;
    }
    PairsAtCount(last, b);
  }

  /** For symmetric bounds `[-h, h]` every mark but the two end marks is
      free, in order. */
  lemma SymmetricFreeMarks(h: real, n: nat)
    requires h > 0.0 && n >= 2
    ensures FreeMarks(Linspace(-h, h, n), h) == Linspace(-h, h, n)[1..n - 1]
  {
    var s := Linspace(-h, h, n);
    forall k | 1 <= k < n - 1
      ensures Abs(s[k]) < h
    {
      SymmetricMarkInside(h, n, k);
    }
    var middle := s[1..n - 1];
    FreeMarksAllInside(middle, h);
    assert s == [s[0]] + middle + [s[n - 1]];
    FreeMarksConcat([s[0]] + middle, [s[n - 1]], h);
    FreeMarksConcat([s[0]], middle, h);
  }

  /** Over `[-h, h]` a mark other than the two end marks is strictly inside
      the bound: it lies at least one step from either end. */
  lemma SymmetricMarkInside(h: real, n: nat, k: nat)
    requires h > 0.0 && 1 <= k < n - 1
    ensures Abs(Mark(-h, h, n, k)) < h
  {
    var step := Step(-h, h, n);
    assert step > 0.0;
    var j: nat := n - 1 - k;
    MarkFromTop(-h, h, n, j);
    ScaleLe(1.0, k as real, step);
    ScaleLe(1.0, j as real, step);
  }

  /** Bounds whose axis 0 is `[-1, 1]`, as `plan` sets them on both axes. */
  predicate UnitBounds(b: Bounds)
  {
    b.HasFirstAxis() && b.low[0] == -1.0 && b.high[0] == 1.0
  }

  /** For bounds symmetric about zero on axis 0, n marks leave n - 2 free
      marks, (n - 2)^2 free states and (n - 2)^4 pairs. */
  lemma SymmetricCounts(b: Bounds, n: nat)
    requires b.HasFirstAxis() && 0.0 < b.high[0] && b.low[0] == -b.high[0]
    requires n >= 2
    ensures FreeMarkCount(n, b) == n - 2
    ensures |FreeGridStates(n, b)| == (n - 2) * (n - 2)
    ensures |PairsAt(n, b)| == ((n - 2) * (n - 2)) * ((n - 2) * (n - 2))
  {
    SymmetricFreeMarks(b.high[0], n);
    PairsAtCount(n, b);
  }

  /** With the bounds of `plan` the first pass already suffices: 9 free
      marks per axis, 81 free states, 6561 pairs. */
  lemma PlanBoundsFirstPass(b: Bounds)
    requires UnitBounds(b)
    ensures FreeMarkCount(FirstMarks, b) == 9
    ensures |FreeGridStates(FirstMarks, b)| == 81
    ensures |PairsAt(FirstMarks, b)| == 6561
  {
    SymmetricCounts(b, FirstMarks);
  }

  /** The first three free marks of 11 marks over `[-1, 1]`. */
  lemma FirstFreeUnitMarks()
    ensures |Linspace(-1.0, 1.0, 11)[1..10]| == 9
    ensures Linspace(-1.0, 1.0, 11)[1..10][0] == -0.8
    ensures Linspace(-1.0, 1.0, 11)[1..10][1] == -0.6
    ensures Linspace(-1.0, 1.0, 11)[1..10][2] == -0.4
  {
  }

  /** Pair 100 of the first pass over `[-1, 1]` is free state 1 followed
      by free state 19, that is ((-0.6, -0.8), (-0.6, -0.4)). */
  lemma PlanHundredthPair(b: Bounds)
    requires UnitBounds(b)
    ensures |PairsAt(FirstMarks, b)| == 6561
    ensures PairsAt(FirstMarks, b)[100] == ([-0.6, -0.8], [-0.6, -0.4])
  {
    PlanBoundsFirstPass(b);
    SymmetricFreeMarks(1.0, FirstMarks);
    FirstFreeUnitMarks();
    var fm := Linspace(-1.0, 1.0, 11)[1..10];
    var states := FreeGridStates(FirstMarks, b);
    FreeGridIsGridOfFreeMarks(FirstMarks, b);
    assert states == GridOver(fm);
    GridOverAt(fm, 0, 1);
    GridOverAt(fm, 2, 1);
    AllPairsAt(states, 1, 19);
  }

  /** When the first pass reaches 1000 pairs, the loop stops after it. */
  lemma FirstPassSuffices(b: Bounds, n: nat)
    requires b.HasFirstAxis() && |PairsAt(FirstMarks, b)| >= MinPairs
    requires FirstMarks <= n
    requires forall m :: FirstMarks <= m < n ==> |PairsAt(m, b)| < MinPairs
    ensures n == FirstMarks
  {
  }

  /** `plan` picks the pair at index 100 of the generated list (with yaw 0):
      start (-0.6, -0.8), goal (-0.6, -0.4). */
  method PlanStartAndGoal(b: Bounds) returns (start: Point, goal: Point)
    requires UnitBounds(b)
    ensures start == [-0.6, -0.8] && goal == [-0.6, -0.4]
  {
    var pairs := FixedStartGoalPairs(b);
    PlanHundredthPair(b);
    ghost var n: nat :| FirstMarks <= n && pairs == PairsAt(n, b) &&
                         forall m :: FirstMarks <= m < n ==> |PairsAt(m, b)| < MinPairs;
    FirstPassSuffices(b, n);
    start, goal := pairs[100].0, pairs[100].1;
  }
}
