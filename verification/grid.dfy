/**
 Grid states of the 2-D point robot and the bounds test applied to them:
 the recursive Cartesian product `_rec_all_states`, the predicate
 `is_free`, the filter that keeps the free states and the list of all
 ordered (start, goal) pairs among them.
 */
module Grid {
  import opened EvenMarks
  import opened Comprehension

  /** Number of coordinates of a grid state (the R^2 part of SE(2)). */
  const Dim: nat := 2

  /** A grid state as a list of coordinates, x first. */
  type Point = seq<real>

  /** A (start, goal) pair of grid states. */
  type StatePair = (Point, Point)

  /** Per-axis lower and upper bounds. The generator only ever reads axis 0
      of each, and uses it for both axes. */
  datatype Bounds = Bounds(low: seq<real>, high: seq<real>) {
    predicate HasFirstAxis() {
      |low| > 0 && |high| > 0
    }
  }

  function Abs(x: real): real
  {
    if x < 0.0 then -x else x
  }

  /** `np.linspace(bounds.low[0], bounds.high[0], n)`, shared by both axes. */
  function AxisMarks(n: nat, b: Bounds): seq<real>
    requires b.HasFirstAxis()
  {
    Linspace(b.low[0], b.high[0], n)
  }

  /** `[x] + l`: the mark x becomes the first coordinate in front of the
      coordinates l built for the later axes. */
  function Prepend(l: Point, x: real): Point
  {
    [x] + l
  }

  function Pow(n: nat, e: nat): nat
  {
    if e == 0 then 1 else n * Pow(n, e - 1)
  }

  /** `_rec_all_states(index, n, bounds)`: every combination of marks for the
      axes index .. Dim - 1. The last axis yields singletons `[[x] for x in s]`;
      each earlier axis builds `[[x] + l for l in next_res for x in s]`.
      An index of Dim or more never reaches the base case in the source, so
      it is excluded. */
  function RecAllStates(index: nat, n: nat, b: Bounds): (r: seq<Point>)
    requires b.HasFirstAxis() && index < Dim
    ensures |r| == Pow(n, Dim - index)
    decreases Dim - index
  {
    var s := AxisMarks(n, b);
    if index == Dim - 1 then
      Row([], s, Prepend)
    else
      var next := RecAllStates(index + 1, n, b);
      NestedLength(next, s, Prepend);
      PowStep(n, Dim - index);
      Nested(next, s, Prepend)
  }

  /** Every state built from axis `index` on has one coordinate per
      remaining axis, each of them a mark. */
  lemma {:induction false} RecAllStatesShape(index: nat, n: nat, b: Bounds)
    requires b.HasFirstAxis() && index < Dim
    ensures forall p :: p in RecAllStates(index, n, b) ==>
              |p| == Dim - index && forall c :: c in p ==> c in AxisMarks(n, b)
    decreases Dim - index
  {
    var s := AxisMarks(n, b);
    if index == Dim - 1 {
      PrependAllCoordinates([[]], s, 0);
      assert Nested([[]], s, Prepend) == Row([], s, Prepend);
    } else {
      RecAllStatesShape(index + 1, n, b);
      PrependAllCoordinates(RecAllStates(index + 1, n, b), s, Dim - index - 1);
    }
  }

  /** States with d coordinates taken from s gain one more coordinate from s
      when a mark is put in front of them. */
  lemma PrependAllCoordinates(outer: seq<Point>, s: seq<real>, d: nat)
    requires forall p :: p in outer ==> |p| == d && forall c :: c in p ==> c in s
    ensures forall p :: p in Nested(outer, s, Prepend) ==>
              |p| == d + 1 && forall c :: c in p ==> c in s
  {
    forall p | p in Nested(outer, s, Prepend)
      ensures |p| == d + 1 && forall c :: c in p ==> c in s
    {
      NestedMember(outer, s, Prepend, p);
      var l, x :| l in outer && x in s && p == Prepend(l, x);
    }
  }

  lemma PowStep(n: nat, e: nat)
    requires e > 0
    ensures Pow(n, e) == Pow(n, e - 1) * n
  {
  }

  /** The full 2-D grid `_rec_all_states(0, n, bounds)`, built from marks s. */
  function GridOver(s: seq<real>): seq<Point>
  {
    Nested(Row([], s, Prepend), s, Prepend)
  }

  /** The grid over marks s has |s| * |s| states; the state at position
      `i * |s| + j` is `[s[j], s[i]]`, so the first coordinate varies
      fastest. */
  lemma GridOverAt(s: seq<real>, i: nat, j: nat)
    requires i < |s| && j < |s|
    ensures |GridOver(s)| == |s| * |s|
    ensures i * |s| + j < |GridOver(s)|
    ensures GridOver(s)[i * |s| + j] == [s[j], s[i]]
  {
    var singles := Row([], s, Prepend);
    NestedLength(singles, s, Prepend);
    NestedAt(singles, s, Prepend, i, j);
    RowAt([], s, Prepend, i);
    assert singles[i] == [s[i]];
    assert Prepend(singles[i], s[j]) == [s[j], s[i]];
  }

  /** `_rec_all_states(0, n, bounds)` is the grid over the axis marks: n * n
      states in the order given by GridOverAt. */
  lemma GridIsGridOver(n: nat, b: Bounds)
    requires b.HasFirstAxis()
    ensures RecAllStates(0, n, b) == GridOver(AxisMarks(n, b))
    ensures |RecAllStates(0, n, b)| == n * n
  {
  }

  /** State `i * n + j` of `_rec_all_states(0, n, bounds)` is
      `[s[j]] + [s[i]]` for the axis marks s: x comes from the inner loop. */
  lemma RecAllStatesAt(n: nat, b: Bounds, i: nat, j: nat)
    requires b.HasFirstAxis() && i < n && j < n
    ensures i * n + j < |RecAllStates(0, n, b)|
    ensures RecAllStates(0, n, b)[i * n + j] == [AxisMarks(n, b)[j], AxisMarks(n, b)[i]]
  {
    GridIsGridOver(n, b);
    GridOverAt(AxisMarks(n, b), i, j);
  }

  /** `any(np.abs(coordinates) >= h)`. */
  function AnyOnOrBeyond(coordinates: Point, h: real): bool
  {
    |coordinates| > 0 && (Abs(coordinates[0]) >= h || AnyOnOrBeyond(coordinates[1..], h))
  }

  /** `is_free(coordinates, bounds)`: no coordinate reaches `bounds.high[0]`
      in absolute value. No obstacle test follows the bounds test. */
  predicate IsFree(coordinates: Point, b: Bounds)
    requires b.HasFirstAxis()
  {
    !AnyOnOrBeyond(coordinates, b.high[0])
  }

  /** A state is free exactly when every coordinate lies strictly inside
      `(-high[0], high[0])`; a coordinate on the bound is not free, and
      `low` plays no part. */
  lemma {:induction false} IsFreeIff(coordinates: Point, b: Bounds)
    requires b.HasFirstAxis()
    ensures IsFree(coordinates, b) <==>
            forall i :: 0 <= i < |coordinates| ==> Abs(coordinates[i]) < b.high[0]
  {
    if |coordinates| > 0 {
      var tail := coordinates[1..];
      IsFreeIff(tail, b);
      assert forall i :: 1 <= i < |coordinates| ==> coordinates[i] == tail[i - 1];
    }
  }

  /** Negating one coordinate does not change whether a state is free. */
  lemma IsFreeNegate(coordinates: Point, b: Bounds, k: nat)
    requires b.HasFirstAxis() && k < |coordinates|
    ensures IsFree(coordinates[k := -coordinates[k]], b) == IsFree(coordinates, b)
  {
    var flipped := coordinates[k := -coordinates[k]];
    IsFreeIff(coordinates, b);
    IsFreeIff(flipped, b);
    assert forall i :: 0 <= i < |coordinates| ==> Abs(flipped[i]) == Abs(coordinates[i]);
  }

  /** Putting a mark in front keeps a state free exactly when the mark is
      strictly inside the bound. */
  lemma IsFreePrepend(l: Point, x: real, b: Bounds)
    requires b.HasFirstAxis()
    ensures IsFree(Prepend(l, x), b) <==> Abs(x) < b.high[0] && IsFree(l, b)
  {
  }

  /** `[s for s in states if is_free(s, bounds)]`. */
  function FilterFree(states: seq<Point>, b: Bounds): (kept: seq<Point>)
    requires b.HasFirstAxis()
    ensures |kept| <= |states|
  {
    if |states| == 0 then []
    else (if IsFree(states[0], b) then [states[0]] else []) + FilterFree(states[1..], b)
  }

  /** A state is kept exactly when it is listed and free. */
  lemma {:induction false} FilterFreeMember(states: seq<Point>, b: Bounds, p: Point)
    requires b.HasFirstAxis()
    ensures p in FilterFree(states, b) <==> p in states && IsFree(p, b)
  {
    if |states| > 0 {
      FilterFreeMember(states[1..], b, p);
      assert p in states <==> p == states[0] || p in states[1..];
    }
  }

  /** Filtering commutes with concatenation, so the kept states stay in
      their original order. */
  lemma {:induction false} FilterFreeConcat(xs: seq<Point>, ys: seq<Point>, b: Bounds)
    requires b.HasFirstAxis()
    ensures FilterFree(xs + ys, b) == FilterFree(xs, b) + FilterFree(ys, b)
  {
    if |xs| > 0 {
      FilterFreeConcat(xs[1..], ys, b);
      assert (xs + ys)[1..] == xs[1..] + ys;
    } else {
      assert xs + ys == ys;
    }
  }

  /** The marks strictly inside `(-h, h)`, in their original order. */
  function FreeMarks(s: seq<real>, h: real): (kept: seq<real>)
    ensures |kept| <= |s|
  {
    if |s| == 0 then []
    else (if Abs(s[0]) < h then [s[0]] else []) + FreeMarks(s[1..], h)
  }

  /** A mark is kept exactly when it is listed and strictly inside (-h, h). */
  lemma {:induction false} FreeMarksMember(s: seq<real>, h: real, x: real)
    ensures x in FreeMarks(s, h) <==> x in s && Abs(x) < h
  {
    if |s| > 0 {
      FreeMarksMember(s[1..], h, x);
      assert x in s <==> x == s[0] || x in s[1..];
    }
  }

  lemma {:induction false} FreeMarksConcat(xs: seq<real>, ys: seq<real>, h: real)
    ensures FreeMarks(xs + ys, h) == FreeMarks(xs, h) + FreeMarks(ys, h)
  {
    if |xs| > 0 {
      FreeMarksConcat(xs[1..], ys, h);
      var head := if Abs(xs[0]) < h then [xs[0]] else [];
      assert (xs + ys)[0] == xs[0];
      assert (xs + ys)[1..] == xs[1..] + ys;
      assert FreeMarks(xs + ys, h) == head + (FreeMarks(xs[1..], h) + FreeMarks(ys, h));
      assert FreeMarks(xs, h) == head + FreeMarks(xs[1..], h);
    } else {
      assert xs + ys == ys;
    }
  }

  /** Marks all strictly inside the bound are all kept. */
  lemma {:induction false} FreeMarksAllInside(s: seq<real>, h: real)
    requires forall k :: 0 <= k < |s| ==> Abs(s[k]) < h
    ensures FreeMarks(s, h) == s
  {
    if |s| > 0 {
      FreeMarksAllInside(s[1..], h);
    }
  }

  /** Marks all on or beyond the bound are all dropped. */
  lemma {:induction false} FreeMarksAllOutside(s: seq<real>, h: real)
    requires forall k :: 0 <= k < |s| ==> Abs(s[k]) >= h
    ensures FreeMarks(s, h) == []
  {
    if |s| > 0 {
      FreeMarksAllOutside(s[1..], h);
    }
  }

  /** Filtering one row `[[x] + l for x in s]` keeps the row over the free
      marks when l is free, and nothing otherwise. */
  lemma {:induction false} FilterRow(l: Point, s: seq<real>, b: Bounds)
    requires b.HasFirstAxis()
    ensures FilterFree(Row(l, s, Prepend), b) ==
            if IsFree(l, b) then Row(l, FreeMarks(s, b.high[0]), Prepend) else []
  {
    if |s| > 0 {
      var h := b.high[0];
      var head := Prepend(l, s[0]);
      var row := Row(l, s, Prepend);
      var tail := Row(l, s[1..], Prepend);
      FilterRow(l, s[1..], b);
      IsFreePrepend(l, s[0], b);
      assert row == [head] + tail;
      assert row[0] == head && row[1..] == tail;
      assert FilterFree(row, b) == (if IsFree(head, b) then [head] else []) + FilterFree(tail, b);
      if IsFree(l, b) && Abs(s[0]) < h {
        assert FreeMarks(s, h) == [s[0]] + FreeMarks(s[1..], h);
        RowCons(l, s[0], FreeMarks(s[1..], h), Prepend);
      } else if IsFree(l, b) {
        assert FreeMarks(s, h) == FreeMarks(s[1..], h);
      }
    }
  }

  /** Filtering a nested comprehension filters the outer list and the marks
      separately. */
  lemma {:induction false} FilterNested(outer: seq<Point>, s: seq<real>, b: Bounds)
    requires b.HasFirstAxis()
    ensures FilterFree(Nested(outer, s, Prepend), b) ==
            Nested(FilterFree(outer, b), FreeMarks(s, b.high[0]), Prepend)
  {
    if |outer| > 0 {
      var fm := FreeMarks(s, b.high[0]);
      FilterNested(outer[1..], s, b);
      FilterFreeConcat(Row(outer[0], s, Prepend), Nested(outer[1..], s, Prepend), b);
      FilterRow(outer[0], s, b);
      var kept := FilterFree(outer, b);
      if IsFree(outer[0], b) {
        assert kept[1..] == FilterFree(outer[1..], b);
      } else {
        assert kept == FilterFree(outer[1..], b);
      }
    }
  }

  /** The free states of a grid are exactly the grid over the free marks,
      in the same order: a state is free iff both of its coordinates are. */
  lemma FreeGridIsGridOfFreeMarks(n: nat, b: Bounds)
    requires b.HasFirstAxis()
    ensures FilterFree(RecAllStates(0, n, b), b) == GridOver(FreeMarks(AxisMarks(n, b), b.high[0]))
    ensures |FilterFree(RecAllStates(0, n, b), b)| ==
            |FreeMarks(AxisMarks(n, b), b.high[0])| * |FreeMarks(AxisMarks(n, b), b.high[0])|
  {
    var s := AxisMarks(n, b);
    var fm := FreeMarks(s, b.high[0]);
    assert IsFree([], b);
    FilterRow([], s, b);
    FilterNested(Row([], s, Prepend), s, b);
    NestedLength(Row([], fm, Prepend), fm, Prepend);
  }

  function MakePair(s1: Point, s2: Point): StatePair
  {
    (s1, s2)
  }

  /** `[(s1, s2) for s1 in states for s2 in states]`: every ordered pair,
      the pairs (s, s) included. */
  function AllPairs(states: seq<Point>): seq<StatePair>
  {
    Nested(states, states, MakePair)
  }

  /** k states give k * k pairs. */
  lemma AllPairsCount(states: seq<Point>)
    ensures |AllPairs(states)| == |states| * |states|
  {
    NestedLength(states, states, MakePair);
  }

  /** The pair at position `i * k + j` of k states is (states[i], states[j]):
      the start is the outer loop. */
  lemma AllPairsAt(states: seq<Point>, i: nat, j: nat)
    requires i < |states| && j < |states|
    ensures i * |states| + j < |AllPairs(states)|
    ensures AllPairs(states)[i * |states| + j] == (states[i], states[j])
  {
    NestedAt(states, states, MakePair, i, j);
  }

  /** A pair is listed exactly when both of its states are. */
  lemma AllPairsMember(states: seq<Point>, start: Point, goal: Point)
    ensures (start, goal) in AllPairs(states) <==> start in states && goal in states
  {
    NestedMember(states, states, MakePair, (start, goal));
  }
}
