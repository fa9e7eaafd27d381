# Fixed start/goal pairs for the 2-D point robot

The demo `2DMotionPointRobot.py` plans a path for a point robot in SE(2).
It does not hand-pick the start and goal. It generates them:

- `_rec_all_states` lays a regular grid of `grid_marks` marks per axis over
  `[bounds.low[0], bounds.high[0]]` and lists every grid state.
- `is_free` keeps a state when every coordinate lies strictly inside
  `(-bounds.high[0], bounds.high[0])`.
- `get_fixed_start_goal_pairs` starts at 11 marks. It pairs every free
  state with every free state as an ordered (start, goal) pair. While that
  gives fewer than 1000 pairs, it refines the grid by one mark and tries
  again.
- `plan` sets both axes to `[-1, 1]` and uses pair number 100.

This project models those three functions and the use `plan` makes of
them, over exact real arithmetic. It is split into four modules:

- `EvenMarks`: `np.linspace` with its default closed end point
  (`EvenMarks.Linspace` models the call at line 158).
- `Comprehension`: the two-level list comprehension
  `[f(a, b) for a in outer for b in inner]`. It is defined once
  (`Comprehension.Nested`, one row per outer element built by
  `Comprehension.Row`) and used both for the grid and for the pair list.
- `Grid`: `Grid.RecAllStates` models `_rec_all_states`, `Grid.IsFree`
  models `is_free`, `Grid.FilterFree` models the filter at line 169 and
  `Grid.AllPairs` models the pair list at line 170.
- `StartGoal`: `StartGoal.FixedStartGoalPairs` models
  `get_fixed_start_goal_pairs`; one pass of its loop body (lines 168-170)
  is `StartGoal.PairsAt`. `StartGoal.PlanStartAndGoal` models the choice of
  pair 100 in `plan`.

The loop's termination condition is characterised exactly. It stops if and
only if `bounds.high[0] > 0` and `bounds.low[0] < bounds.high[0]`
(`RoomInside`):

- When that holds, `SufficientMarks` names a resolution whose first pass
  already gives at least 1000 pairs.
- When it fails, `NoFreeStatesWithoutRoom` shows that every pass yields no
  pairs at all, so the source would loop forever.

`FixedStartGoalPairs` therefore requires exactly `RoomInside`.

A coordinate equal to the bound in absolute value is not free. So the two
end marks of a symmetric grid are always dropped: 11 marks over `[-1, 1]`
leave 9 free marks, 81 free states and 6561 pairs.

## Model

| member | source | states |
|---|---|---|
| EvenMarks.Linspace | 2DMotionPointRobot.py:158 | `np.linspace(lo, hi, n)` has n marks, the first is `lo` and, with two or more marks, the last is `hi` |
| EvenMarks.LinspaceSpacing | 2DMotionPointRobot.py:158 | any two marks are a whole number of equal steps apart, so the marks strictly increase when lo < hi |
| EvenMarks.MarkWithin | 2DMotionPointRobot.py:158 | every mark lies between lo and hi, whichever of the two is larger |
| EvenMarks.MarkFromTop | 2DMotionPointRobot.py:158 | the mark j places below the last is `hi - j * step` |
| Comprehension.RowAt | 2DMotionPointRobot.py:162 | the j-th result of `[f(a, b) for b in inner]` is `f(a, inner[j])` |
| Comprehension.NestedLength | 2DMotionPointRobot.py:162 | the two-level comprehension has one result per (outer, inner) combination |
| Comprehension.NestedAt | 2DMotionPointRobot.py:162 | result `i * m + j`, for m inner elements, combines outer element i with inner element j, so the inner loop varies fastest |
| Comprehension.NestedMember | 2DMotionPointRobot.py:162 | a value is in the comprehension iff it is `f(a, b)` for some listed a and b |
| Grid.RecAllStates | 2DMotionPointRobot.py:156-162 | the states for axes index .. 1 number n to the power of the axes left |
| Grid.RecAllStatesShape | 2DMotionPointRobot.py:156-162 | every such state has one coordinate per remaining axis, and each coordinate is one of the linspace marks |
| Grid.GridOverAt | 2DMotionPointRobot.py:160-162 | the full grid over k marks s has k^2 states, and the state at `i * k + j` is `[s[j], s[i]]`, so x varies fastest |
| Grid.RecAllStatesAt | 2DMotionPointRobot.py:158-162 | state `i * n + j` of `_rec_all_states(0, n, bounds)` is `[s[j], s[i]]` for the marks s: the first coordinate varies fastest |
| Grid.IsFreeIff | 2DMotionPointRobot.py:174-182 | a state is free iff every coordinate is strictly inside `(-high[0], high[0])`; `low` plays no part |
| Grid.IsFreeNegate | 2DMotionPointRobot.py:176 | negating one coordinate does not change freeness |
| Grid.FilterFreeMember | 2DMotionPointRobot.py:169 | a state survives the filter iff it was listed and is free |
| Grid.FilterFreeConcat | 2DMotionPointRobot.py:169 | the filter commutes with concatenation, so kept states keep their order |
| Grid.FreeMarksMember | 2DMotionPointRobot.py:176 | a mark is free iff it was listed and is strictly inside `(-h, h)` |
| Grid.FreeMarksConcat | 2DMotionPointRobot.py:176 | the free marks of a concatenation are those of each part, in order |
| Grid.FreeMarksAllInside | 2DMotionPointRobot.py:176 | marks all strictly inside the bound are all kept |
| Grid.FreeMarksAllOutside | 2DMotionPointRobot.py:176 | marks all on or beyond the bound are all dropped |
| Grid.FilterRow | 2DMotionPointRobot.py:162-169 | filtering one row `[[x] + l for x in s]` gives the row over the free marks when l is free, and nothing otherwise |
| Grid.FilterNested | 2DMotionPointRobot.py:162-169 | filtering the nested comprehension filters the outer states and the marks separately |
| Grid.FreeGridIsGridOfFreeMarks | 2DMotionPointRobot.py:168-169 | the free grid states are exactly the grid over the free marks, in the same order, m * m of them for m free marks |
| Grid.AllPairsCount | 2DMotionPointRobot.py:170 | k free states give k * k ordered pairs |
| Grid.AllPairsAt | 2DMotionPointRobot.py:170 | pair `i * k + j` is (state i, state j), so the start is the outer loop |
| Grid.AllPairsMember | 2DMotionPointRobot.py:170 | (start, goal) is listed iff both states are listed, including start == goal |
| StartGoal.PairsAtCount | 2DMotionPointRobot.py:168-170 | one pass with m free marks gives m^2 free states and m^4 pairs, and every pair joins two free grid states |
| StartGoal.NoFreeStatesWithoutRoom | 2DMotionPointRobot.py:164-176 | unless high[0] > 0 and low[0] < high[0], no grid state is free at any resolution, so the loop never stops |
| StartGoal.SixFreeMarks | 2DMotionPointRobot.py:174-176 | when high > 0, low < high and n >= 7, once 3 * (high - low) < (n - 1) * high, at least six marks per axis are free |
| StartGoal.SufficientMarks | 2DMotionPointRobot.py:166-171 | when there is room inside the bounds, some resolution from 11 up gives at least 1000 pairs |
| StartGoal.FixedStartGoalPairs | 2DMotionPointRobot.py:164-172 | the loop returns at least 1000 pairs, each joining two free states, and they are the pairs of the first resolution from 11 marks upward that reaches 1000 |
| StartGoal.SymmetricFreeMarks | 2DMotionPointRobot.py:174-176 | over `[-h, h]` every mark but the two end marks is free, in order |
| StartGoal.SymmetricCounts | 2DMotionPointRobot.py:156-176 | over `[-h, h]` n marks give n - 2 free marks, (n - 2)^2 free states and (n - 2)^4 pairs |
| StartGoal.PlanBoundsFirstPass | 2DMotionPointRobot.py:82-84 | with the bounds of `plan` the first pass has 9 free marks, 81 free states and 6561 pairs |
| StartGoal.FirstFreeUnitMarks | 2DMotionPointRobot.py:158 | the first free marks over `[-1, 1]` with 11 marks are -0.8, -0.6 and -0.4 |
| StartGoal.PlanHundredthPair | 2DMotionPointRobot.py:115-129 | pair 100 of that pass is ((-0.6, -0.8), (-0.6, -0.4)) |
| StartGoal.PlanStartAndGoal | 2DMotionPointRobot.py:115-129 | the start and goal `plan` takes from the generated list are (-0.6, -0.8) and (-0.6, -0.4) |

## Left out

- `plan` apart from choosing pair 100: the SE(2) space, the control space, the propagator, the RRT planner and the printing are calls into OMPL. They are not part of this model.
- `propagate`, `isStateValid` and `MyDecomposition` are outside the start/goal generator. They are not modelled. `propagate` is floating-point Euler integration, `isStateValid` wraps a library bounds check, and `MyDecomposition` is unused.
- The import fallback and the `sys.path` set-up are environment plumbing, not logic.
- The yaw of the chosen start and goal is always 0 in `plan`. `PlanStartAndGoal` returns only the two coordinates.
- Floating point: marks are exact reals `lo + k * (hi - lo) / (n - 1)`. numpy's rounding of the inner marks is not modelled. The end marks are exact in both.
- `PlanStartAndGoal` and the lemmas about `plan`'s bounds take any bounds whose axis 0 is `[-1, 1]`. Only axis 0 is ever read, so this covers the bounds `plan` builds.
- `Grid.RecAllStates` requires `index < 2`. In the source a larger index never reaches the base case.
- `l[:]` copies a list, and the pairs are wrapped in `np.array`. Neither changes any value, so both are left out.
- The obstacle test in `is_free` is commented out in the source, so it is not modelled.
