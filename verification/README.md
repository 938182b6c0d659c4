# DVD logo corner-hit time field, modelled in Dafny

The application computes, and draws as a heat map, the time field of a
300 x 200 logo bouncing inside a 1920 x 1080 screen at speed 500. For a launch
angle `theta` that field holds, for every start position `(p, q)` of the
logo's corner on a `res x res` grid over `[0, L] x [0, M]` (with
`L = 1920 - 300`, `M = 1080 - 200`), an estimate of the earliest time at
which the corner reaches a corner of the screen. It is an estimate, not that
time itself: only finitely many mirror copies are searched, the test is
one-sided, and 5000 is a placeholder, not a hit time (see the quirks below).
The exact rule is this. It uses the unfolding
technique. The bouncing path is a straight line through mirrored copies of the
box. A candidate is a crossing of a copy boundary `x = n*L` or `y = m*M`, for
`n, m` in `-5 .. 5`, that lies in the future and at which the other coordinate,
folded with Python's `%`, is within 2% of the span. The entry is the least
candidate, or 5000 when none survives.

This project models that computation, `calculate_t_field` in `app.py`, over
exact reals:

- `Fold`: Python's `%` on floats, as a remainder in `[0, m)` (floor
  semantics, not Dafny's Euclidean operators), with its characterisation by
  the floor quotient.
- `Grid`: `numpy.linspace` with the end point included, including its error
  for a negative count.
- `Velocity`: the velocity clamp applied before any division.
- `Candidates`: the two crossing rules, the candidate lists the two inner
  loops build, and the set of accepted times they denote.
- `Cell`: the entry of one cell (least candidate or sentinel) and its
  properties.
- `Field`: the nested loops as methods, and the whole field computation.
- `DvdApp`: the application's constants, and a cell worked through by hand at
  `theta = pi/2`.

The box, the mirror-index bound, the sentinel and the clamp are parameters
(`Config`); `DvdApp.AppConfig` fixes them to the application's values (`L =
1620`, `M = 880`, tolerance 0.02, `K = 5`, sentinel 5000, clamp `1e-6`). The
velocity `(v cos theta, v sin theta)` arrives as two reals, because
trigonometry is not modelled.

The vertical rule is defined as the horizontal rule applied to the box, the
start position and the velocity with their axes exchanged (`SwapBox`,
`SwapMotion`). `Candidates.VerticalRule` states that this is exactly the
source's `t_v = (m*M - q)/vy` with the test on `p + vx*t_v` folded by `L`.

### Quirks of the code

The model keeps each of these as the code has it:

- **Clamp sign.** A velocity component smaller than `1e-6` in magnitude is set
  to `+1e-6` whatever its sign (`Velocity.ClampFlipsSmallNegative`).
- **Found times above 5000.** 5000 is stored only for a cell with no
  candidate. A found time is stored as it is, however large. For the velocity
  `(1e-6, 500)` the cell `(810, 240)` holds 810000000
  (`DvdApp.StraightUpCellIsFoundLate`).
- **Depth and the 5000 cells.** Searching more mirror indices never raises an
  entry that already holds a found time
  (`Cell.DeeperSearchNeverRaisesFoundTime`). It can turn a 5000 cell into a
  larger time: the same cell holds 5000 when only index 0 is searched
  (`DvdApp.DeeperSearchRaisesSentinelCell`).
- **Lower fold line only.** The fold test detects only the fold line below the
  coordinate. A folded coordinate just below a fold line is rejected, however
  close it is (`Candidates.AlignedMissesUpperSide`).

The worked cell is a property of `calculate_t_field`, not of a field the page
shows. `(810, 240)` is a grid point for `res = 23` (`p` index 11, `q` index 6;
`DvdApp.ExampleCellOnGrid`), but not for the selectable resolutions 50, 100,
150 and 200. `theta = pi/2` is not a value the angle slider's 0.01 steps
offer.

## Model

| member | source | states |
|---|---|---|
| Fold.Abs | app.py:46-47 | Python's `abs`: the result is non-negative and is `x` or `-x`, which pins it to the magnitude |
| Fold.Mod | app.py:58 | Python's `x % m` for `m > 0`: the result lies in `[0, m)` |
| Fold.ModIsFloorRemainder | app.py:58 | `x % m` equals `x - floor(x/m)*m`, Python's floor-division remainder |
| Fold.ModUnique | app.py:58 | if `x` lies in `[k*m, k*m + m)` then `x % m == x - k*m`, for every integer `k`, negative included |
| Fold.ModOfMultiple | app.py:58 | a whole multiple of the span folds to exactly 0 |
| Grid.Linspace | app.py:40-41 | `np.linspace(0, L, res)`: an error exactly when the count is negative, otherwise `res` samples, the first `start` and the last `stop` |
| Grid.LinspaceEvenlySpaced | app.py:40-41 | with two or more samples, consecutive samples are exactly `(stop - start)/(n - 1)` apart, the final one included |
| Grid.LinspaceMonotone | app.py:40-41 | for `start <= stop` a later sample is never smaller than an earlier one |
| Grid.LinspaceOrdered | app.py:40-41 | for `start <= stop` every sample lies in `[start, stop]` and the samples never decrease |
| Velocity.Clamp | app.py:46-47 | a component smaller than `1e-6` in magnitude becomes exactly `+1e-6`, any other is kept; so the result is nonzero, at least `1e-6` in magnitude, and positive whenever changed |
| Velocity.ClampVelocity | app.py:44-47 | both components of the clamped velocity are nonzero, so neither division by a velocity component can fail |
| Velocity.ClampFlipsSmallNegative | app.py:46-47 | a small negative component becomes `+1e-6`, reversing its direction |
| Candidates.Aligned | app.py:58 | the alignment test `abs(x % span) < span * tol`, shared by both loops (also app.py:65); a definition without a contract of its own, characterised by `Candidates.AlignedIsLowerBand` |
| Candidates.HorizontalTime | app.py:55 | `t_h`: at the returned time the unfolded `x`, `p + vx*t`, is exactly `n*L`, so it is the moment the path crosses that copy boundary |
| Candidates.HorizontalAccepts | app.py:55-59 | the `n` loop's two tests, `t_h > 0` and the alignment of `q_at_t` folded by `M`; a definition, restated in the loop's own variables by `Candidates.HorizontalTest` |
| Candidates.VerticalTime | app.py:62 | `t_v`: at the returned time the unfolded `y`, `q + vy*t`, is exactly `m*M` |
| Candidates.VerticalAccepts | app.py:62-66 | the `m` loop's two tests, `t_v > 0` and the alignment of `p_at_t` folded by `L`; a definition, restated by `Candidates.VerticalRule` and `Candidates.VerticalTest` |
| Candidates.AcceptedLiesAhead | app.py:55-63 | an accepted crossing's line lies on the side the velocity points to: `vx > 0` exactly when `n*L > p`, and `vy > 0` exactly when `m*M > q` |
| Candidates.HorizontalCandidates | app.py:54-59 | the `n` loop's list has at most one entry per index of the range |
| Candidates.VerticalCandidates | app.py:61-66 | the `m` loop's list has at most one entry per index of the range |
| Candidates.CellCandidates | app.py:52-66 | a cell's `t_candidates` has at most `2*(2K + 1)` entries, 22 in the application |
| Candidates.VerticalRule | app.py:61-66 | the axis-swapped horizontal rule is exactly the source's vertical rule: time `(m*M - q)/vy`, test on `p + vx*t` folded by `L` |
| Candidates.HorizontalTest | app.py:55-58 | a bridge, not a property: `HorizontalAccepts` written in the loop's own variables `t_h` and `q_at_t`, which `Field.HorizontalLoop` uses |
| Candidates.VerticalTest | app.py:62-65 | a bridge, not a property: `VerticalAccepts` written in the loop's own variables `t_v` and `p_at_t`, which `Field.VerticalLoop` uses |
| Candidates.HorizontalCandidatesMembers | app.py:54-59 | the `n` loop's list holds exactly the times of the accepted crossings `lo <= n < hi`, and all are positive |
| Candidates.VerticalCandidatesMembers | app.py:61-66 | the `m` loop's list holds exactly the times of the accepted crossings `lo <= m < hi`, and all are positive |
| Candidates.CellCandidatesMembers | app.py:52-66 | a cell's `t_candidates` holds exactly its accepted times, all positive, and is empty exactly when no index in `[-K, K]` is accepted on either axis |
| Candidates.AlignedIsLowerBand | app.py:58 | within one copy of the span, the test accepts exactly the band of width `span*tol` above the fold line |
| Candidates.AlignedMissesUpperSide | app.py:58 | for a tolerance of at most one half, the application's 0.02 included, a coordinate strictly within `span*tol` below a fold line is rejected: only the lower boundary is detected |
| Candidates.CrossingsSwapAxes | app.py:54-66 | exchanging the axes turns each horizontal crossing into the vertical crossing of the same index and back, time and verdict alike |
| Candidates.AcceptedSwapAxes | app.py:52-66 | exchanging the axes keeps the set of accepted times |
| Candidates.AcceptedGrowsWithDepth | app.py:54-66 | every time accepted with search depth `K` is still accepted with any deeper search |
| Cell.SeqMin | app.py:69 | Python's `min` of a non-empty list: an element of the list, no larger than any element |
| Cell.SeqMinAntitone | app.py:69 | the least element of a larger list is no larger: adding candidates can only lower or keep the minimum |
| Cell.CellTime | app.py:68-71 | every entry is strictly positive |
| Cell.CellTimeIsLeastAccepted | app.py:68-71 | the entry is the sentinel when nothing is accepted; otherwise it is an accepted time and no accepted time is smaller |
| Cell.CellTimeDeterminedByAccepted | app.py:52-71 | two cells with the same accepted times and sentinel hold the same entry, whatever order the loops produced them in |
| Cell.SentinelIffNoneAccepted | app.py:68-71 | when the sentinel is not itself an accepted time, the entry equals the sentinel iff no crossing survives |
| Cell.CellTimeTransposeSquare | app.py:50-71 | in a square box, swapping the two velocity components transposes the field: the entry at `(p, q)` under `(vx, vy)` equals the entry at `(q, p)` under `(vy, vx)` |
| Cell.CellTimeSwapAxes | app.py:50-71 | exchanging the axes of box, position and velocity leaves the entry unchanged |
| Cell.DeeperSearchNeverRaisesFoundTime | app.py:54-71 | for a cell that already has a candidate, searching more mirror indices never raises its entry |
| Cell.FoundTimeNotCapped | app.py:68-71 | when something survives and every accepted time exceeds a bound, the entry exceeds it: the sentinel does not cap found times |
| Field.HorizontalLoop | app.py:54-59 | the `n` loop, written as in the source, collects exactly the horizontal candidate list |
| Field.VerticalLoop | app.py:61-66 | the `m` loop appends exactly the vertical candidate list to what the `n` loop left |
| Field.CellValue | app.py:52-71 | one cell, computed as in the source, is the cell's entry, and it is positive |
| Field.FillColumn | app.py:51-71 | the inner loop fills entry `[j][i]` of every row with that cell's entry and leaves the other columns alone |
| Field.CalculateTField | app.py:39-73 | an error exactly for a negative resolution; otherwise the two axes are the linspace grids, the field is `res x res`, and entry `[j][i]` is the entry of start `(ps[i], qs[j])` under the clamped velocity, so each cell depends only on its own position and the shared velocity |
| DvdApp.AppConfig | app.py:34-35 | the application's spans are `L = 1620` and `M = 880`, and its setting is a valid configuration |
| DvdApp.ExampleCellOnGrid | app.py:40-41 | with `res = 23` the grids hold `p = 810` at index 11 and `q = 240` at index 6 |
| DvdApp.StraightUpVelocity | app.py:44-47 | at `theta = pi/2` the clamped velocity is `(1e-6, 500)` |
| DvdApp.StraightUpFirstCrossing | app.py:54-59 | in the straight-up cell `(810, 240)` the crossing `n = 1` at time 810000000 is accepted, since `q` has grown by a whole number of spans |
| DvdApp.StraightUpRejectsVertical | app.py:61-66 | in that cell every vertical crossing is rejected |
| DvdApp.StraightUpHorizontalIsLate | app.py:54-59 | in that cell every accepted horizontal crossing comes at time 810000000 or later |
| DvdApp.StraightUpAcceptedIsLate | app.py:52-66 | in that cell every accepted time is at least 810000000 |
| DvdApp.StraightUpCellIsFoundLate | app.py:50-71 | that cell's entry is 810000000, above the sentinel 5000 |
| DvdApp.DeeperSearchRaisesSentinelCell | app.py:54-71 | searching only index 0 leaves that cell at 5000, so the application's deeper search raises it |

## Left out

- The Streamlit page is not modelled: its set-up, the resolution and angle sliders, the load-estimate table and the info box. It is user interface around the computation.
- `st.cache_data` memoisation is not modelled. It only avoids recomputing a result that is a pure function of `(res, theta)`.
- The timing of the computation, the `log10(T + 1)` transform and the Plotly heat map are not modelled. They are presentation only.
- `np.cos` and `np.sin` are not modelled. The velocity components are inputs, so every `theta` is covered by covering every real velocity. At `theta = pi/2` the floating-point `vx = v * np.cos(th)` is about `3.1e-14`, not 0. Both are clamped the same way, which is why `DvdApp.StraightUpVelocity` takes 0.
- IEEE double rounding is not modelled. All arithmetic, including `%`, is exact real arithmetic. Near the tolerance edges or at very large times the floating-point program may decide differently. In particular `1e-6` is not exact in binary, so the source's own verdict for the cell `(810, 240)` at `theta = pi/2` may differ from the exact one proved in `DvdApp`.
- The NumPy array is modelled as a sequence of rows. `np.zeros` is the initial value, and every entry is overwritten by the loops.
- A non-integer or otherwise invalid resolution is not modelled. It is an integer from the selector, and only a negative count is an error case of `linspace`.
