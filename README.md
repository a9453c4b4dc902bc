# SmoothLife kernel in Dafny

This project models the simulation kernel of `smoothlife_term.c`. The program runs SmoothLife, a continuous-state cellular automaton, on a 100×100 torus. Every cell holds an intensity in [0,1]. One step has two phases:

- **Convolution.** For every cell, the program averages its neighbours over two regions: an inner disk of radius `ra/3` (the filling `m`) and an outer ring of radius `ra` (the filling `n`). It passes both through the nested-sigmoid transition function `s(n, m)` and stores `2*s - 1` in a separate delta buffer.
- **Integration.** It adds `dt` times the delta to each cell and clamps the result to [0,1].

A centred block of random values seeds the grid. After each step, a text renderer prints every cell as a glyph from `" .-=coaA@#"`.

The modules follow the program's pieces:

- `Torus`: `emod`, built on C's truncating `%`.
- `Transition`: `sigma`, `sigma_n`, `sigma_m` and `s`, over exact reals. `expf` is a parameter `exp`, a positive real function.
- `GridState`: the grid as a `height × width` `array2<real>`, with toroidal lookup and the position of the seeded block.
- `Convolution`: the scan of offsets, the classification into rings, the accumulators `m, M, n, N`, and the delta of one cell. Each is given both as specification functions and as the loop methods that compute them.
- `Integrator`: `clamp` and the Euler update.
- `Render`: the plain (non-`ANSI_TERM`) branch of `display_grid`. Its output is a character sequence.
- `SmoothLife`: the class `Simulation`. It holds the two buffers and the parameters. Its methods are `random_grid`, `compute_grid_diff` and `apply_grid_diff`, which update the buffers in place, and one step of the main loop.

The parameters (`ra = 11`, `alpha_n`, `alpha_m`, `b1`, `b2`, `d1`, `d2`, `dt`) are the record `Transition.Params`. The program's own constants are `Transition.Reference`.

Two facts about the code shape the model:

- **Empty ring.** The code does not guard against an empty ring. With `ra < 2` the outer ring is empty, so `N` is 0 and `n /= N` divides by zero, which gives NaN in C's float arithmetic. The model makes `ra >= 2` a precondition (`ValidParams`). `Convolution.RingsNonEmptyIff` proves that this is exactly the condition for both rings to be non-empty.
- **Shape of `s`.** `s` is a band in `n`, not a monotone function: it is a rising step times a falling step. The model proves that `s` falls below one half on both sides of the band (`Transition.SOutsideBand`).

## Model

| member | source | states |
|---|---|---|
| Torus.CRem | smoothlife_term.c:75 | C's `a % b` truncates toward zero: the remainder has the sign of `a` and is smaller in magnitude than `b` |
| Torus.CRemCongruent | smoothlife_term.c:75 | `a - a % b` is a multiple of `b` |
| Torus.Emod | smoothlife_term.c:73-76 | `emod(a, b)` lies in `[0, b)` for `b > 0` and in `(b, 0]` for `b < 0` |
| Torus.EmodResidue | smoothlife_term.c:73-76 | `emod(a, b)` is congruent to `a` modulo `b`; for `b > 0` it is the mathematical residue `a mod b`, and it is `a` itself when `0 <= a < b` |
| GridState.Neighbour | smoothlife_term.c:108-111 | the wrapped lookup `grid[emod(cy+dy, H)][emod(cx+dx, W)]` is always in bounds, and it is in [0,1] when the grid is |
| GridState.NeighbourWraps | smoothlife_term.c:108-109 | the lookup reads the cell at the residues of the shifted coordinates; offset (1,1) of the last cell is cell (0,0) |
| GridState.SeedStart | smoothlife_term.c:36-37 | the seeded block starts at `n/2 - (n/3)/2`, fits inside the axis, and is centred (its two margins differ by at most 2) |
| Transition.Sigma | smoothlife_term.c:78-81 | `sigma` lies strictly between 0 and 1 for any positive `exp` |
| Transition.SigmaN | smoothlife_term.c:83-86 | `sigma_n` is in (0,1) and lies below both its rising factor and its falling factor |
| Transition.SigmaM | smoothlife_term.c:88-91 | `sigma_m(x, y, m)` is a convex blend: it lies between `x` and `y`, strictly between when they differ |
| Transition.S | smoothlife_term.c:93-96 | `s(n, m)` lies in (0,1) |
| Transition.ReferenceThresholds | smoothlife_term.c:16-23 | with the program's constants the parameters are valid, the blended lower threshold lies in `[d1, b1]` and the upper one in `[b2, d2]`, for every `m` |
| Transition.SigmaMidpoint | smoothlife_term.c:78-81 | `sigma(a, a, alpha) = 1/2` when `exp(0) = 1` |
| Transition.SigmaMonotone | smoothlife_term.c:78-81 | for `alpha > 0` and an increasing `exp`, `sigma` is non-decreasing in `x` |
| Transition.SigmaNOutsideBand | smoothlife_term.c:83-86 | outside `[a, b]`, `sigma_n(x, a, b) < 1/2` |
| Transition.SOutsideBand | smoothlife_term.c:93-96 | `s(n, m) < 1/2` whenever `n` lies outside the band between the two blended thresholds |
| Transition.ReferenceOutsideBand | smoothlife_term.c:16-96 | with the program's constants, `s(n, m) < 1/2` whenever `n <= d1` or `n >= d2`, for every `m` |
| Convolution.SquareIsProduct | smoothlife_term.c:110 | the recursive square used in the ring test equals `x * x` |
| Convolution.ClassifyMatchesRealTest | smoothlife_term.c:104-113 | an offset is in the inner disk iff `dx²+dy² <= (ra/3)²`, in the outer ring iff `(ra/3)² < dx²+dy² <= ra²`, and in neither otherwise, so the two rings are disjoint |
| Convolution.VisitCounts | smoothlife_term.c:110-116 | a visited offset adds one to `M` exactly when it is in the inner disk and one to `N` exactly when it is in the outer ring, never to both |
| Convolution.VisitAdds | smoothlife_term.c:108-116 | visiting an offset adds the wrapped cell `grid[emod(cy+dy, H)][emod(cx+dx, W)]` to `m` and one to `M` in the inner disk, the same to `n` and `N` in the outer ring, and nothing beyond radius `ra` |
| Convolution.NeighbourhoodCounts | smoothlife_term.c:106-118 | `M` and `N` after the scan are the ring sizes `InnerCount(ra)` and `OuterCount(ra)`, the same for every cell and every grid |
| Convolution.RingsNonEmptyIff | smoothlife_term.c:104-120 | `M > 0` iff `ra >= 1`, and `N > 0` iff `ra >= 2`; at `ra = 1` only (0,0) is scanned and `n /= N` divides by zero |
| Convolution.OuterAtEdge | smoothlife_term.c:106-113 | for `ra >= 2` the last scanned axis offset `(ra-1, 0)` is in the outer ring |
| Convolution.InnerFilling | smoothlife_term.c:119 | the inner average `m = m / M` is in [0,1] when the grid is |
| Convolution.OuterFilling | smoothlife_term.c:120 | the outer average `n = n / N` is in [0,1] when the grid is |
| Convolution.CellDelta | smoothlife_term.c:121-122 | the stored delta `2*s(n, m) - 1` lies strictly between -1 and 1 |
| Convolution.ReferenceDeltaNegative | smoothlife_term.c:16-122 | with the program's constants, a cell whose outer filling is at most `d1` or at least `d2` gets a negative delta, whatever its inner disk holds |
| Convolution.CellDeltaLocal | smoothlife_term.c:106-118 | a cell's delta depends only on the grid at scanned offsets in the disk or the ring; `(ra, 0)` and the corners beyond `ra` are never read |
| Convolution.ScanRow | smoothlife_term.c:107-117 | the innermost loop adds row `dy`'s inner and outer cells to the accumulators: the result is the accumulators plus `RowSums` of that row |
| Convolution.SumNeighbourhood | smoothlife_term.c:102-118 | the two scan loops produce `NeighbourhoodSums`, with counts equal to the grid-independent ring sizes |
| Integrator.Clamp | smoothlife_term.c:127-131 | for `l <= h` the result is in `[l, h]`, equal to `v` when `v` is already there, `l` below and `h` above; with `h < l` the result is `h` |
| Integrator.ClampIdempotent | smoothlife_term.c:127-131 | clamping twice is clamping once |
| Integrator.ClampMonotone | smoothlife_term.c:127-131 | clamping preserves order |
| Integrator.EulerStep | smoothlife_term.c:137-138 | the update `clamp(v + dt*d, 0, 1)` is in [0,1]; it equals `v + dt*d` when that is in range, and 0 or 1 when it under- or overshoots |
| Integrator.ClampAt | smoothlife_term.c:127-131 | `clamp(&a[y][x], l, h)` stores the clamped value in that cell and changes no other cell |
| Render.TruncToIntBounds | smoothlife_term.c:62 | the `(int)` cast truncates toward zero |
| Render.GlyphIndex | smoothlife_term.c:62 | `(int)(v * (level_count - 1))` is a palette index in [0,9] for every intensity in [0,1] |
| Render.Glyph | smoothlife_term.c:62 | an intensity in [0,1] draws a visible palette glyph, 0 the blank and 1 the `#`; an intensity in `[10/9, 11/9)` draws the array's NUL terminator |
| Render.GlyphIndexRange | smoothlife_term.c:11-12 | intensity 0 gives index 0 and 1 gives index 9; since the cast truncates toward zero, the index is in the ten-glyph palette exactly when `-1/9 < v < 10/9`, and within the eleven-element array `level` exactly when `-1/9 < v < 11/9` |
| Render.GlyphIndexMonotone | smoothlife_term.c:62 | a brighter cell never gets a darker glyph |
| Render.UnitRangeRenderable | smoothlife_term.c:62 | every cell of a grid in [0,1] indexes the array `level` in bounds |
| Render.WrittenLength | smoothlife_term.c:60-67 | after the escape, every finished line is `2*W + 1` characters and every cell adds two |
| Render.WrittenExtends | smoothlife_term.c:60-67 | output is only appended: what is written by one cell is a prefix of what is written by any later cell |
| Render.FrameAt | smoothlife_term.c:45-67 | the frame is the escape followed by `H` lines of `2*W + 1` characters; cell `(x, y)` appears twice at offsets `2x` and `2x+1` of its line, and each line ends in `'\n'` |
| Render.DisplayGrid | smoothlife_term.c:45-67 | on a renderable grid the row and column loops produce exactly `Frame(g)` |
| SmoothLife.Simulation.constructor | smoothlife_term.c:14-15 | both buffers start zeroed, with the given dimensions |
| SmoothLife.Simulation.RandomGrid | smoothlife_term.c:30-41 | each cell of the centred `(W/3) × (H/3)` block gets its own draw, row by row; every other cell keeps its value; with draws in [0,1] a grid in [0,1] stays there |
| SmoothLife.Simulation.ComputeGridDiff | smoothlife_term.c:98-125 | every `grid_diff` cell is set to `CellDelta` of the grid as it was at the start, and `grid` is not modified |
| SmoothLife.Simulation.ApplyGridDiff | smoothlife_term.c:133-141 | every cell becomes `EulerStep` of its own old value and its own delta, so the grid ends in [0,1]; `grid_diff` is not modified |
| SmoothLife.Simulation.Step | smoothlife_term.c:153-155 | one iteration of the main loop: deltas from the pre-step grid, then the update; the grid ends in [0,1] whatever it held |

## Left out

- `main` (smoothlife_term.c:143-160) is left out: the infinite loop, `srand(time(0))` and the `setvbuf` on a stack buffer. Only one iteration of the loop is modelled, as `Simulation.Step`, without the display call.
- `rand_float` (smoothlife_term.c:25-28) calls the C library's `rand`. `RandomGrid` takes the draws as an input `draws[j][i]` instead.
- The `ANSI_TERM` branch of `display_grid` (smoothlife_term.c:47-58) is terminal escape-sequence I/O and is left out. `fputs`, `fputc` and `fflush` are not modelled as effects: `DisplayGrid` returns the characters the plain branch writes.
- Render.Glyph: `level` holds the ten glyphs and a NUL terminator. Index 10 prints that NUL, which the model does too. Indices below 0 or above 10 read past `level` in the source, and the model draws a blank for them. `DisplayGrid` requires `Renderable`, so no such read happens; every grid in [0,1] is renderable (`UnitRangeRenderable`).
- Floating point is exact reals throughout. Rounding in the sums and averages is not modelled, nor are NaN and infinities (`clamp` lets NaN through), nor the float `M` and `N` (here natural numbers).
- Transition.Sigma: `expf` is a parameter `exp`; the model assumes only that it is positive, not its actual values. A few lemmas also require it to be increasing with `exp(0) = 1`.
- Transition.ValidParams: `ra` is integer-valued. The source's float `ra` is truncated by the loop bound `-(ra - 1)`, and that truncation is not modelled. `ri*ri` with `ri = ra/3` is compared exactly, as `9*(dx²+dy²) <= ra²`.
- Torus.Emod: the C `int` overflow of `a % b + b` for values near `INT_MAX` is not modelled; indices here stay small.
- The division by zero at `n /= N` for `ra < 2` is excluded by the precondition `ValidParams` instead of being modelled as NaN.
- Convolution.ScanRow and Convolution.SumNeighbourhood split the source's four nested loops in `compute_grid_diff` into a method per inner level. The four accumulators `m, M, n, N` are one record.
- Performance of the `O(W·H·ra²)` convolution is not a behavioural property and is left out.
