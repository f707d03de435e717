# Price-impact chart: curve arithmetic and series sampling

A Dafny model of the numeric core of the price-impact chart in
`src/components/AreaChart.tsx`.

- **`Curve`** (`curve.dfy`) models the bonding curve:
  - `f`, the counter-reserve implied by the invariant (`F`);
  - `dydx`, its slope (`Dydx`);
  - the inverse of the slope used by `calculateX` (`CalculateXRadicand`);
  - the two normalised price-impact functions `priceImpactX` and `priceImpactY`.

  Pool parameters are the record `Params(px, py, x0, y0, cx, cy)`.
- **`Sampler`** (`sampler.dfy`) models `generateSeriesData` as an imperative loop. It is proved against the recursive specification function `Series`.
- **`Chart`** (`chart.dfy`) models the two calls that build the X series over `t ∈ [-1, 0]` and the Y series over `t ∈ [0, 1]`, each with 1000 steps.
- **`Wrappers`** (`wrappers.dfy`) holds `Option`.

JavaScript numbers are modelled as exact reals, and every division requires a non-zero divisor.

- **Callbacks.** The sampler's callback returns `Option<real>`. `None` stands for an evaluation that throws or produces a value the range filter can never accept (NaN, ±Infinity).
- **The `t = -1` limit.** At `t = -1` the X side's scaled reserve is exactly 0. In JavaScript `x0 / 0` is then `Infinity`, the slope is `-Infinity`, and `priceImpactX` returns 0, which the sampler plots. The chart's callback (`Chart.ImpactXAt`) models that limit explicitly through `Curve.LimitX`. The value is NaN when `cx = 1` (`0 * Infinity`), so the point is not plotted then. The Y side is symmetric at `t = 1`.
- **The centre value.** At the centre the impact functions return 1 (reference price over marginal price), not 0. The chart shows the price impact as `1 - value`. This model follows the code.
- **The end points.** A zero reserve is not an error. At `t = ∓1` the JavaScript value is 0 (NaN when that side's concentration is 1), and the end point is plotted accordingly.

## Model

| member | source | states |
|---|---|---|
| Curve.F | src/components/AreaChart.tsx:30-40 | At the centre reserve `x = x0` the implied counter-reserve is `y0`. |
| Curve.Dydx | src/components/AreaChart.tsx:42-51 | At `x = x0` the slope is `-(px/py)`, the reference price. For positive prices, `x0 ≠ 0` and `c ∈ [0, 1]` the slope is strictly negative. |
| Curve.DydxBracketsSecant | src/components/AreaChart.tsx:30-51 | `dydx` is the derivative of `f`. For `0 < a < b`, the secant slope of `f` over `[a, b]` lies between `dydx(a)` and `dydx(b)`. So `f` is convex and strictly decreasing. |
| Curve.FSecant | src/components/AreaChart.tsx:30-40 | Exact difference `f(a) - f(b)`: `-(px/py)·(c + (1-c)·(x0/a)(x0/b))·(a - b)`. |
| Curve.CalculateXRadicand | src/components/AreaChart.tsx:60-62 | The radicand `r` computed from a target slope is the squared ratio at which `dydx`'s formula gives that slope back: `-(px/py)·(c + (1-c)·r) = slope` whenever `py ≠ 0`. |
| Curve.RadicandOfSlope | src/components/AreaChart.tsx:53-64 | Feeding `dydx(x)` back through `calculateX`'s radicand yields `(x0/x)²`, the square of the ratio whose root `calculateX` takes. |
| Curve.SlopeOfRadicand | src/components/AreaChart.tsx:43-64 | Conversely, any `x` with `(x0/x)²` equal to the radicand of a target slope has exactly that slope. |
| Curve.PriceImpactX | src/components/AreaChart.tsx:66-77 | At the centre `t = 0` the X-side value is 1: no price movement. |
| Curve.PriceImpactY | src/components/AreaChart.tsx:79-90 | At the centre `t = 0` the Y-side value is 1. |
| Curve.LimitX | src/components/AreaChart.tsx:43-77 | The IEEE limit of `priceImpactX` at a scaled reserve of 0: it never overlaps the points where the exact value is defined. For valid parameters it holds exactly at `t = -1` with `cx ≠ 1`. |
| Curve.LimitY | src/components/AreaChart.tsx:43-90 | The same limit for `priceImpactY`: disjoint from the defined points, and for valid parameters exactly `t = 1` with `cy ≠ 1`. |
| Curve.DefinedXIff | src/components/AreaChart.tsx:67-77 | For valid parameters every divisor in `priceImpactX` is non-zero exactly when `t ≠ -1`. |
| Curve.DefinedYIff | src/components/AreaChart.tsx:80-90 | For valid parameters every divisor in `priceImpactY` is non-zero exactly when `t ≠ 1`. |
| Curve.PriceImpactXReciprocal | src/components/AreaChart.tsx:43-77 | The X-side value times the slope's blend factor at the scaled reserve is 1: the price ratio `px/py` cancels. |
| Curve.PriceImpactXClosedForm | src/components/AreaChart.tsx:67-77 | The X-side value is `1 / (cx + (1-cx)·(1/(t+1))²)`. Prices and reserves drop out. |
| Curve.PriceImpactYMirror | src/components/AreaChart.tsx:67-90 | The Y side equals the X side of the pool with X and Y swapped, at `-t`. They agree on where the value is defined, where the infinite-slope limit occurs, and on every value. |
| Curve.PriceImpactXBounds | src/components/AreaChart.tsx:67-77 | For valid parameters and `t ∈ (-1, 0]` the X-side value is in `(0, 1]`. It is strictly below 1 for `t < 0` when `cx < 1`. |
| Curve.PriceImpactYBounds | src/components/AreaChart.tsx:80-90 | For valid parameters and `t ∈ [0, 1)` the Y-side value is in `(0, 1]`. It is strictly below 1 for `t > 0` when `cy < 1`. |
| Curve.PriceImpactXMonotone | src/components/AreaChart.tsx:67-77 | On `(-1, 0]` the X-side value is non-decreasing in `t`, so the displayed impact grows with trade size. |
| Curve.PriceImpactYMonotone | src/components/AreaChart.tsx:80-90 | On `[0, 1)` the Y-side value is non-increasing in `t`. |
| Curve.ScaledXOrder | src/components/AreaChart.tsx:68 | Positions `-1 < t1 ≤ t2 ≤ 0` scale to reserves `0 < s1 ≤ s2 ≤ x0`. |
| Curve.Swap | src/components/AreaChart.tsx:80-90 | Swapping the roles of X and Y preserves the parameter ranges. |
| Sampler.Candidate | src/components/AreaChart.tsx:99-102 | The `i`-th sample position `xStart + i·dx`. Position 0 is `xStart` and position `steps` is exactly `xEnd`, so both ends are sampled. |
| Sampler.Series | src/components/AreaChart.tsx:98-113 | The pairs kept from the first `n` positions, in visiting order. There are at most `n` of them. |
| Sampler.GenerateSeriesData | src/components/AreaChart.tsx:92-114 | The loop returns `Series` of its inputs: at most `steps + 1` pairs. Each pair `(x, y)` has `fn(x) = y` with `y ∈ [0, 1]` at one of the sample positions. Every accepted position is present, and positions strictly increase when `xStart < xEnd`. |
| Sampler.KeptSpec | src/components/AreaChart.tsx:101-111 | The kept sample indices are strictly increasing and below `n`. They are exactly the indices whose evaluation is in `[0, 1]`. |
| Sampler.SeriesIsKeptPoints | src/components/AreaChart.tsx:101-111 | The series is, one for one, the points `(x_i, fn(x_i))` of the kept indices. |
| Sampler.SeriesFacts | src/components/AreaChart.tsx:92-114 | The properties `GenerateSeriesData` promises, proved of `Series` for any prefix length. |
| Sampler.CandidateIncreasing | src/components/AreaChart.tsx:99-102 | With `xStart < xEnd` the positions `xStart + i·dx` strictly increase with `i`. |
| Sampler.KeptWindow | src/components/AreaChart.tsx:101-111 | When exactly the indices in `[lo, hi)` are accepted, the kept indices are that window. |
| Chart.ChartSeries | src/components/AreaChart.tsx:132-133 | Both series come from the sampler at 1000 steps. For valid parameters: the X series has 1001 points (1000 when `cx = 1`); it ends at the centre `(0, 1)` and starts at `(-1, 0)` when `cx ≠ 1`; the Y series mirrors that. |
| Chart.ImpactXAt | src/components/AreaChart.tsx:132 | The X-side callback as the sampler sees it. It gives 1 at the centre whenever `x0`, `px` and `py` are non-zero. For valid parameters it gives 0 at `t = -1`, or NaN (`None`) when `cx = 1`. |
| Chart.ImpactYAt | src/components/AreaChart.tsx:133 | The Y-side callback. It gives 1 at the centre whenever `y0`, `px` and `py` are non-zero. For valid parameters it gives 0 at `t = 1`, or NaN (`None`) when `cy = 1`. |
| Chart.ImpactMirror | src/components/AreaChart.tsx:132-133 | The Y-side callback at `t` is the X-side callback of the swapped pool at `-t`, including the limit points and rejected positions. |
| Chart.XAccepts | src/components/AreaChart.tsx:101-111 | For valid parameters the X-side callback's value is in range at every position except `t = -1`. It is in range at `t = -1` (value 0) exactly when `cx ≠ 1`. |
| Chart.YAccepts | src/components/AreaChart.tsx:101-111 | For valid parameters the Y-side callback's value is in range at every position except `t = 1`. It is in range at `t = 1` (value 0) exactly when `cy ≠ 1`. |
| Chart.XSeriesPoints | src/components/AreaChart.tsx:132 | For valid parameters the X series is the window of sample points from `t = -1` to `0`. It starts from the second sample when `cx = 1`. |
| Chart.XSeriesShape | src/components/AreaChart.tsx:132 | The X series' points are `(t, priceImpactX(t))` for every position in `(-1, 0]`, `(-1, 0)` first when `cx ≠ 1`, and the centre `(0, 1)` last. |
| Chart.YSeriesPoints | src/components/AreaChart.tsx:133 | For valid parameters the Y series is the window of sample points from `t = 0` to `1`. It stops one sample short when `cy = 1`. |
| Chart.YSeriesShape | src/components/AreaChart.tsx:133 | The Y series' points are `(t, priceImpactY(t))` for every position in `[0, 1)`, with the centre `(0, 1)` first and `(1, 0)` last when `cy ≠ 1`. |
| Chart.SeriesMirror | src/components/AreaChart.tsx:132-133 | The Y series is the swapped pool's X series read backwards, with positions negated and values unchanged. |
| Chart.MirrorPosition | src/components/AreaChart.tsx:99-102 | The `k`-th Y position is minus the `(steps - k)`-th X position. |
| Chart.FourStepExample | src/components/AreaChart.tsx:119-132 | Pool `x0 = 5, y0 = 10, px = 2, py = 1, cx = 0` in 4 steps gives `[(-1, 0), (-0.75, 0.0625), (-0.5, 0.25), (-0.25, 0.5625), (0, 1)]`. These are the raw values; the chart labels each point with `1 - value`. |

## Left out

- IEEE-754 floating point is modelled over exact reals:
  - rounding in `i * dx` and in the curve arithmetic is not modelled;
  - overflow to `Infinity` at very large or very small reserves is not modelled;
  - the only non-finite case modelled is the exact zero reserve at `t = ∓1`.
- `Math.sqrt` in `calculateX` is not modelled. `CalculateXRadicand` models the expression under the root. The round trip with `Dydx` is stated on the squared ratio `(x0/x)²`, because the model has no real square root.
- `generateSeriesData`'s `catch` branch is modelled as a callback returning `None`. JavaScript arithmetic in these callbacks never throws, so the branch is only reached through that abstraction.
- Sampler.GenerateSeriesData: `steps` must be a positive natural. JavaScript would also accept 0 (giving `dx = ±Infinity`, or NaN when `xStart = xEnd`, and one NaN position), negative numbers and fractions.
- Chart.ChartSeries: the React component around the two calls is not modelled, and neither are the slider state `cx`/`cy`, the Highcharts options, axis labels, tooltips or the render callback. They are UI with no numeric contract. The parameters are taken as a method argument instead.
- The unused `State`/`currentPriceX` value and the commented-out plot line are not modelled.
