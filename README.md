# Linear interpolation with one-hot reads (`linear_interpolation_v2.interpolate`)

This project models `interpolate` from TF Quant Finance in Dafny.
The function does piecewise-linear interpolation through knots `(x_data[i], y_data[i])`.
Below the first knot it extrapolates linearly with `left_slope`, and above the last knot with `right_slope`.
For each query point it does five things:

- it finds the point's place among the knots with a left-sided sorted search;
- it caps the two neighbour indices so that they stay in bounds;
- it reads the neighbouring knots by multiplying with one-hot encodings and summing;
- it guards the denominator against zero on the end branches;
- it selects between the left-extrapolation, right-extrapolation and interior values.

The model covers one batch row: query points `x`, and knots `xData`, `yData` of equal, non-zero length.
Values are mathematical reals.

Files:

- `search_sorted.dfy` (module `SearchSorted`): the left-sided search, modelled as a lower-bound binary search. It is proved to return the number of knots strictly below the query point, which is the first index whose knot is not below it.
- `linear_interpolation.dfy` (module `LinearInterpolation`): argument validation, index capping, one-hot reads, the guarded denominator, the per-point value, the row and batch functions, and their properties.
- `doc_example.dfy` (module `InterpolationExample`): the example from the function's documentation, proved with exact rationals.

The source evaluates all three candidate values before selecting one, as `tf.where` does.
The model does the same: `InterpolatePoint` computes the interior quotient on every branch.
Dafny therefore checks that every read is in bounds and that the division is by a non-zero number on every branch, not only the selected one.

Duplicate knots: at a query equal to a repeated x-coordinate, the left-sided search stops at the first knot with that coordinate.
The result is therefore the y-value of that first knot (`RepeatedKnot`).
"The interpolant passes through every knot" holds exactly for knots that do not repeat the previous x-coordinate (`ThroughKnot`), so for all knots when `xData` is strictly increasing.

## Model

| member | source | states |
|---|---|---|
| `SearchSorted.LowerBound` | tf_quant_finance/math/interpolation/linear/linear_interpolation_v2.py:121 | the binary search behind `searchsorted` always returns an index inside the range it searches |
| `SearchSorted.SearchSortedLeft` | tf_quant_finance/math/interpolation/linear/linear_interpolation_v2.py:121-124 | the upper index lies in `[0, size]` for any knots |
| `SearchSorted.SearchSortedLeftIsCountLess` | tf_quant_finance/math/interpolation/linear/linear_interpolation_v2.py:121 | on non-decreasing knots, every knot before the upper index is `< x` and every knot from it on is `>= x`, and the index equals the number of knots strictly less than `x` |
| `SearchSorted.SearchSortedLeftAtMin` | tf_quant_finance/math/interpolation/linear/linear_interpolation_v2.py:121-123 | `at_min` (upper index 0) holds exactly when `x <= x_data[0]` |
| `SearchSorted.SearchSortedLeftAtMax` | tf_quant_finance/math/interpolation/linear/linear_interpolation_v2.py:121-124 | `at_max` (upper index `size`) holds exactly when `x > x_data[size-1]` |
| `SearchSorted.NonDecreasingIsSorted` | tf_quant_finance/math/interpolation/linear/linear_interpolation_v2.py:108-113 | non-negative adjacent differences, which is what validation checks, give `x_data[i] <= x_data[j]` for all `i <= j` |
| `LinearInterpolation.FirstDescent` | tf_quant_finance/math/interpolation/linear/linear_interpolation_v2.py:109-113 | finds a negative adjacent difference exactly when one exists, and reports the position of the first one |
| `LinearInterpolation.ValidateArgs` | tf_quant_finance/math/interpolation/linear/linear_interpolation_v2.py:107-117 | validation passes exactly when `x_data` is non-decreasing and the two shapes are equal; an unsorted `x_data` is reported as such |
| `LinearInterpolation.InterpolateValidated` | tf_quant_finance/math/interpolation/linear/linear_interpolation_v2.py:106-119 | with `validate_args`, the call fails exactly when a validation assertion fails, reporting the error `ValidateArgs` finds; otherwise it returns exactly the unvalidated row result, one value per query point |
| `LinearInterpolation.CappedLower` | tf_quant_finance/math/interpolation/linear/linear_interpolation_v2.py:140 | the lower index is in bounds and is `upper - 1`, or `0` when `upper` is 0 |
| `LinearInterpolation.CappedUpper` | tf_quant_finance/math/interpolation/linear/linear_interpolation_v2.py:141 | `lower <= upper_capped <= size-1`, and `upper_capped` is `upper`, or `size-1` when `upper` is `size` |
| `LinearInterpolation.GetSliceOneHot` | tf_quant_finance/math/interpolation/linear/linear_interpolation_v2.py:142-151 | `get_slice` with a one-hot encoding of `k` returns exactly the `k`-th element |
| `LinearInterpolation.Locate` | tf_quant_finance/math/interpolation/linear/linear_interpolation_v2.py:121-151 | the four one-hot reads are the knots at the capped indices, and the end flags are `upper == 0` and `upper == size` |
| `LinearInterpolation.InteriorBracket` | tf_quant_finance/math/interpolation/linear/linear_interpolation_v2.py:138-151 | off both ends, `0 < upper < size`, the neighbours are knots `upper-1` and `upper`, and `x_data[upper-1] < x <= x_data[upper]` |
| `LinearInterpolation.GuardedDenominatorPositive` | tf_quant_finance/math/interpolation/linear/linear_interpolation_v2.py:153-157 | `floor_x_diff` is strictly positive on every branch, and exactly 1 at either end |
| `SearchSorted.SegmentIsSearchResult` | tf_quant_finance/math/interpolation/linear/linear_interpolation_v2.py:121 | on non-decreasing knots, whenever `x_data[j-1] < x <= x_data[j]` the search returns `j` |
| `LinearInterpolation.SlopeOrDefault` | tf_quant_finance/math/interpolation/linear/linear_interpolation_v2.py:96-105 | an absent slope becomes 0 (constant extrapolation); a given slope is used as is |
| `LinearInterpolation.OneHot` | tf_quant_finance/math/interpolation/linear/linear_interpolation_v2.py:142-145 | the encoding has one entry per knot, 1 at the capped index and 0 everywhere else |
| `LinearInterpolation.GetSlice` | tf_quant_finance/math/interpolation/linear/linear_interpolation_v2.py:146-147 | `get_slice` (sum of element-wise products) is 0 for an all-zero encoding; with a one-hot encoding see `GetSliceOneHot` |
| `LinearInterpolation.GuardedDenominator` | tf_quant_finance/math/interpolation/linear/linear_interpolation_v2.py:156-157 | for ordered neighbours, `floor_x_diff` is positive exactly when at an end or when the neighbours have a strict gap |
| `LinearInterpolation.QuotientIsLine` | tf_quant_finance/math/interpolation/linear/linear_interpolation_v2.py:156-159 | off both ends, with a strict gap, the quotient with the guarded denominator is the line through the two neighbours |
| `LinearInterpolation.EndLine` | tf_quant_finance/math/interpolation/linear/linear_interpolation_v2.py:131-136 | `values_min` / `values_max`: the end line passes through its end knot, and is constant at that knot's y-value for slope 0; `InterpolatePoint` selects it beyond the ends |
| `LinearInterpolation.InteriorValue` | tf_quant_finance/math/interpolation/linear/linear_interpolation_v2.py:156-159 | `interpolated` before selection: it gives `y_lo` at `x_lo`, and is the constant `y_lo` when both neighbours share a y-value (as at the ends, where they are the same knot); off both ends it is the line through the neighbours (`QuotientIsLine`) |
| `LinearInterpolation.InterpolatePoint` | tf_quant_finance/math/interpolation/linear/linear_interpolation_v2.py:131-162 | the selected value, described without the search: for `x <= x_data[0]` it is `y_data[0] + left_slope*(x - x_data[0])`; for `x > x_data[size-1]` it is `y_data[size-1] + right_slope*(x - x_data[size-1])`; whenever `x_data[j-1] < x <= x_data[j]` it is the line through knots `j-1` and `j` |
| `LinearInterpolation.Interpolate` | tf_quant_finance/math/interpolation/linear/linear_interpolation_v2.py:158-163 | the result has one value per query point, and the value at `i` is the point value at `x[i]` with absent slopes defaulted to 0 |
| `LinearInterpolation.InterpolateBatch` | tf_quant_finance/math/interpolation/linear/linear_interpolation_v2.py:52-59 | the result has the shape of `x`, and row `b` is the interpolation of `x[b]` on the knots `xData[b]`, `yData[b]` |
| `LinearInterpolation.DefaultExtrapolationIsConstant` | tf_quant_finance/math/interpolation/linear/linear_interpolation_v2.py:96-102 | with absent slopes (default 0), results outside the knots equal the leftmost or the rightmost `y_data` |
| `LinearInterpolation.LineBetween` | tf_quant_finance/math/interpolation/linear/linear_interpolation_v2.py:158-159 | the interior formula, between two knots, stays between their y-values |
| `LinearInterpolation.LineAtEnd` | tf_quant_finance/math/interpolation/linear/linear_interpolation_v2.py:158-159 | the interior formula at the upper knot gives that knot's y-value |
| `LinearInterpolation.InteriorIsLine` | tf_quant_finance/math/interpolation/linear/linear_interpolation_v2.py:153-159 | off both ends, the two neighbours have different x-coordinates and the guarded quotient is the line through them |
| `LinearInterpolation.Interior` | tf_quant_finance/math/interpolation/linear/linear_interpolation_v2.py:153-162 | for `x_data[0] < x <= x_data[size-1]`: `0 < upper < size`, `x_lo < x <= x_hi`, the result is `y_lo + (x - x_lo)*(y_hi - y_lo)/(x_hi - x_lo)`, and it lies between `y_lo` and `y_hi` |
| `LinearInterpolation.ThroughKnot` | tf_quant_finance/math/interpolation/linear/linear_interpolation_v2.py:31-33 | at every knot that does not repeat the previous x-coordinate, the result is that knot's y-value, for any slopes |
| `LinearInterpolation.RepeatedKnot` | tf_quant_finance/math/interpolation/linear/linear_interpolation_v2.py:35 | at a repeated x-coordinate, the result is the y-value of the first knot with that coordinate |
| `InterpolationExample.DocExample` | tf_quant_finance/math/interpolation/linear/linear_interpolation_v2.py:42-49 | the documented example maps the twelve queries to `[10, 10, 8/3, -2, -5, 1, 7, 8.4, 9, 185/12, 20, 20]` |

## Left out

- `tf.searchsorted` is abstracted by a standard lower-bound binary search. Its code is not part of this model; only the search result on non-decreasing knots is claimed to match, and that result is fixed by the properties above.
- TensorFlow plumbing is not modelled: tensor conversion, `dtype` inference, name scopes and control dependencies.
- The expand/squeeze reshaping that turns a 1-D call into a one-row batch is not modelled. `Interpolate` is that single row.
- Floating-point rounding, NaN and infinity are not modelled, so neither is the gradient-NaN concern that motivates the guarded denominator. Values are exact reals.
- LinearInterpolation.InterpolateBatch: has exactly one batch dimension; several batch dimensions are modelled as flattened into one. It also admits rows of different lengths, which a tensor cannot hold; the result is unaffected, since each row is interpolated on its own.
- Slopes are modelled as one scalar shared by all points (a 0-D tensor). Slope tensors with batch or per-point shape are not modelled.
- LinearInterpolation.InterpolatePoint: requires non-decreasing `xData`, which the documentation demands. Without validation the source still computes a value on unsorted knots, but the documentation promises nothing about it. That value, which may divide by zero, is not modelled.
- LinearInterpolation.Interpolate: requires `0 < |xData| == |yData|`. With empty knots the source fails when it reads the first knot. With unvalidated mismatched shapes its behaviour depends on broadcasting and is not modelled.
- LinearInterpolation.InterpolateValidated: requires `0 < |xData|` or shapes that differ. When `xData` and `yData` are both empty, both validation assertions pass (no differences, equal shapes) and the source then fails reading `y_data[..., 0]`; that failure is not modelled. An empty `xData` with a non-empty `yData` is covered: it is reported as a shape mismatch.
