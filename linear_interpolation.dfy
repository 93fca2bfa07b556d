/**
 * `interpolate` from linear_interpolation_v2: piecewise-linear interpolation
 * through the knots `(xData[i], yData[i])`, with linear extrapolation of
 * slope `leftSlope` below the first knot and `rightSlope` above the last.
 *
 * One batch row is modelled: `x` holds the query points of the row and
 * `xData`, `yData` its knots. Values are mathematical reals, so floating
 * point rounding is not modelled. The source reads the neighbouring knots
 * through one-hot encodings and a sum (instead of a gather) and evaluates
 * every branch before selecting one; the model does the same, so every
 * read and every division it performs is proved safe on all branches.
 */
module LinearInterpolation {
  import opened SearchSorted

  datatype Option<T> = None | Some(value: T)

  /** Why argument validation rejects the knots. */
  datatype ArgError = NotNonDecreasing | ShapeMismatch

  datatype Result<T> = Success(value: T) | Failure(error: ArgError)

  /** An absent slope means constant extrapolation (slope 0). */
  function SlopeOrDefault(slope: Option<real>): (r: real)
    ensures slope.None? ==> r == 0.0
    ensures slope.Some? ==> r == slope.value
  {
    match slope
    case None => 0.0
    case Some(s) => s
  }

  // ---------------------------------------------------------------------
  // Argument validation (`validate_args=True`)
  // ---------------------------------------------------------------------

  /** Index of the first negative adjacent difference, if any. */
  function FirstDescent(s: seq<real>, from: nat): (r: Option<nat>)
    requires 0 < from
    ensures r.None? <==> forall i :: from <= i < |s| ==> s[i - 1] <= s[i]
    ensures r.Some? ==> from <= r.value < |s| && s[r.value] < s[r.value - 1]
    ensures r.Some? ==> forall i :: from <= i < r.value ==> s[i - 1] <= s[i]
    decreases |s| - from
  {
    if |s| <= from then None
    else if s[from] < s[from - 1] then Some(from)
    else FirstDescent(s, from + 1)
  }

  /**
   * The two runtime assertions of `validate_args`: the knots' x-coordinates
   * are non-decreasing and `xData`, `yData` have the same shape.
   */
  function ValidateArgs(xData: seq<real>, yData: seq<real>): (r: Option<ArgError>)
    ensures r.None? <==> NonDecreasing(xData) && |xData| == |yData|
    ensures r == Some(NotNonDecreasing) <==> !NonDecreasing(xData)
  {
    if FirstDescent(xData, 1).Some? then Some(NotNonDecreasing)
    else if |xData| != |yData| then Some(ShapeMismatch)
    else None
  }

  // ---------------------------------------------------------------------
  // Index capping and one-hot reads
  // ---------------------------------------------------------------------

  /** `maximum(upper - 1, 0)`: the left neighbour, clamped at 0. */
  function CappedLower(upper: nat, size: nat): (k: nat)
    requires 0 < size && upper <= size
    ensures k < size
    ensures k + 1 == upper || (upper == 0 && k == 0)
  {
    if upper == 0 then 0 else upper - 1
  }

  /** `minimum(upper, size - 1)`: the right neighbour, clamped at the last knot. */
  function CappedUpper(upper: nat, size: nat): (k: nat)
    requires 0 < size && upper <= size
    ensures CappedLower(upper, size) <= k < size
    ensures k == upper || (upper == size && k == size - 1)
  {
    if upper < size - 1 then upper else size - 1
  }

  /** `tf.one_hot(k, size)`: 1 at position `k`, 0 elsewhere. */
  function OneHot(k: nat, size: nat): (e: seq<real>)
    ensures |e| == size
    ensures k < size ==> e[k] == 1.0
    ensures forall i :: 0 <= i < size && i != k ==> e[i] == 0.0
  {
    seq(size, i => if i == k then 1.0 else 0.0)
  }

  /** `get_slice`: the sum of the products of `data` with the encoding `e`. */
  function GetSlice(data: seq<real>, e: seq<real>): (r: real)
    requires |data| == |e|
    ensures (forall i :: 0 <= i < |e| ==> e[i] == 0.0) ==> r == 0.0
  {
    if data == [] then 0.0
    else
      assert forall i :: 0 <= i < |e| - 1 ==> e[1..][i] == e[i + 1];
      data[0] * e[0] + GetSlice(data[1..], e[1..])
  }

  lemma {:induction false} GetSliceHot(data: seq<real>, e: seq<real>, k: nat)
    requires |data| == |e| && k < |e|
    requires forall i :: 0 <= i < |e| ==> e[i] == if i == k then 1.0 else 0.0
    ensures GetSlice(data, e) == data[k]
  {
    assert forall i :: 0 <= i < |e| - 1 ==> e[1..][i] == e[i + 1];
    if k > 0 {
      GetSliceHot(data[1..], e[1..], k - 1);
    }
  }

  /** Reading through a one-hot encoding of `k` is the same as indexing at `k`. */
  lemma GetSliceOneHot(data: seq<real>, k: nat)
    requires k < |data|
    ensures GetSlice(data, OneHot(k, |data|)) == data[k]
  {
    GetSliceHot(data, OneHot(k, |data|), k);
  }

  // ---------------------------------------------------------------------
  // Locating a query point
  // ---------------------------------------------------------------------

  /**
   * Everything `interpolate` computes about one query point before the final
   * formula: the search result, the two end flags and the neighbouring knots.
   */
  datatype Bracket = Bracket(upper: nat, atMin: bool, atMax: bool,
                             xLo: real, xHi: real, yLo: real, yHi: real)

  /**
   * Search, end flags, capped indices and the four one-hot reads. The
   * neighbours read are exactly the knots at the capped indices, so every
   * read is in bounds whichever branch is later selected.
   */
  function Locate(x: real, xData: seq<real>, yData: seq<real>): (b: Bracket)
    requires 0 < |xData| == |yData|
    ensures b.upper == SearchSortedLeft(xData, x)
    ensures b.atMin <==> b.upper == 0
    ensures b.atMax <==> b.upper == |xData|
    ensures var lo, hi := CappedLower(b.upper, |xData|), CappedUpper(b.upper, |xData|);
      && b.xLo == xData[lo] && b.xHi == xData[hi]
      && b.yLo == yData[lo] && b.yHi == yData[hi]
  {
    var size := |xData|;
    var upper := SearchSortedLeft(xData, x);
    var lowerEncoding := OneHot(CappedLower(upper, size), size);
    var upperEncoding := OneHot(CappedUpper(upper, size), size);
    GetSliceOneHot(xData, CappedLower(upper, size));
    GetSliceOneHot(xData, CappedUpper(upper, size));
    GetSliceOneHot(yData, CappedLower(upper, size));
    GetSliceOneHot(yData, CappedUpper(upper, size));
    Bracket(upper, upper == 0, upper == size,
            GetSlice(xData, lowerEncoding), GetSlice(xData, upperEncoding),
            GetSlice(yData, lowerEncoding), GetSlice(yData, upperEncoding))
  }

  /** `floor_x_diff`: the knot gap, shifted by 1 at either end. */
  function GuardedDenominator(b: Bracket): (r: real)
    ensures b.xLo <= b.xHi ==> (r > 0.0 <==> b.atMin || b.atMax || b.xLo < b.xHi)
  {
    var diff := b.xHi - b.xLo;
    if b.atMin || b.atMax then diff + 1.0 else diff
  }

  /**
   * On non-decreasing knots the guarded denominator is positive on every
   * branch: it is 1 at either end, where both capped indices coincide, and
   * the gap between two knots that strictly bracket `x` in the interior.
   */
  lemma GuardedDenominatorPositive(x: real, xData: seq<real>, yData: seq<real>)
    requires 0 < |xData| == |yData| && NonDecreasing(xData)
    ensures var b := Locate(x, xData, yData);
      && GuardedDenominator(b) > 0.0
      && (b.atMin || b.atMax ==> GuardedDenominator(b) == 1.0)
  {
    var b := Locate(x, xData, yData);
    if !b.atMin && !b.atMax {
      InteriorBracket(x, xData, yData);
    }
  }

  /**
   * Interior branch: the search result `u` satisfies `0 < u < size`, the
   * neighbours are the knots `u - 1` and `u`, and they strictly bracket the
   * query point from below: `xData[u - 1] < x <= xData[u]`.
   */
  lemma InteriorBracket(x: real, xData: seq<real>, yData: seq<real>)
    requires 0 < |xData| == |yData| && NonDecreasing(xData)
    requires var b := Locate(x, xData, yData); !b.atMin && !b.atMax
    ensures var b := Locate(x, xData, yData);
      && 0 < b.upper < |xData|
      && b.xLo == xData[b.upper - 1] && b.xHi == xData[b.upper]
      && b.yLo == yData[b.upper - 1] && b.yHi == yData[b.upper]
      && b.xLo < x <= b.xHi
  {
    SearchSortedLeftIsCountLess(xData, x);
  }

  // ---------------------------------------------------------------------
  // The interpolated value
  // ---------------------------------------------------------------------

  /** A line through `(x0, y0)` with the given slope, evaluated at `x`: `values_min` and `values_max`. */
  function EndLine(x0: real, y0: real, slope: real, x: real): (r: real)
    ensures x == x0 ==> r == y0
    ensures slope == 0.0 ==> r == y0
  {
    y0 + slope * (x - x0)
  }

  /** The interior formula with the guarded denominator: `interpolated` before selection. */
  function InteriorValue(b: Bracket, x: real): (r: real)
    requires GuardedDenominator(b) != 0.0
    ensures x == b.xLo ==> r == b.yLo
    ensures b.yLo == b.yHi ==> r == b.yLo
  {
    var numerator := (x - b.xLo) * (b.yHi - b.yLo);
    assert x == b.xLo || b.yLo == b.yHi ==> numerator == 0.0;
    b.yLo + numerator / GuardedDenominator(b)
  }

  /**
   * `interpolate` at one query point. All three candidate values are
   * computed, as `tf.where` does; the right end takes precedence over the
   * left one, then the left end over the interior formula.
   *
   * The contract describes the result without the search: at or below the
   * first knot it is on the line of slope `leftSlope` through that knot,
   * above the last knot on the line of slope `rightSlope` through that one,
   * and whenever `xData[j - 1] < x <= xData[j]` on the line through knots
   * `j - 1` and `j`. Every query point falls in exactly one of these cases.
   */
  function InterpolatePoint(x: real, xData: seq<real>, yData: seq<real>,
                            leftSlope: real, rightSlope: real): (r: real)
    requires 0 < |xData| == |yData| && NonDecreasing(xData)
    ensures x <= xData[0] ==> r == EndLine(xData[0], yData[0], leftSlope, x)
    ensures xData[|xData| - 1] < x ==>
      r == EndLine(xData[|xData| - 1], yData[|xData| - 1], rightSlope, x)
    ensures forall j :: 0 < j < |xData| && xData[j - 1] < x <= xData[j] ==>
      r == Line(xData[j - 1], xData[j], yData[j - 1], yData[j], x)
  {
    var size := |xData|;
    var b := Locate(x, xData, yData);
    var valuesMin := EndLine(xData[0], yData[0], leftSlope, x);
    var valuesMax := EndLine(xData[size - 1], yData[size - 1], rightSlope, x);
    GuardedDenominatorPositive(x, xData, yData);
    var interpolated := InteriorValue(b, x);
    SearchSortedLeftAtMin(xData, x);
    SearchSortedLeftAtMax(xData, x);
    SegmentIsSearchResult(xData, x);
    InteriorIsLine(x, xData, yData);
    if b.atMax then valuesMax
    else if b.atMin then valuesMin
    else interpolated
  }

  /** `interpolate` on one batch row: the point function over every query. */
  function Interpolate(x: seq<real>, xData: seq<real>, yData: seq<real>,
                       leftSlope: Option<real>, rightSlope: Option<real>): (r: seq<real>)
    requires 0 < |xData| == |yData| && NonDecreasing(xData)
    ensures |r| == |x|
    ensures forall i :: 0 <= i < |x| ==>
      r[i] == InterpolatePoint(x[i], xData, yData, SlopeOrDefault(leftSlope), SlopeOrDefault(rightSlope))
  {
    seq(|x|, i requires 0 <= i < |x| =>
      InterpolatePoint(x[i], xData, yData, SlopeOrDefault(leftSlope), SlopeOrDefault(rightSlope)))
  }

  /**
   * `interpolate` with `validate_args=True`: the knots are checked first and
   * a violation is reported instead of a result.
   */
  function InterpolateValidated(x: seq<real>, xData: seq<real>, yData: seq<real>,
                                leftSlope: Option<real>, rightSlope: Option<real>): (r: Result<seq<real>>)
    requires 0 < |xData| || |xData| != |yData|
    ensures r.Failure? <==> !(NonDecreasing(xData) && |xData| == |yData|)
    ensures r.Failure? ==> ValidateArgs(xData, yData) == Some(r.error)
    ensures r.Success? ==>
      && NonDecreasing(xData) && 0 < |xData| == |yData|
      && r.value == Interpolate(x, xData, yData, leftSlope, rightSlope)
    ensures r.Success? ==> |r.value| == |x|
  {
    match ValidateArgs(xData, yData)
    case Some(e) => Failure(e)
    case None => Success(Interpolate(x, xData, yData, leftSlope, rightSlope))
  }

  /** The leading batch dimension: every row is interpolated on its own knots. */
  function InterpolateBatch(x: seq<seq<real>>, xData: seq<seq<real>>, yData: seq<seq<real>>,
                            leftSlope: Option<real>, rightSlope: Option<real>): (r: seq<seq<real>>)
    requires |x| == |xData| == |yData|
    requires forall b :: 0 <= b < |x| ==>
      0 < |xData[b]| == |yData[b]| && NonDecreasing(xData[b])
    ensures |r| == |x|
    ensures forall b :: 0 <= b < |x| ==> |r[b]| == |x[b]|
    ensures forall b :: 0 <= b < |x| ==>
      r[b] == Interpolate(x[b], xData[b], yData[b], leftSlope, rightSlope)
  {
    seq(|x|, b requires 0 <= b < |x| => Interpolate(x[b], xData[b], yData[b], leftSlope, rightSlope))
  }

  // ---------------------------------------------------------------------
  // Properties
  // ---------------------------------------------------------------------

  /** With the default slopes the extrapolation is constant at the end knots. */
  lemma DefaultExtrapolationIsConstant(x: seq<real>, xData: seq<real>, yData: seq<real>, i: nat)
    requires 0 < |xData| == |yData| && NonDecreasing(xData)
    requires i < |x|
    ensures x[i] <= xData[0] ==> Interpolate(x, xData, yData, None, None)[i] == yData[0]
    ensures xData[|xData| - 1] < x[i] ==>
      Interpolate(x, xData, yData, None, None)[i] == yData[|xData| - 1]
  {
  }

  /** The straight line through `(x0, y0)` and `(x1, y1)`, evaluated at `x`. */
  function Line(x0: real, x1: real, y0: real, y1: real, x: real): real
    requires x0 != x1
  {
    y0 + (x - x0) * (y1 - y0) / (x1 - x0)
  }

  lemma ScaledBetween(f: real, d: real)
    requires 0.0 <= f <= 1.0
    ensures 0.0 <= d ==> 0.0 <= f * d <= d
    ensures d <= 0.0 ==> d <= f * d <= 0.0
  {
  }

  /** Between two knots the line stays between their y-values. */
  lemma LineBetween(x0: real, x1: real, y0: real, y1: real, x: real)
    requires x0 < x <= x1
    ensures var v := Line(x0, x1, y0, y1, x);
      (y0 <= v <= y1) || (y1 <= v <= y0)
  {
    var t, d, dy := x - x0, x1 - x0, y1 - y0;
    var f := t / d;
    assert f * d == t;
    assert 0.0 <= f <= 1.0;
    assert t * dy / d == f * dy by {
      assert t * dy == (f * dy) * d;
    }
    assert Line(x0, x1, y0, y1, x) == y0 + f * dy;
    ScaledBetween(f, dy);
  }

  /** The line reaches `y1` at `x1`. */
  lemma LineAtEnd(x0: real, x1: real, y0: real, y1: real)
    requires x0 < x1
    ensures Line(x0, x1, y0, y1, x1) == y1
  {
  }

  /** Off both ends the guarded denominator is the knot gap, so the quotient is the line. */
  lemma QuotientIsLine(b: Bracket, x: real)
    requires !b.atMin && !b.atMax && b.xLo < b.xHi
    ensures InteriorValue(b, x) == Line(b.xLo, b.xHi, b.yLo, b.yHi, x)
  {
  }

  /** Off both ends the interior quotient is the line through the two neighbours. */
  lemma InteriorIsLine(x: real, xData: seq<real>, yData: seq<real>)
    requires 0 < |xData| == |yData| && NonDecreasing(xData)
    ensures var b := Locate(x, xData, yData);
      !b.atMin && !b.atMax ==>
        && b.xLo < b.xHi
        && InteriorValue(b, x) == Line(b.xLo, b.xHi, b.yLo, b.yHi, x)
  {
    var b := Locate(x, xData, yData);
    if !b.atMin && !b.atMax {
      InteriorBracket(x, xData, yData);
      QuotientIsLine(b, x);
    }
  }

  /**
   * Interior branch: with `u` the search result, `0 < u < size`, the knots
   * `u - 1` and `u` strictly bracket `x` from below, the result is the
   * straight line through them evaluated at `x`, and it lies between their
   * y-values.
   */
  lemma Interior(x: real, xData: seq<real>, yData: seq<real>, leftSlope: real, rightSlope: real)
    requires 0 < |xData| == |yData| && NonDecreasing(xData)
    requires xData[0] < x <= xData[|xData| - 1]
    ensures var u := SearchSortedLeft(xData, x);
      var v := InterpolatePoint(x, xData, yData, leftSlope, rightSlope);
      && 0 < u < |xData|
      && xData[u - 1] < x <= xData[u]
      && v == Line(xData[u - 1], xData[u], yData[u - 1], yData[u], x)
      && ((yData[u - 1] <= v <= yData[u]) || (yData[u] <= v <= yData[u - 1]))
  {
    SearchSortedLeftAtMin(xData, x);
    SearchSortedLeftAtMax(xData, x);
    InteriorBracket(x, xData, yData);
    var u := SearchSortedLeft(xData, x);
    LineBetween(xData[u - 1], xData[u], yData[u - 1], yData[u], x);
  }

  /**
   * The interpolant passes through every knot that does not repeat the
   * x-coordinate of the knot before it (for strictly increasing knots:
   * through every knot), whatever the extrapolation slopes.
   */
  lemma ThroughKnot(xData: seq<real>, yData: seq<real>, leftSlope: real, rightSlope: real, i: nat)
    requires 0 < |xData| == |yData| && NonDecreasing(xData)
    requires i < |xData|
    requires i == 0 || xData[i - 1] < xData[i]
    ensures InterpolatePoint(xData[i], xData, yData, leftSlope, rightSlope) == yData[i]
  {
    if i > 0 {
      LineAtEnd(xData[i - 1], xData[i], yData[i - 1], yData[i]);
    }
  }

  /**
   * At a repeated x-coordinate the interpolant takes the y-value of the
   * FIRST knot with that coordinate: the left-sided search never lands on
   * a later duplicate.
   */
  lemma RepeatedKnot(xData: seq<real>, yData: seq<real>, leftSlope: real, rightSlope: real, i: nat, k: nat)
    requires 0 < |xData| == |yData| && NonDecreasing(xData)
    requires k <= i < |xData| && xData[k] == xData[i]
    requires k == 0 || xData[k - 1] < xData[k]
    ensures InterpolatePoint(xData[i], xData, yData, leftSlope, rightSlope) == yData[k]
  {
    ThroughKnot(xData, yData, leftSlope, rightSlope, k);
  }
}
