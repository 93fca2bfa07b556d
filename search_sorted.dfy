/**
 * The left-sided sorted search that `interpolate` uses to place each query
 * point among the knots (`tf.searchsorted(x_data, x, side='left')`).
 *
 * The search itself is a library primitive; it is modelled here as the
 * classic lower-bound binary search over a half-open range, and proved to
 * return the number of knots strictly below the query point whenever the
 * knots are non-decreasing.
 */
module SearchSorted {

  /** What `validate_args` checks: every adjacent difference is non-negative. */
  predicate NonDecreasing(s: seq<real>) {
    forall i :: 0 < i < |s| ==> s[i - 1] <= s[i]
  }

  /** The pairwise form of ordering, used by the proofs below. */
  ghost predicate Sorted(s: seq<real>) {
    forall i, j :: 0 <= i <= j < |s| ==> s[i] <= s[j]
  }

  lemma {:induction false} NonDecreasingBetween(s: seq<real>, i: nat, j: nat)
    requires NonDecreasing(s)
    requires i <= j < |s|
    ensures s[i] <= s[j]
    decreases j - i
  {
    if i < j {
      NonDecreasingBetween(s, i, j - 1);
    }
  }

  /** Adjacent ordering (what the source validates) gives pairwise ordering. */
  lemma NonDecreasingIsSorted(s: seq<real>)
    requires NonDecreasing(s)
    ensures Sorted(s)
  {
    forall i, j | 0 <= i <= j < |s| ensures s[i] <= s[j] {
      NonDecreasingBetween(s, i, j);
    }
  }

  /** The number of elements of `s` strictly less than `x`. */
  function CountLess(s: seq<real>, x: real): (n: nat)
    ensures n <= |s|
  {
    if s == [] then 0
    else (if s[0] < x then 1 else 0) + CountLess(s[1..], x)
  }

  /**
   * Lower-bound binary search on `s[lo..hi]`: halve the range, keeping the
   * upper half when the middle element is below `x`.
   */
  function LowerBound(s: seq<real>, x: real, lo: nat, hi: nat): (r: nat)
    requires lo <= hi <= |s|
    ensures lo <= r <= hi
    decreases hi - lo
  {
    if lo == hi then lo
    else
      var mid := lo + (hi - lo) / 2;
      if s[mid] < x then LowerBound(s, x, mid + 1, hi)
      else LowerBound(s, x, lo, mid)
  }

  /** `searchsorted(s, x, side='left')` for one query point. */
  function SearchSortedLeft(s: seq<real>, x: real): (r: nat)
    ensures r <= |s|
  {
    LowerBound(s, x, 0, |s|)
  }

  /** Everything before `r` is below `x`, everything from `r` on is not. */
  ghost predicate SplitsAt(s: seq<real>, x: real, r: nat)
  {
    && r <= |s|
    && (forall i :: 0 <= i < r ==> s[i] < x)
    && (forall i :: r <= i < |s| ==> x <= s[i])
  }

  lemma {:induction false} LowerBoundSplits(s: seq<real>, x: real, lo: nat, hi: nat)
    requires Sorted(s)
    requires lo <= hi <= |s|
    requires forall i :: 0 <= i < lo ==> s[i] < x
    requires forall i :: hi <= i < |s| ==> x <= s[i]
    ensures SplitsAt(s, x, LowerBound(s, x, lo, hi))
    decreases hi - lo
  {
    if lo < hi {
      var mid := lo + (hi - lo) / 2;
      if s[mid] < x {
        assert forall i :: 0 <= i <= mid ==> s[i] <= s[mid];
        LowerBoundSplits(s, x, mid + 1, hi);
      } else {
        assert forall i :: mid <= i < |s| ==> s[mid] <= s[i];
        LowerBoundSplits(s, x, lo, mid);
      }
    }
  }

  /** A split point is exactly the count of elements below `x`. */
  lemma {:induction false} SplitIsCountLess(s: seq<real>, x: real, r: nat)
    requires SplitsAt(s, x, r)
    ensures CountLess(s, x) == r
  {
    if s != [] {
      if r > 0 {
        assert s[0] < x;
        assert SplitsAt(s[1..], x, r - 1) by {
          forall i | 0 <= i < r - 1 ensures s[1..][i] < x { assert s[1..][i] == s[i + 1]; }
          forall i | r - 1 <= i < |s| - 1 ensures x <= s[1..][i] { assert s[1..][i] == s[i + 1]; }
        }
        SplitIsCountLess(s[1..], x, r - 1);
      } else {
        assert x <= s[0];
        assert SplitsAt(s[1..], x, 0) by {
          forall i | 0 <= i < |s| - 1 ensures x <= s[1..][i] { assert s[1..][i] == s[i + 1]; }
        }
        SplitIsCountLess(s[1..], x, 0);
      }
    }
  }

  /**
   * On non-decreasing knots the left-sided search returns the first index
   * whose knot is at least `x` (or `|s|` when there is none), which is the
   * number of knots strictly below `x`.
   */
  lemma SearchSortedLeftIsCountLess(s: seq<real>, x: real)
    requires NonDecreasing(s)
    ensures SplitsAt(s, x, SearchSortedLeft(s, x))
    ensures SearchSortedLeft(s, x) == CountLess(s, x)
  {
    NonDecreasingIsSorted(s);
    LowerBoundSplits(s, x, 0, |s|);
    SplitIsCountLess(s, x, SearchSortedLeft(s, x));
  }

  /** The search result is 0 exactly when `x` is at or below the first knot. */
  lemma SearchSortedLeftAtMin(s: seq<real>, x: real)
    requires NonDecreasing(s) && |s| > 0
    ensures SearchSortedLeft(s, x) == 0 <==> x <= s[0]
  {
    SearchSortedLeftIsCountLess(s, x);
  }

  /** The search result is `|s|` exactly when `x` is above the last knot. */
  lemma SearchSortedLeftAtMax(s: seq<real>, x: real)
    requires NonDecreasing(s) && |s| > 0
    ensures SearchSortedLeft(s, x) == |s| <==> s[|s| - 1] < x
  {
    SearchSortedLeftIsCountLess(s, x);
  }

  /**
   * The search lands on every segment that brackets `x` from below: when
   * `s[j - 1] < x <= s[j]`, the result is `j`.
   */
  lemma SegmentIsSearchResult(s: seq<real>, x: real)
    requires NonDecreasing(s)
    ensures forall j :: 0 < j < |s| && s[j - 1] < x <= s[j] ==> SearchSortedLeft(s, x) == j
  {
    SearchSortedLeftIsCountLess(s, x);
  }
}
