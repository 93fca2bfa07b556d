/**
 * The worked example from the documentation of `interpolate`, with the
 * printed decimals replaced by the exact rationals they round.
 */
module InterpolationExample {
  import opened SearchSorted
  import opened LinearInterpolation

  const Queries: seq<real> := [-10.0, -1.0, 1.0, 3.0, 6.0, 7.0, 8.0, 15.0, 18.0, 25.0, 30.0, 35.0]
  const Knots: seq<real> := [-1.0, 2.0, 6.0, 8.0, 18.0, 30.0]
  const Values: seq<real> := [10.0, -1.0, -5.0, 7.0, 9.0, 20.0]
  const Expected: seq<real> := [10.0, 10.0, 8.0 / 3.0, -2.0, -5.0, 1.0, 7.0, 8.4, 9.0, 185.0 / 12.0, 20.0, 20.0]

  lemma KnotsNonDecreasing()
    ensures NonDecreasing(Knots)
  {
  }

  /** The queries below the first knot and above the last one. */
  lemma DocExampleEnds(i: nat)
    requires i in {0, 1, 11}
    ensures NonDecreasing(Knots)
    ensures InterpolatePoint(Queries[i], Knots, Values, 0.0, 0.0) == Expected[i]
  {
    KnotsNonDecreasing();
  }

  /** The queries strictly between two knots, on segment `j`. */
  lemma DocExampleSegment(i: nat, j: nat)
    requires (i, j) in {(2, 1), (3, 2), (5, 3), (7, 4), (9, 5)}
    ensures NonDecreasing(Knots)
    ensures InterpolatePoint(Queries[i], Knots, Values, 0.0, 0.0) == Expected[i]
  {
    KnotsNonDecreasing();
    var q := Queries[i];
    assert Knots[j - 1] < q <= Knots[j];
    assert InterpolatePoint(q, Knots, Values, 0.0, 0.0)
        == Line(Knots[j - 1], Knots[j], Values[j - 1], Values[j], q);
  }

  /** The queries that are knots: 6, 8, 18 and 30 are knots 2 to 5. */
  lemma DocExampleKnot(i: nat, k: nat)
    requires (i, k) in {(4, 2), (6, 3), (8, 4), (10, 5)}
    ensures NonDecreasing(Knots)
    ensures InterpolatePoint(Queries[i], Knots, Values, 0.0, 0.0) == Expected[i]
  {
    KnotsNonDecreasing();
    assert Queries[i] == Knots[k];
    ThroughKnot(Knots, Values, 0.0, 0.0, k);
  }

  /** One query of the example, by the case it falls in. */
  lemma DocExamplePoint(i: nat)
    requires i < |Queries|
    ensures NonDecreasing(Knots)
    ensures InterpolatePoint(Queries[i], Knots, Values, 0.0, 0.0) == Expected[i]
  {
    if i in {0, 1, 11} {
      DocExampleEnds(i);
    } else if i in {4, 6, 8, 10} {
      DocExampleKnot(i, i / 2);
    } else {
      DocExampleSegment(i, (i + 1) / 2);
    }
  }

  lemma DocExample()
    ensures NonDecreasing(Knots)
    ensures Interpolate(Queries, Knots, Values, None, None) == Expected
  {
    KnotsNonDecreasing();
    var r := Interpolate(Queries, Knots, Values, None, None);
    forall i | 0 <= i < |Queries| ensures r[i] == Expected[i] {
      DocExamplePoint(i);
    }
  }
}
