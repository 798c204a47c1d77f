/**
 * Grade aggregation of `src/lib/grade-utils.ts`: the per-course weighted average,
 * the credit-weighted GPA, the colour band and the pass predicate, on the 0.0-5.0 scale.
 *
 * Numbers are exact reals; JavaScript's `Math.round(x)` is `Floor(x + 1/2)`.
 */
module GradeUtils {

  import opened Wrappers
  import Seqs

  datatype Grade = Grade(value: real, weight: real)

  /** One course's credits and its average (`null` when it has no grades). */
  datatype CourseGrade = CourseGrade(credits: int, average: Option<real>)

  /** `Math.round(x * 100) / 100`: half-up rounding to the nearest cent. */
  function RoundToCents(x: real): (r: real)
    ensures (r * 100.0).Floor as real == r * 100.0
    ensures r - 0.005 <= x < r + 0.005
  {
    var k := (x * 100.0 + 0.5).Floor;
    assert (k as real / 100.0) * 100.0 == k as real;
    k as real / 100.0
  }

  /** Rounding to cents is monotone. */
  lemma RoundToCentsMonotone(x: real, y: real)
    requires x <= y
    ensures RoundToCents(x) <= RoundToCents(y)
  {
    assert (x * 100.0 + 0.5).Floor <= (y * 100.0 + 0.5).Floor;
  }

  /** A value already in [lo, hi] with lo and hi whole cents rounds into [lo, hi]. */
  lemma RoundToCentsBounds(x: real, lo: int, hi: int)
    requires lo as real / 100.0 <= x <= hi as real / 100.0
    ensures lo as real / 100.0 <= RoundToCents(x) <= hi as real / 100.0
  {
    var k := (x * 100.0 + 0.5).Floor;
    assert lo as real <= x * 100.0 <= hi as real;
    assert lo <= k <= hi;
  }

  lemma MulNonNegative(a: real, b: real)
    requires a >= 0.0 && b >= 0.0
    ensures a * b >= 0.0
  {
  }

  lemma MulPositive(a: real, b: real)
    requires a > 0.0 && b > 0.0
    ensures a * b > 0.0
  {
  }

  /** A non-negative numerator at most `bound` times a positive denominator gives a quotient in [0, bound]. */
  lemma QuotientBounds(num: real, den: real, bound: real)
    requires den > 0.0 && 0.0 <= num <= bound * den
    ensures 0.0 <= num / den <= bound
  {
    var q := num / den;
    assert q * den == num;
    if q > bound {
      MulPositive(q - bound, den);
      assert false;
    }
    if q < 0.0 {
      MulPositive(-q, den);
      assert false;
    }
  }

  function SumWeights(gs: seq<Grade>): real {
    if |gs| == 0 then 0.0 else gs[0].weight + SumWeights(gs[1..])
  }

  function SumValues(gs: seq<Grade>): real {
    if |gs| == 0 then 0.0 else gs[0].value + SumValues(gs[1..])
  }

  function SumWeighted(gs: seq<Grade>): real {
    if |gs| == 0 then 0.0 else gs[0].value * gs[0].weight + SumWeighted(gs[1..])
  }

  /**
   * `calculateWeightedAverage`: `null` for no grades, the plain mean when the weights
   * add up to zero, the weight-proportional mean otherwise; rounded to cents.
   */
  function WeightedAverage(gs: seq<Grade>): (r: Option<real>)
    ensures r.None? <==> |gs| == 0
    ensures |gs| > 0 && SumWeights(gs) == 0.0 ==> r == Some(RoundToCents(SumValues(gs) / |gs| as real))
    ensures SumWeights(gs) != 0.0 ==> r == Some(RoundToCents(SumWeighted(gs) / SumWeights(gs)))
  {
    if |gs| == 0 then None
    else
      var totalWeight := SumWeights(gs);
      if totalWeight == 0.0 then
        var avg := SumValues(gs) / |gs| as real;
        Some(RoundToCents(avg))
      else
        Some(RoundToCents(SumWeighted(gs) / totalWeight))
  }

  predicate ValuesInScale(gs: seq<Grade>) {
    forall i :: 0 <= i < |gs| ==> 0.0 <= gs[i].value <= 5.0
  }

  predicate WeightsNonNegative(gs: seq<Grade>) {
    forall i :: 0 <= i < |gs| ==> gs[i].weight >= 0.0
  }

  lemma {:induction false} SumBounds(gs: seq<Grade>)
    requires ValuesInScale(gs) && WeightsNonNegative(gs)
    ensures SumWeights(gs) >= 0.0
    ensures 0.0 <= SumValues(gs) <= 5.0 * |gs| as real
    ensures 0.0 <= SumWeighted(gs) <= 5.0 * SumWeights(gs)
  {
    if |gs| > 0 {
      SumBounds(gs[1..]);
      var g := gs[0];
      MulNonNegative(g.value, g.weight);
      MulNonNegative(5.0 - g.value, g.weight);
      assert (5.0 - g.value) * g.weight == 5.0 * g.weight - g.value * g.weight;
    }
  }

  /** With values in [0, 5] and non-negative weights, the average lies in [0, 5]. */
  lemma WeightedAverageInScale(gs: seq<Grade>)
    requires ValuesInScale(gs) && WeightsNonNegative(gs)
    ensures var r := WeightedAverage(gs); r.Some? ==> 0.0 <= r.value <= 5.0
  {
    if |gs| > 0 {
      SumBounds(gs);
      var n := |gs| as real;
      if SumWeights(gs) == 0.0 {
        var m := SumValues(gs) / n;
        QuotientBounds(SumValues(gs), n, 5.0);
        RoundToCentsBounds(m, 0, 500);
      } else {
        var w := SumWeights(gs);
        var m := SumWeighted(gs) / w;
        QuotientBounds(SumWeighted(gs), w, 5.0);
        RoundToCentsBounds(m, 0, 500);
      }
    }
  }

  predicate HasAverage(c: CourseGrade) {
    c.average.Some?
  }

  /**
   * The courses that have an average (`filter(c => c.average !== null)`): the
   * `Array.prototype.filter` pass itself, so order and multiplicity are kept
   * (`Seqs.FilterCount`).
   */
  function Graded(cs: seq<CourseGrade>): (r: seq<CourseGrade>)
    ensures |r| <= |cs| && Seqs.IsSubsequence(r, cs)
    ensures forall i :: 0 <= i < |r| ==> r[i].average.Some? && r[i] in cs
    ensures forall c :: c in cs && c.average.Some? ==> c in r
  {
    var r := Seqs.Filter(cs, HasAverage);
    assert forall i :: 0 <= i < |r| ==> r[i] in r;
    r
  }

  function SumCredits(cs: seq<CourseGrade>): int {
    if |cs| == 0 then 0 else cs[0].credits + SumCredits(cs[1..])
  }

  /** Sum of average times credits over courses that all have an average. */
  function SumCreditWeighted(cs: seq<CourseGrade>): real
    requires forall i :: 0 <= i < |cs| ==> cs[i].average.Some?
  {
    if |cs| == 0 then 0.0 else cs[0].average.value * cs[0].credits as real + SumCreditWeighted(cs[1..])
  }

  predicate PositiveCredits(cs: seq<CourseGrade>) {
    forall i :: 0 <= i < |cs| ==> cs[i].credits > 0
  }

  lemma {:induction false} SumCreditsPositive(cs: seq<CourseGrade>)
    requires PositiveCredits(cs) && |cs| > 0
    ensures SumCredits(cs) > 0
  {
    if |cs| > 1 {
      SumCreditsPositive(cs[1..]);
    }
  }

  /**
   * `calculateGPA`: ignores courses without an average; `null` when none remain;
   * otherwise the credit-weighted mean of the averages, rounded to cents.
   */
  function Gpa(cs: seq<CourseGrade>): (r: Option<real>)
    requires PositiveCredits(cs)
    ensures r.None? <==> forall i :: 0 <= i < |cs| ==> cs[i].average.None?
    ensures r.Some? ==>
              SumCredits(Graded(cs)) > 0
              && r.value == RoundToCents(SumCreditWeighted(Graded(cs)) / SumCredits(Graded(cs)) as real)
  {
    var graded := Graded(cs);
    if |graded| == 0 then
      assert forall i :: 0 <= i < |cs| ==> cs[i].average.None? by {
        forall i | 0 <= i < |cs| ensures cs[i].average.None? {
          assert cs[i] in cs;
        }
      }
      None
    else
      assert PositiveCredits(graded) by {
        forall i | 0 <= i < |graded| ensures graded[i].credits > 0 {
          assert graded[i] in cs;
        }
      }
      SumCreditsPositive(graded);
      var totalCredits := SumCredits(graded);
      var weightedSum := SumCreditWeighted(graded);
      assert exists i :: 0 <= i < |cs| && cs[i].average.Some? by {
        assert graded[0] in cs;
      }
      Some(RoundToCents(weightedSum / totalCredits as real))
  }

  /** Courses without an average do not affect the GPA. */
  lemma GpaIgnoresUngraded(cs: seq<CourseGrade>, credits: int)
    requires PositiveCredits(cs) && credits > 0
    ensures PositiveCredits(cs + [CourseGrade(credits, None)])
    ensures Gpa(cs + [CourseGrade(credits, None)]) == Gpa(cs)
  {
    GradedAppendUngraded(cs, CourseGrade(credits, None));
  }

  lemma {:induction false} GradedAppendUngraded(cs: seq<CourseGrade>, c: CourseGrade)
    requires c.average.None?
    ensures Graded(cs + [c]) == Graded(cs)
  {
    if |cs| == 0 {
      assert cs + [c] == [c];
    } else {
      assert (cs + [c])[1..] == cs[1..] + [c];
      GradedAppendUngraded(cs[1..], c);
    }
  }

  lemma {:induction false} SumCreditWeightedBounds(cs: seq<CourseGrade>)
    requires forall i :: 0 <= i < |cs| ==> cs[i].average.Some? && 0.0 <= cs[i].average.value <= 5.0
    requires PositiveCredits(cs)
    ensures 0.0 <= SumCreditWeighted(cs) <= 5.0 * SumCredits(cs) as real
  {
    if |cs| > 0 {
      SumCreditWeightedBounds(cs[1..]);
      var a, c := cs[0].average.value, cs[0].credits as real;
      MulNonNegative(a, c);
      MulNonNegative(5.0 - a, c);
      assert (5.0 - a) * c == 5.0 * c - a * c;
    }
  }

  /** With every average in [0, 5] the GPA lies in [0, 5]. */
  lemma GpaInScale(cs: seq<CourseGrade>)
    requires PositiveCredits(cs)
    requires forall i :: 0 <= i < |cs| && cs[i].average.Some? ==> 0.0 <= cs[i].average.value <= 5.0
    ensures var r := Gpa(cs); r.Some? ==> 0.0 <= r.value <= 5.0
  {
    var graded := Graded(cs);
    if |graded| > 0 {
      forall i | 0 <= i < |graded| ensures graded[i].credits > 0 && 0.0 <= graded[i].average.value <= 5.0 {
        assert graded[i] in cs;
      }
      SumCreditsPositive(graded);
      SumCreditWeightedBounds(graded);
      var m := SumCreditWeighted(graded) / SumCredits(graded) as real;
      QuotientBounds(SumCreditWeighted(graded), SumCredits(graded) as real, 5.0);
      RoundToCentsBounds(m, 0, 500);
    }
  }

  /** The colour bands of `getGradeColor`, best first. */
  datatype Band = Emerald | Green | Blue | Amber | Red

  /** How many of the thresholds 2.0, 3.0, 4.0 and 4.5 a value reaches. */
  function ThresholdsReached(v: real): nat {
    (if v >= 2.0 then 1 else 0) + (if v >= 3.0 then 1 else 0)
    + (if v >= 4.0 then 1 else 0) + (if v >= 4.5 then 1 else 0)
  }

  /** `getGradeColor`: one band better for each of the thresholds 2.0, 3.0, 4.0 and 4.5 reached. */
  function GradeColor(v: real): (b: Band)
    ensures BandRank(b) == ThresholdsReached(v)
  {
    if v >= 4.5 then Emerald
    else if v >= 4.0 then Green
    else if v >= 3.0 then Blue
    else if v >= 2.0 then Amber
    else Red
  }

  /** Position of a band from worst (0) to best (4). */
  function BandRank(b: Band): nat {
    match b
    case Red => 0
    case Amber => 1
    case Blue => 2
    case Green => 3
    case Emerald => 4
  }

  /** `isPassing`: a value passes exactly when its band is emerald, green or blue. */
  predicate IsPassing(v: real): (pass: bool)
    ensures pass <==> GradeColor(v) in {Emerald, Green, Blue}
  {
    v >= 3.0
  }

  /** A higher value never gets a worse band. */
  lemma GradeColorMonotone(v: real, w: real)
    requires v <= w
    ensures BandRank(GradeColor(v)) <= BandRank(GradeColor(w))
  {
  }

  /** The worked examples: an unweighted fallback, a weighted mean and a rounding up. */
  lemma AggregationExamples()
    ensures WeightedAverage([]) == None
    ensures WeightedAverage([Grade(4.0, 0.0), Grade(2.0, 0.0)]) == Some(3.0)
    ensures WeightedAverage([Grade(5.0, 70.0), Grade(3.0, 30.0)]) == Some(4.4)
    ensures WeightedAverage([Grade(4.0, 11.0), Grade(3.0, 1.0)]) == Some(3.92)
    ensures Gpa([CourseGrade(3, Some(4.0)), CourseGrade(2, None)]) == Some(4.0)
  {
    assert (3.0 * 100.0 + 0.5).Floor == 300;
    assert (440.0 + 0.5).Floor == 440;
    assert SumWeighted([Grade(4.0, 11.0), Grade(3.0, 1.0)]) / 12.0 * 100.0 + 0.5 == 47.0 / 12.0 * 100.0 + 0.5;
    assert (47.0 / 12.0 * 100.0 + 0.5).Floor == 392;
    assert (400.0 + 0.5).Floor == 400;
  }
}
