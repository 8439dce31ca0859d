/**
 * The L1 similarity metric and the scoring of one attempt (src/scoring.ts, and the part of
 * `createAttempt` that aggregates hands). Similarities are exact reals; `Math.round` is
 * "add one half and floor".
 */
module Scoring {
  import opened Common
  import opened Sums
  import opened Sorting

  const TOTAL: int := 10000

  function Abs(x: int): int { if x < 0 then -x else x }

  function Min(x: int, y: int): int { if x < y then x else y }

  function MathRound(x: real): int { (x + 0.5).Floor }

  // ------------------------------------------------------------ the metric

  datatype MetricResult = MetricResult(similarity: real, signedDifferences: seq<int>, absoluteDifferences: seq<int>)

  datatype ScoreError = UnequalVectors

  function Differences(p: seq<int>, g: seq<int>): seq<int>
    requires |p| == |g|
  {
    seq(|p|, i requires 0 <= i < |p| => p[i] - g[i])
  }

  function Absolutes(s: seq<int>): seq<int> {
    seq(|s|, i requires 0 <= i < |s| => Abs(s[i]))
  }

  /** `reduce` of the absolute differences, each divided by 10000, from left to right. */
  function Fractions(s: seq<int>): seq<real> {
    seq(|s|, i requires 0 <= i < |s| => s[i] as real / 10000.0)
  }

  function RawSimilarity(absolute: seq<int>): real {
    100.0 * (1.0 - 0.5 * RealSum(Fractions(absolute)))
  }

  function Clamp(x: real): real {
    if x < 0.0 then 0.0 else if x > 100.0 then 100.0 else x
  }

  function L1Score(predicted: seq<int>, gto: seq<int>): Result<MetricResult, ScoreError> {
    if |predicted| != |gto| || |predicted| == 0 then Err(UnequalVectors)
    else
      var signed := Differences(predicted, gto);
      var absolute := Absolutes(signed);
      Ok(MetricResult(Clamp(RawSimilarity(absolute)), signed, absolute))
  }

  /** One hand, in basis points, as stored with the attempt. */
  function HandBasisPoints(similarity: real): int { MathRound(similarity * 100.0) }

  // ------------------------------------------- overlap: the meaning of it

  /** A strategy over some actions: whole basis points, none negative, 10000 in all. */
  ghost predicate IsStrategy(v: seq<int>) {
    (forall i :: 0 <= i < |v| ==> v[i] >= 0) && Sum(v) == TOTAL
  }

  function Minima(p: seq<int>, g: seq<int>): seq<int>
    requires |p| == |g|
  {
    seq(|p|, i requires 0 <= i < |p| => Min(p[i], g[i]))
  }

  /** The mass two strategies put on the same actions. */
  function Overlap(p: seq<int>, g: seq<int>): int
    requires |p| == |g|
  {
    Sum(Minima(p, g))
  }

  lemma {:induction false} FractionsTotal(s: seq<int>)
    ensures RealSum(Fractions(s)) == Sum(s) as real / 10000.0
  {
    if s != [] {
      assert Fractions(s)[1..] == Fractions(s[1..]);
      FractionsTotal(s[1..]);
    }
  }

  /** L1 distance and overlap determine each other. */
  lemma DistanceIsTwiceTheMissingOverlap(p: seq<int>, g: seq<int>)
    requires |p| == |g|
    ensures Sum(Absolutes(Differences(p, g))) == Sum(p) + Sum(g) - 2 * Overlap(p, g)
  {
    var both := seq(|p|, i requires 0 <= i < |p| => p[i] + g[i]);
    SumLinear(p, g, both, 1, 1);
    SumLinear(both, Minima(p, g), Absolutes(Differences(p, g)), 1, -2);
  }

  lemma OverlapBounds(p: seq<int>, g: seq<int>)
    requires |p| == |g| && IsStrategy(p) && IsStrategy(g)
    ensures 0 <= Overlap(p, g) <= TOTAL
  {
    SumMonotone(Minima(p, g), p);
    SumBounds(Minima(p, g), 0, TOTAL) by {
      forall i | 0 <= i < |p| ensures 0 <= Minima(p, g)[i] <= TOTAL {
        PartBelowTotal(p, i);
      }
    }
  }

  lemma {:induction false} PartBelowTotal(p: seq<int>, i: nat)
    requires i < |p| && forall j :: 0 <= j < |p| ==> p[j] >= 0
    ensures p[i] <= Sum(p)
    ensures Sum(p) >= 0
  {
    if i > 0 {
      PartBelowTotal(p[1..], i - 1);
    } else if |p| > 1 {
      PartBelowTotal(p[1..], 0);
    }
  }

  /**
   * For two strategies neither the clamp nor the rounding changes anything: the stored number is
   * the overlap itself.
   */
  lemma SimilarityIsOverlap(p: seq<int>, g: seq<int>)
    requires |p| == |g| && IsStrategy(p) && IsStrategy(g)
    ensures L1Score(p, g).Ok?
    ensures L1Score(p, g).value.similarity * 100.0 == Overlap(p, g) as real
    ensures L1Score(p, g).value.similarity == RawSimilarity(Absolutes(Differences(p, g)))
    ensures HandBasisPoints(L1Score(p, g).value.similarity) == Overlap(p, g)
  {
    FractionsTotal(Absolutes(Differences(p, g)));
    DistanceIsTwiceTheMissingOverlap(p, g);
    OverlapBounds(p, g);
  }

  /** The sum of |p[i] - g[i]|. */
  function L1Distance(p: seq<int>, g: seq<int>): int
    requires |p| == |g|
  {
    if p == [] then 0
    else (if p[0] >= g[0] then p[0] - g[0] else g[0] - p[0]) + L1Distance(p[1..], g[1..])
  }

  lemma {:induction false} AbsolutesTotal(p: seq<int>, g: seq<int>)
    requires |p| == |g|
    ensures Sum(Absolutes(Differences(p, g))) == L1Distance(p, g)
  {
    if p != [] {
      assert Absolutes(Differences(p, g))[1..] == Absolutes(Differences(p[1..], g[1..]));
      AbsolutesTotal(p[1..], g[1..]);
    }
  }

  /**
   * For any vectors of one nonzero length, strategies or not: the similarity is 100 less one for
   * every 200 basis points of distance, and not below zero; the differences are those of the entries.
   */
  lemma L1ScoreMeaning(p: seq<int>, g: seq<int>)
    ensures L1Score(p, g).Ok? <==> |p| == |g| && p != []
    ensures L1Score(p, g).Ok? ==>
      var m, distance := L1Score(p, g).value, L1Distance(p, g);
      && m.similarity == (if distance <= 20000 then 100.0 - distance as real / 200.0 else 0.0)
      && |m.signedDifferences| == |m.absoluteDifferences| == |p|
      && forall i :: 0 <= i < |p| ==>
        && m.signedDifferences[i] == p[i] - g[i]
        && m.absoluteDifferences[i] == if p[i] >= g[i] then p[i] - g[i] else g[i] - p[i]
  {
    if |p| == |g| {
      FractionsTotal(Absolutes(Differences(p, g)));
      AbsolutesTotal(p, g);
      DistanceNotNegative(p, g);
    }
  }

  lemma {:induction false} DistanceNotNegative(p: seq<int>, g: seq<int>)
    requires |p| == |g|
    ensures L1Distance(p, g) >= 0
  {
    if p != [] {
      DistanceNotNegative(p[1..], g[1..]);
    }
  }

  lemma {:induction false} NonNegativeZeroSum(s: seq<int>)
    requires forall i :: 0 <= i < |s| ==> s[i] >= 0
    ensures Sum(s) >= 0
    ensures Sum(s) == 0 <==> forall i :: 0 <= i < |s| ==> s[i] == 0
  {
    if s != [] {
      NonNegativeZeroSum(s[1..]);
      if Sum(s) == 0 {
        forall i | 0 <= i < |s| ensures s[i] == 0 {
          if i > 0 { assert s[i] == s[1..][i - 1]; }
        }
      }
    }
  }

  /** Full marks exactly for the same strategy, none exactly for disjoint supports. */
  lemma SimilarityExtremes(p: seq<int>, g: seq<int>)
    requires |p| == |g| && IsStrategy(p) && IsStrategy(g)
    ensures Overlap(p, g) == TOTAL <==> p == g
    ensures Overlap(p, g) == 0 <==> forall i :: 0 <= i < |p| ==> p[i] == 0 || g[i] == 0
  {
    SumMonotone(Minima(p, g), p);
    SumMonotone(Minima(p, g), g);
    if p == g { assert Minima(p, g) == p; }
    NonNegativeZeroSum(Minima(p, g));
    assert forall i :: 0 <= i < |p| ==> (Minima(p, g)[i] == 0 <==> p[i] == 0 || g[i] == 0);
  }

  lemma SignedDifferencesCancel(p: seq<int>, g: seq<int>)
    requires |p| == |g| && Sum(p) == Sum(g)
    ensures Sum(Differences(p, g)) == 0
  {
    SumLinear(p, g, Differences(p, g), 1, -1);
  }

  // --------------------------------------------------------- scoring a hand

  /** The vector a record spells along an action order; a missing action counts as zero. */
  function Along(order: seq<string>, record: map<string, int>): seq<int> {
    seq(|order|, i requires 0 <= i < |order| => if order[i] in record then record[order[i]] else 0)
  }

  /** `m` is the first position among the first `n` that holds the largest value. */
  predicate IsFirstArgmax(s: seq<int>, n: nat, m: nat)
    requires n <= |s|
  {
    m < n && (forall i :: 0 <= i < n ==> s[i] <= s[m]) && (forall i :: 0 <= i < m ==> s[i] < s[m])
  }

  /** The first position of the largest value among the first `n` entries. */
  function FirstArgmax(s: seq<int>, n: nat): (best: nat)
    requires 0 < n <= |s|
    ensures IsFirstArgmax(s, n, best)
  {
    if n == 1 then 0
    else
      var best := FirstArgmax(s, n - 1);
      if s[n - 1] > s[best] then n - 1 else best
  }

  datatype ActionScore = ActionScore(actionId: string, submitted: int, gto: int, signed: int, absolute: int)

  datatype HandScore = HandScore(similarity: real, majorityActionId: string, actions: seq<ActionScore>)

  function ScoreHands(
      order: seq<string>, submitted: map<string, int>, gto: map<string, int>): Result<HandScore, ScoreError> {
    var predicted := Along(order, submitted);
    var solution := Along(order, gto);
    match L1Score(predicted, solution)
    case Err(e) => Err(e)
    case Ok(m) =>
      Ok(HandScore(
        m.similarity,
        order[FirstArgmax(solution, |solution|)],
        seq(|order|, i requires 0 <= i < |order| =>
          ActionScore(order[i], predicted[i], solution[i], m.signedDifferences[i], m.absoluteDifferences[i]))))
  }

  function Signed(actions: seq<ActionScore>): seq<int> {
    seq(|actions|, i requires 0 <= i < |actions| => actions[i].signed)
  }

  /** The row of an action: its id, what was submitted for it, what the solver plays, and the difference. */
  predicate RowOf(row: ActionScore, id: string, submitted: map<string, int>, gto: map<string, int>) {
    && row.actionId == id
    && row.submitted == (if id in submitted then submitted[id] else 0)
    && row.gto == (if id in gto then gto[id] else 0)
    && row.signed == row.submitted - row.gto
    && (row.absolute == row.signed || row.absolute == -row.signed) && row.absolute >= 0
  }

  /** The first action of the order that the solver plays most often. */
  predicate IsMajority(order: seq<string>, gto: map<string, int>, id: string) {
    exists m :: 0 <= m < |order| && order[m] == id && forall i :: 0 <= i < |order| ==>
      var best, other := if id in gto then gto[id] else 0, if order[i] in gto then gto[order[i]] else 0;
      other <= best && (i < m ==> other < best)
  }

  lemma ActionRows(order: seq<string>, submitted: map<string, int>, gto: map<string, int>)
    requires order != []
    ensures ScoreHands(order, submitted, gto).Ok?
    ensures var h := ScoreHands(order, submitted, gto).value;
      && |h.actions| == |order|
      && (forall i :: 0 <= i < |order| ==> RowOf(h.actions[i], order[i], submitted, gto))
      && IsMajority(order, gto, h.majorityActionId)
  {
    var g := Along(order, gto);
    var m := FirstArgmax(g, |g|);
    assert IsFirstArgmax(g, |order|, m);
  }

  /** What a scored hand tells: the overlap, a most frequent solver action, and signed differences that cancel. */
  lemma ScoreHandsMeaning(order: seq<string>, submitted: map<string, int>, gto: map<string, int>)
    requires IsStrategy(Along(order, submitted)) && IsStrategy(Along(order, gto))
    ensures ScoreHands(order, submitted, gto).Ok?
    ensures var h := ScoreHands(order, submitted, gto).value;
      && HandBasisPoints(h.similarity) == Overlap(Along(order, submitted), Along(order, gto))
      && (HandBasisPoints(h.similarity) == TOTAL <==> Along(order, submitted) == Along(order, gto))
      && Sum(Signed(h.actions)) == 0
      && |h.actions| == |order|
      && (forall i :: 0 <= i < |order| ==> RowOf(h.actions[i], order[i], submitted, gto))
      && IsMajority(order, gto, h.majorityActionId)
  {
    var p, g := Along(order, submitted), Along(order, gto);
    assert |order| > 0 by { assert Sum(p) == TOTAL; }
    SimilarityIsOverlap(p, g);
    SimilarityExtremes(p, g);
    SignedDifferencesCancel(p, g);
    var h := ScoreHands(order, submitted, gto).value;
    assert Signed(h.actions) == Differences(p, g);
    ActionRows(order, submitted, gto);
    hide IsMajority, RowOf;
  }

  // --------------------------------------------------- scoring an attempt

  /** `Math.round(sum / length)` over the hands of an attempt. */
  function Average(hands: seq<int>): int
    requires hands != []
  {
    MathRound(Sum(hands) as real / |hands| as real)
  }

  function Points(similarityBasisPoints: int): int { MathRound(similarityBasisPoints as real / 10.0) }

  lemma TimesMonotone(x: real, y: real, n: real)
    requires x < y && n > 0.0
    ensures x * n < y * n
  {
  }

  lemma QuotientBounds(x: real, n: real, lo: real, hi: real)
    requires n > 0.0 && lo * n <= x <= hi * n
    ensures lo <= x / n <= hi
  {
    var y := x / n;
    assert y * n == x;
    if y < lo { TimesMonotone(y, lo, n); }
    if y > hi { TimesMonotone(hi, y, n); }
  }

  lemma QuotientMonotone(x: real, y: real, n: real)
    requires n > 0.0 && x <= y
    ensures x / n <= y / n
  {
    assert y / n * n == y;
    QuotientBounds(x, n, x / n, y / n);
  }

  /** An attempt over hands in range stays in range, and a hand that improves never lowers the attempt. */
  lemma AttemptScoreInRange(hands: seq<int>)
    requires hands != [] && forall i :: 0 <= i < |hands| ==> 0 <= hands[i] <= TOTAL
    ensures 0 <= Average(hands) <= TOTAL
    ensures 0 <= Points(Average(hands)) <= 1000
  {
    SumBounds(hands, 0, TOTAL);
    QuotientBounds(Sum(hands) as real, |hands| as real, 0.0, 10000.0);
  }

  lemma AttemptScoreMonotone(low: seq<int>, high: seq<int>)
    requires low != [] && |low| == |high|
    requires forall i :: 0 <= i < |low| ==> low[i] <= high[i]
    ensures Average(low) <= Average(high)
    ensures Points(Average(low)) <= Points(Average(high))
  {
    SumMonotone(low, high);
    QuotientMonotone(Sum(low) as real, Sum(high) as real, |low| as real);
  }

  /** Ten times the points lie within 5 of the similarity, ties rounded up; a multiple of ten is exact. */
  lemma PointsAreTenths(similarity: int)
    ensures 10 * Points(similarity) - 5 <= similarity < 10 * Points(similarity) + 5
    ensures similarity % 10 == 0 ==> 10 * Points(similarity) == similarity
  {
  }

  lemma IntTimes(a: int, n: int)
    ensures a as real * n as real == (n * a) as real
  {
  }

  lemma TimesAtMost(x: real, y: real, n: real)
    requires x <= y && n > 0.0
    ensures x * n <= y * n
  {
    if x < y { TimesMonotone(x, y, n); }
  }

  lemma TimesHalves(a: real, n: real)
    ensures (a + 0.5) * n == a * n + n / 2.0
    ensures (a - 0.5) * n == a * n - n / 2.0
  {
  }

  lemma QuotientIsNearest(sum: real, n: real, x: real, a: real, total: real)
    requires n > 0.0 && x * n == sum && a * n == total && a - 0.5 <= x < a + 0.5
    ensures total - n / 2.0 <= sum < total + n / 2.0
  {
    calc {
      sum;
      x * n;
    < { TimesMonotone(x, a + 0.5, n); }
      (a + 0.5) * n;
      { TimesHalves(a, n); }
      total + n / 2.0;
    }
    calc {
      total - n / 2.0;
      { TimesHalves(a, n); }
      (a - 0.5) * n;
    <= { TimesAtMost(a - 0.5, x, n); }
      x * n;
      sum;
    }
  }

  lemma RoundedQuotient(sum: int, n: int, a: int)
    requires n > 0 && a == MathRound(sum as real / n as real)
    ensures (n * a) as real - n as real / 2.0 <= sum as real < (n * a) as real + n as real / 2.0
  {
    IntTimes(a, n);
    var x := sum as real / n as real;
    assert x * n as real == sum as real;
    QuotientIsNearest(sum as real, n as real, x, a as real, (n * a) as real);
  }

  /** The average is that of the hands to within one half, ties rounded up. */
  lemma AverageIsNearest(hands: seq<int>)
    requires hands != []
    ensures var n, average := |hands|, Average(hands);
      2 * (n * average) - n <= 2 * Sum(hands) < 2 * (n * average) + n
  {
    RoundedQuotient(Sum(hands), |hands|, Average(hands));
    hide MathRound;
  }

  lemma {:induction false} EqualSum(hands: seq<int>, h: int)
    requires forall i :: 0 <= i < |hands| ==> hands[i] == h
    ensures Sum(hands) == |hands| * h
  {
    if hands != [] {
      EqualSum(hands[1..], h);
    }
  }

  /** Equal hands average to themselves; an attempt that matches the solver on every hand earns 1000 points. */
  lemma EqualHands(hands: seq<int>, h: int)
    requires hands != [] && forall i :: 0 <= i < |hands| ==> hands[i] == h
    ensures Average(hands) == h
    ensures h == 10000 ==> Points(Average(hands)) == 1000
  {
    EqualSum(hands, h);
    QuotientBounds(Sum(hands) as real, |hands| as real, h as real, h as real);
    PointsAreTenths(h);
  }

  lemma {:induction false} TenthsTimes(n: nat, a: int, p: int)
    requires 10 * p - 5 <= a < 10 * p + 5
    ensures 10 * (n * p) - 5 * n <= n * a <= 10 * (n * p) + 5 * n
  {
    if n > 0 {
      TenthsTimes(n - 1, a, p);
      assert n * a == (n - 1) * a + a;
      assert n * p == (n - 1) * p + p;
    }
  }

  /** So the points are a tenth of the average of the hands, to within 0.55. */
  lemma AttemptPoints(hands: seq<int>)
    requires hands != []
    ensures var n, points := |hands|, Points(Average(hands));
      20 * (n * points) - 11 * n <= 2 * Sum(hands) < 20 * (n * points) + 11 * n
  {
    var n, a := |hands|, Average(hands);
    AverageIsNearest(hands);
    PointsAreTenths(a);
    TenthsTimes(n, a, Points(a));
    hide Average, Points;
  }

  // ------------------------------------------------- strategy diversity

  function PairDistance(vectors: seq<seq<int>>, i: nat, j: nat): int
    requires i < |vectors| && j < |vectors| && |vectors[i]| == |vectors[j]|
  {
    Sum(Absolutes(Differences(vectors[i], vectors[j])))
  }

  /** Distance zero means the same vector. */
  lemma PairDistanceZero(vectors: seq<seq<int>>, i: nat, j: nat)
    requires i < |vectors| && j < |vectors| && |vectors[i]| == |vectors[j]|
    ensures PairDistance(vectors, i, j) >= 0
    ensures PairDistance(vectors, i, j) == 0 <==> vectors[i] == vectors[j]
  {
    var d := Absolutes(Differences(vectors[i], vectors[j]));
    NonNegativeZeroSum(d);
    if PairDistance(vectors, i, j) == 0 {
      forall k | 0 <= k < |vectors[i]| ensures vectors[i][k] == vectors[j][k] { assert d[k] == 0; }
    }
  }

  datatype DiversityReport = DiversityReport(
    comboCount: nat, distinctVectorCount: nat, distinctVectorRatio: real, maxPairwiseL1: int,
    uniformAcrossCombos: bool, warning: Option<string>)

  const UNIFORM_WARNING: string := "all selectable combos have the same strategy vector"

  function Vectors(order: seq<string>, strategies: seq<map<string, int>>): (v: seq<seq<int>>)
    ensures |v| == |strategies| && forall i :: 0 <= i < |v| ==> |v[i]| == |order|
  {
    seq(|strategies|, i requires 0 <= i < |strategies| => Along(order, strategies[i]))
  }

  /** A nonempty list has one distinct member exactly when all its members agree. */
  lemma OneDistinctMember(v: seq<seq<int>>)
    requires v != []
    ensures |set i | 0 <= i < |v| :: v[i]| == 1 <==> forall i, j :: 0 <= i < j < |v| ==> v[i] == v[j]
  {
    var all := set i | 0 <= i < |v| :: v[i];
    assert {v[0]} <= all;
    assert all == {v[0]} + (all - {v[0]});
    assert all - {v[0]} == {} <==> |all| == 1;
    forall i | 0 <= i < |v| ensures v[i] == v[0] || v[i] in all - {v[0]} {
      assert v[i] in all;
    }
  }

  lemma {:induction false} DistinctMembersBound(v: seq<seq<int>>, n: nat)
    requires n <= |v|
    ensures |set i | 0 <= i < n :: v[i]| <= n
    ensures n > 0 ==> |set i | 0 <= i < n :: v[i]| > 0
  {
    if n > 0 {
      DistinctMembersBound(v, n - 1);
      assert (set i | 0 <= i < n :: v[i]) == (set i | 0 <= i < n - 1 :: v[i]) + {v[n - 1]};
    }
  }

  /** The share of distinct vectors among all of them; zero when there are none. */
  predicate IsShare(share: real, distinct: int, all: int) {
    && share * all as real == distinct as real
    && 0.0 <= share <= 1.0
    && (share == 0.0 <==> all == 0)
  }

  function Share(distinct: nat, all: nat): (share: real)
    requires distinct <= all && (all > 0 ==> distinct > 0)
    ensures IsShare(share, distinct, all)
  {
    if all == 0 then 0.0
    else
      QuotientBounds(distinct as real, all as real, 0.0, 1.0);
      distinct as real / all as real
  }

  /** The nested maximum loop. */
  method MaxPairwiseL1(v: seq<seq<int>>) returns (best: int)
    requires forall i, j :: 0 <= i < |v| && 0 <= j < |v| ==> |v[i]| == |v[j]|
    ensures best >= 0
    ensures forall i, j :: 0 <= i < j < |v| ==> PairDistance(v, i, j) <= best
    ensures best == 0 || exists i, j :: 0 <= i < j < |v| && PairDistance(v, i, j) == best
  {
    best := 0;
    for left := 0 to |v|
      invariant best >= 0
      invariant forall i, j :: 0 <= i < left && i < j < |v| ==> PairDistance(v, i, j) <= best
      invariant best == 0 || exists i, j :: 0 <= i < j < |v| && PairDistance(v, i, j) == best
    {
      for right := left + 1 to |v|
        invariant best >= 0
        invariant forall i, j :: 0 <= i < left && i < j < |v| ==> PairDistance(v, i, j) <= best
        invariant forall j :: left < j < right ==> PairDistance(v, left, j) <= best
        invariant best == 0 || exists i, j :: 0 <= i < j < |v| && PairDistance(v, i, j) == best
      {
        var distance := PairDistance(v, left, right);
        if distance > best { best := distance; }
      }
    }
  }

  /**
   * `strategyDiversityReport`: the largest pairwise distance by a nested loop, the distinct
   * vectors by a set. The two agree on what "uniform" means.
   */
  method StrategyDiversityReport(order: seq<string>, strategies: seq<map<string, int>>) returns (r: DiversityReport)
    ensures r.comboCount == |strategies|
    ensures var v := Vectors(order, strategies);
      && r.distinctVectorCount == |set i | 0 <= i < |v| :: v[i]|
      && (forall i, j :: 0 <= i < j < |v| ==> PairDistance(v, i, j) <= r.maxPairwiseL1)
      && (r.maxPairwiseL1 == 0 || exists i, j :: 0 <= i < j < |v| && PairDistance(v, i, j) == r.maxPairwiseL1)
    ensures r.uniformAcrossCombos <==> |strategies| > 1 && r.maxPairwiseL1 == 0
    ensures r.uniformAcrossCombos <==>
      |strategies| > 1 && forall i, j :: 0 <= i < j < |strategies| ==>
        Along(order, strategies[i]) == Along(order, strategies[j])
    ensures IsShare(r.distinctVectorRatio, r.distinctVectorCount, r.comboCount)
    ensures r.warning == if r.uniformAcrossCombos then Some(UNIFORM_WARNING) else None
  {
    hide Share, IsShare;
    var v := Vectors(order, strategies);
    var best := MaxPairwiseL1(v);
    forall i, j | 0 <= i < j < |v|
      ensures PairDistance(v, i, j) >= 0 && (PairDistance(v, i, j) == 0 <==> v[i] == v[j])
    {
      PairDistanceZero(v, i, j);
    }
    var signatures := set i | 0 <= i < |v| :: v[i];
    if v != [] { OneDistinctMember(v); }
    DistinctMembersBound(v, |v|);
    var uniform := |v| > 1 && |signatures| == 1;
    r := DiversityReport(
      |v|, |signatures|, Share(|signatures|, |v|), best, uniform, if uniform then Some(UNIFORM_WARNING) else None);
    assert forall i :: 0 <= i < |v| ==> v[i] == Along(order, strategies[i]);
  }

  /** Between strategies the distance is twice what they do not share, so never above 20000. */
  lemma StrategyDistanceBound(p: seq<int>, g: seq<int>)
    requires |p| == |g| && IsStrategy(p) && IsStrategy(g)
    ensures 0 <= Sum(Absolutes(Differences(p, g))) <= 20000
    ensures Sum(Absolutes(Differences(p, g))) == 20000 <==> forall i :: 0 <= i < |p| ==> p[i] == 0 || g[i] == 0
  {
    DistanceIsTwiceTheMissingOverlap(p, g);
    OverlapBounds(p, g);
    SimilarityExtremes(p, g);
  }
}
