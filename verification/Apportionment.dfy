/**
 * Basis-point apportionment of one provider frequency vector (src/solver/provider.ts:59-88):
 * normalise, floor every quota, then hand the leftover points out by largest remainder.
 * Weights and quotas are exact reals; binary rounding inside a double is not modelled.
 */
module Apportionment {
  import opened Common
  import opened Sums
  import opened Sorting

  const TOTAL: int := 10000

  /** What a provider may store under one action: a finite number, a non-finite one, or no number at all. */
  datatype Raw = Finite(value: real) | NonFinite | NotANumber

  datatype FrequencyError = MissingFrequencies | InvalidFrequency(index: nat) | InvalidTotal

  // ---------------------------------------------------------------- weights

  function RawAt(value: map<string, Raw>, id: string): Raw {
    if id in value then value[id] else NotANumber
  }

  predicate Usable(raw: Raw) { raw.Finite? && raw.value >= 0.0 }

  /** The weights along the action order, or the first unusable entry. */
  function Weights(value: map<string, Raw>, order: seq<string>): (r: Result<seq<real>, FrequencyError>)
    ensures r.Ok? <==> forall i :: 0 <= i < |order| ==> Usable(RawAt(value, order[i]))
    ensures r.Ok? ==> |r.value| == |order| && forall i :: 0 <= i < |order| ==>
      r.value[i] == RawAt(value, order[i]).value
    ensures r.Err? ==> r.error.InvalidFrequency? && r.error.index < |order|
    ensures r.Err? ==> !Usable(RawAt(value, order[r.error.index])) && forall i :: 0 <= i < r.error.index ==>
      Usable(RawAt(value, order[i]))
  {
    if order == [] then Ok([])
    else
      var last := |order| - 1;
      match Weights(value, order[..last])
      case Err(e) => Err(e)
      case Ok(ws) =>
        if Usable(RawAt(value, order[last])) then Ok(ws + [RawAt(value, order[last]).value])
        else Err(InvalidFrequency(last))
  }

  ghost predicate ValidWeights(w: seq<real>) {
    (forall i :: 0 <= i < |w| ==> w[i] >= 0.0) && RealSum(w) > 0.0
  }

  function Quotas(w: seq<real>): (q: seq<real>)
    requires RealSum(w) > 0.0
  {
    seq(|w|, i requires 0 <= i < |w| => w[i] / RealSum(w) * 10000.0)
  }

  // ------------------------------------------------------ largest remainder

  /** A vector of quotas that is ready to be apportioned. */
  ghost predicate IsQuotas(q: seq<real>) {
    q != [] && (forall i :: 0 <= i < |q| ==> q[i] >= 0.0) && RealSum(q) == 10000.0
  }

  function Fraction(x: real): real { x - x.Floor as real }

  function Floors(q: seq<real>): seq<int> {
    seq(|q|, i requires 0 <= i < |q| => q[i].Floor)
  }

  function Fractions(q: seq<real>): seq<real> {
    seq(|q|, i requires 0 <= i < |q| => Fraction(q[i]))
  }

  /** Points left after flooring. */
  function Leftover(q: seq<real>): int { TOTAL - Sum(Floors(q)) }

  /** The comparator of the source: larger fraction first, then action order. */
  predicate Before(q: seq<real>, i: nat, j: nat)
    requires i < |q| && j < |q|
  {
    Fraction(q[i]) > Fraction(q[j]) || (Fraction(q[i]) == Fraction(q[j]) && i <= j)
  }

  /** The comparator as the sort sees it, made total by ranking numbers that are no index last. */
  predicate RemainderBefore(q: seq<real>, i: nat, j: nat) {
    j >= |q| || (i < |q| && Before(q, i, j))
  }

  function RemainderLe(q: seq<real>): (nat, nat) -> bool {
    (i: nat, j: nat) => RemainderBefore(q, i, j)
  }

  function Indices(n: nat): (s: seq<nat>)
    ensures |s| == n && forall i :: 0 <= i < n ==> s[i] == i
  {
    seq(n, i => i)
  }

  function RemainderOrder(q: seq<real>): seq<nat> {
    Sort(RemainderLe(q), Indices(|q|))
  }

  /** An independent description of the result: floor or one more, exact total, and the extra points upward closed. */
  ghost predicate IsLargestRemainder(q: seq<real>, a: seq<int>) {
    && |a| == |q|
    && Sum(a) == TOTAL
    && (forall i :: 0 <= i < |q| ==> a[i] == q[i].Floor || a[i] == q[i].Floor + 1)
    && (forall i, j :: 0 <= i < |q| && 0 <= j < |q| && Before(q, i, j) && a[j] == q[j].Floor + 1 ==>
      a[i] == q[i].Floor + 1)
  }

  /** Floors with one more point at every listed index. */
  function Topped(q: seq<real>, chosen: seq<nat>): (a: seq<int>)
  {
    seq(|q|, i requires 0 <= i < |q| => q[i].Floor + if i in chosen then 1 else 0)
  }

  lemma RemainderOrderLaws(q: seq<real>)
    ensures |RemainderOrder(q)| == |q| && Distinct(RemainderOrder(q))
    ensures forall i: nat :: i in RemainderOrder(q) <==> i < |q|
    ensures forall k :: 0 <= k < |q| ==> RemainderOrder(q)[k] < |q|
    ensures forall k, l :: 0 <= k < l < |q| ==> Before(q, RemainderOrder(q)[k], RemainderOrder(q)[l])
  {
    var le := RemainderLe(q);
    assert forall i: nat, j: nat :: le(i, j) == RemainderBefore(q, i, j);
    SortSorted(le, Indices(|q|));
    SortPermutes(le, Indices(|q|));
    DistinctPermutation(Indices(|q|), Sort(le, Indices(|q|)));
    forall i: nat ensures i in Indices(|q|) <==> i < |q| {
      if i < |q| { assert Indices(|q|)[i] == i; }
    }
    forall k | 0 <= k < |q| ensures RemainderOrder(q)[k] < |q| {
      assert RemainderOrder(q)[k] in RemainderOrder(q);
    }
    forall k, l | 0 <= k < l < |q| ensures Before(q, RemainderOrder(q)[k], RemainderOrder(q)[l]) {
      assert le(RemainderOrder(q)[k], RemainderOrder(q)[l]);
    }
  }

  /** Flooring leaves at least zero and strictly fewer points than there are actions. */
  lemma LeftoverInRange(q: seq<real>)
    requires IsQuotas(q)
    ensures 0 <= Leftover(q) < |q|
    ensures RealSum(Fractions(q)) == Leftover(q) as real
  {
    RealSumPlus(AsReals(Floors(q)), Fractions(q), q);
    RealSumOfInts(Floors(q));
    FractionSumBounds(q);
  }

  lemma {:induction false} FractionSumBounds(q: seq<real>)
    ensures 0.0 <= RealSum(Fractions(q)) <= |q| as real
    ensures q != [] ==> RealSum(Fractions(q)) < |q| as real
  {
    if q != [] {
      assert Fractions(q)[1..] == Fractions(q[1..]);
      FractionSumBounds(q[1..]);
    }
  }

  lemma {:induction false} ToppedTotal(q: seq<real>, order: seq<nat>, k: nat)
    requires Distinct(order) && k <= |order|
    requires forall i :: 0 <= i < |order| ==> order[i] < |q|
    ensures Sum(Topped(q, order[..k])) == Sum(Floors(q)) + k
  {
    if k == 0 {
      assert Topped(q, order[..0]) == Floors(q);
    } else {
      ToppedTotal(q, order, k - 1);
      ToppedStep(q, order, k - 1);
      SumUpdate(Topped(q, order[..k - 1]), order[k - 1], q[order[k - 1]].Floor + 1);
    }
  }

  /** One pass of the source's loop. */
  lemma ToppedStep(q: seq<real>, order: seq<nat>, k: nat)
    requires Distinct(order) && k < |order|
    requires forall i :: 0 <= i < |order| ==> order[i] < |q|
    ensures Topped(q, order[..k])[order[k]] == q[order[k]].Floor
    ensures Topped(q, order[..k + 1]) == Topped(q, order[..k])[order[k] := q[order[k]].Floor + 1]
  {
    assert order[k] !in order[..k];
    assert order[..k + 1] == order[..k] + [order[k]];
  }

  /** The vector the source returns for these quotas. */
  function Apportion(q: seq<real>): (a: seq<int>)
    requires 0 <= Leftover(q) <= |RemainderOrder(q)|
  {
    Topped(q, RemainderOrder(q)[..Leftover(q)])
  }

  lemma ApportionIsLargestRemainder(q: seq<real>)
    requires IsQuotas(q)
    ensures 0 <= Leftover(q) <= |RemainderOrder(q)|
    ensures IsLargestRemainder(q, Apportion(q))
  {
    LeftoverInRange(q);
    RemainderOrderLaws(q);
    var order, k := RemainderOrder(q), Leftover(q);
    ToppedTotal(q, order, k);
    var a := Apportion(q);
    forall i, j | 0 <= i < |q| && 0 <= j < |q| && Before(q, i, j) && a[j] == q[j].Floor + 1
      ensures a[i] == q[i].Floor + 1
    {
      assert j in order[..k];
      var l :| 0 <= l < k && order[l] == j;
      assert i in order;
      var m :| 0 <= m < |order| && order[m] == i;
      assert m <= l;
      assert order[..k][m] == i;
    }
  }

  /** The description pins the vector down: there is exactly one. */
  lemma LargestRemainderUnique(q: seq<real>, a: seq<int>, b: seq<int>)
    requires IsLargestRemainder(q, a) && IsLargestRemainder(q, b)
    ensures a == b
  {
    if i :| 0 <= i < |q| && a[i] > b[i] {
      forall j | 0 <= j < |q| ensures b[j] <= a[j] {
        assert Before(q, i, j) || Before(q, j, i);
      }
      SumMonotone(b, a);
    } else {
      SumMonotone(a, b);
    }
  }

  // ------------------------------------------------------------- main laws

  /** One quota is the weight times a common factor. */
  lemma QuotaFactor(w: real, t: real)
    requires t > 0.0 && w >= 0.0
    ensures w / t * 10000.0 == 10000.0 / t * w
    ensures w / t * 10000.0 >= 0.0
  {
    var share, x := w / t, 10000.0 / t;
    assert share * t == w && x * t == 10000.0;
    assert x * w == x * (share * t) == (x * t) * share;
    assert share >= 0.0;
  }

  lemma QuotasTotal(w: seq<real>)
    requires ValidWeights(w)
    ensures IsQuotas(Quotas(w))
  {
    var t := RealSum(w);
    var x := 10000.0 / t;
    assert x * t == 10000.0;
    forall i | 0 <= i < |w| ensures Quotas(w)[i] == x * w[i] && Quotas(w)[i] >= 0.0 {
      QuotaFactor(w[i], t);
    }
    RealSumScaled(w, Quotas(w), x, t);
  }

  function Distance(q: seq<real>, v: seq<int>): seq<real>
    requires |q| == |v|
  {
    seq(|q|, i requires 0 <= i < |q| => RealAbs(v[i] as real - q[i]))
  }

  function RealAbs(x: real): real { if x < 0.0 then -x else x }

  /** `s` times `n`, by repeated addition, so that the proofs below stay linear. */
  function Slope(s: real, n: int): real
    decreases if n < 0 then -n else n
  {
    if n == 0 then 0.0 else if n > 0 then Slope(s, n - 1) + s else Slope(s, n + 1) - s
  }

  lemma {:induction false} SlopeAdd(s: real, a: int, b: int)
    ensures Slope(s, a + b) == Slope(s, a) + Slope(s, b)
    decreases if b < 0 then -b else b
  {
    if b > 0 {
      SlopeAdd(s, a, b - 1);
      assert Slope(s, a + b) == Slope(s, a + b - 1) + s;
    } else if b < 0 {
      SlopeAdd(s, a, b + 1);
      assert Slope(s, a + b) == Slope(s, a + b + 1) - s;
    }
  }

  /** The distance of `d` from `f`, tilted by a slope `s`. */
  function TiltedDistance(d: int, f: real, s: real): real {
    RealAbs(d as real - f) + Slope(s, d)
  }

  /**
   * Per-action part of the optimality proof: tilted by the slope of the last chosen fraction, the
   * chosen point is best.
   */
  lemma {:induction false} ChosenIsBest(f: real, t: real, d: int, c: int)
    requires 0.0 <= f < 1.0 && 0.0 <= t <= 1.0
    requires c == 0 || c == 1
    requires c == 1 ==> f >= t
    requires c == 0 ==> f <= t
    ensures TiltedDistance(c, f, 2.0 * t - 1.0) <= TiltedDistance(d, f, 2.0 * t - 1.0)
    decreases if d < 0 then -d else d
  {
    if d >= 2 {
      ChosenIsBest(f, t, d - 1, c);
    } else if d < 0 {
      ChosenIsBest(f, t, d + 1, c);
    }
  }

  /** The same for quotas that have not been reduced to their fraction. */
  lemma ChosenIsBestAt(x: real, t: real, d: int, c: int)
    requires 0.0 <= t <= 1.0
    requires c == x.Floor || c == x.Floor + 1
    requires c == x.Floor + 1 ==> Fraction(x) >= t
    requires c == x.Floor ==> Fraction(x) <= t
    ensures TiltedDistance(c, x, 2.0 * t - 1.0) <= TiltedDistance(d, x, 2.0 * t - 1.0)
  {
    var b, s := x.Floor, 2.0 * t - 1.0;
    ChosenIsBest(Fraction(x), t, d - b, c - b);
    SlopeAdd(s, d - b, b);
    SlopeAdd(s, c - b, b);
  }

  /** A fraction that separates the topped-up actions from the others. */
  ghost predicate Separates(q: seq<real>, a: seq<int>, t: real)
    requires |a| == |q|
  {
    && 0.0 <= t <= 1.0
    && (forall i :: 0 <= i < |q| && a[i] == q[i].Floor + 1 ==> Fraction(q[i]) >= t)
    && (forall i :: 0 <= i < |q| && a[i] == q[i].Floor ==> Fraction(q[i]) <= t)
  }

  lemma Threshold(q: seq<real>, a: seq<int>)
    requires IsLargestRemainder(q, a)
    ensures exists t :: Separates(q, a, t)
  {
    if c :| 0 <= c < |q| && a[c] == q[c].Floor + 1 {
      var best := c;
      var k := 0;
      while k < |q|
        invariant 0 <= k <= |q| && 0 <= best < |q| && a[best] == q[best].Floor + 1
        invariant forall i :: 0 <= i < k && a[i] == q[i].Floor + 1 ==> Fraction(q[i]) >= Fraction(q[best])
      {
        if a[k] == q[k].Floor + 1 && Fraction(q[k]) < Fraction(q[best]) { best := k; }
        k := k + 1;
      }
      var t := Fraction(q[best]);
      forall i | 0 <= i < |q| && a[i] == q[i].Floor ensures Fraction(q[i]) <= t {
        assert !Before(q, i, best);
      }
      assert Separates(q, a, t);
    } else {
      assert Separates(q, a, 1.0);
    }
  }

  function Tilted(q: seq<real>, v: seq<int>, s: real): seq<real>
    requires |q| == |v|
  {
    seq(|q|, i requires 0 <= i < |q| => TiltedDistance(v[i], q[i], s))
  }

  lemma {:induction false} TiltedTotal(q: seq<real>, v: seq<int>, s: real)
    requires |q| == |v|
    ensures RealSum(Tilted(q, v, s)) == RealSum(Distance(q, v)) + Slope(s, Sum(v))
  {
    if q != [] {
      assert Tilted(q, v, s)[1..] == Tilted(q[1..], v[1..], s);
      assert Distance(q, v)[1..] == Distance(q[1..], v[1..]);
      TiltedTotal(q[1..], v[1..], s);
      SlopeAdd(s, v[0], Sum(v[1..]));
    }
  }

  /** Among all integer vectors with the same total, the result is nearest to the quotas in L1. */
  lemma LargestRemainderOptimal(q: seq<real>, a: seq<int>, v: seq<int>)
    requires IsLargestRemainder(q, a)
    requires |v| == |q| && Sum(v) == TOTAL
    ensures RealSum(Distance(q, a)) <= RealSum(Distance(q, v))
  {
    Threshold(q, a);
    var t :| Separates(q, a, t);
    var s := 2.0 * t - 1.0;
    forall i | 0 <= i < |q| ensures TiltedDistance(a[i], q[i], s) <= TiltedDistance(v[i], q[i], s) {
      ChosenIsBestAt(q[i], t, v[i], a[i]);
    }
    RealSumMonotone(Tilted(q, a, s), Tilted(q, v, s));
    TiltedTotal(q, a, s);
    TiltedTotal(q, v, s);
  }

  /** Only an action with a fraction to its quota is topped up. */
  lemma ToppedHasFraction(q: seq<real>, a: seq<int>, i: nat)
    requires IsQuotas(q) && IsLargestRemainder(q, a) && i < |q| && a[i] == q[i].Floor + 1
    ensures Fraction(q[i]) > 0.0
  {
    if Fraction(q[i]) == 0.0 {
      // Every action with a fraction would be topped up as well, which is one point too many.
      forall j | 0 <= j < |q| && Fraction(q[j]) > 0.0 ensures a[j] == q[j].Floor + 1 {
        assert Before(q, j, i);
      }
      RealSumMonotone(q, AsReals(a));
      RealSumOfInts(a);
      StrictSum(q, AsReals(a), i);
    }
  }

  /** The quota rule: every action is less than a point away from its exact share of the 10000. */
  lemma WithinOnePoint(w: seq<real>, a: seq<int>, i: nat)
    requires ValidWeights(w) && IsLargestRemainder(Quotas(w), a) && i < |w|
    ensures a[i] as real - 1.0 < w[i] / RealSum(w) * 10000.0 < a[i] as real + 1.0
  {
    var q := Quotas(w);
    QuotasTotal(w);
    assert q[i] == w[i] / RealSum(w) * 10000.0;
    if a[i] == q[i].Floor + 1 { ToppedHasFraction(q, a, i); }
  }

  /** An action of weight zero is never given a point. */
  lemma ZeroWeightGetsNothing(w: seq<real>, a: seq<int>, i: nat)
    requires ValidWeights(w) && IsLargestRemainder(Quotas(w), a)
    requires i < |w| && w[i] == 0.0
    ensures a[i] == 0
  {
    var q := Quotas(w);
    QuotasTotal(w);
    assert q[i] == 0.0;
    if a[i] == 1 { ToppedHasFraction(q, a, i); }
  }

  lemma {:induction false} StrictSum(a: seq<real>, b: seq<real>, i: nat)
    requires |a| == |b| && i < |a| && a[i] < b[i]
    requires forall j :: 0 <= j < |a| ==> a[j] <= b[j]
    ensures RealSum(a) < RealSum(b)
  {
    if i == 0 {
      RealSumMonotone(a[1..], b[1..]);
    } else {
      StrictSum(a[1..], b[1..], i - 1);
    }
  }

  /** A larger weight, or an equal one earlier in action order, never gets fewer points. */
  lemma OrderPreserved(w: seq<real>, a: seq<int>, i: nat, j: nat)
    requires ValidWeights(w) && IsLargestRemainder(Quotas(w), a)
    requires i < |w| && j < |w|
    requires w[i] > w[j] || (w[i] == w[j] && i <= j)
    ensures a[i] >= a[j]
  {
    var q := Quotas(w);
    var t := RealSum(w);
    assert q[i] >= q[j] && (w[i] > w[j] ==> q[i] > q[j]) by {
      assert w[i] > w[j] ==> w[i] / t > w[j] / t;
    }
    if q[i].Floor == q[j].Floor {
      assert Before(q, i, j);
    }
  }

  lemma Quotient(a: real, b: real, c: real)
    requires b > 0.0 && a == c * b
    ensures a / b == c
  {
  }

  lemma ScaledShare(w: real, t: real, x: real, y: real, u: real)
    requires t > 0.0 && x > 0.0 && w >= 0.0
    requires y == x * w && u == x * t
    ensures u > 0.0 && y >= 0.0
    ensures y / u == w / t
  {
    var share := w / t;
    assert share * t == w;
    assert share * u == x * (share * t);
    Quotient(y, u, share);
  }

  lemma ScaledShares(w: seq<real>, scaled: seq<real>, x: real, t: real, u: real)
    requires x > 0.0 && t > 0.0 && u == x * t && |scaled| == |w|
    requires forall i :: 0 <= i < |w| ==> w[i] >= 0.0 && scaled[i] == x * w[i]
    ensures u > 0.0
    ensures forall i :: 0 <= i < |w| ==> scaled[i] >= 0.0 && scaled[i] / u == w[i] / t
  {
    ScaledShare(0.0, t, x, 0.0, u);
    forall i | 0 <= i < |w| ensures scaled[i] >= 0.0 && scaled[i] / u == w[i] / t {
      ScaledShare(w[i], t, x, scaled[i], u);
    }
  }

  /** Only the proportions matter. */
  lemma ScaleInvariant(w: seq<real>, scaled: seq<real>, x: real)
    requires ValidWeights(w) && x > 0.0 && |scaled| == |w|
    requires forall i :: 0 <= i < |w| ==> scaled[i] == x * w[i]
    ensures ValidWeights(scaled) && Quotas(scaled) == Quotas(w)
  {
    RealSumScale(w, scaled, x);
    ScaledShares(w, scaled, x, RealSum(w), RealSum(scaled));
  }

  /** A vector that already is a strategy in basis points comes back unchanged. */
  lemma BasisPointsUnchanged(v: seq<int>, a: seq<int>)
    requires (forall i :: 0 <= i < |v| ==> v[i] >= 0) && Sum(v) == TOTAL
    ensures ValidWeights(AsReals(v))
    ensures IsLargestRemainder(Quotas(AsReals(v)), a) ==> a == v
  {
    RealSumOfInts(v);
    var q := Quotas(AsReals(v));
    forall i | 0 <= i < |v| ensures q[i] == v[i] as real && q[i].Floor == v[i] {
      assert v[i] as real / 10000.0 * 10000.0 == v[i] as real;
    }
    if IsLargestRemainder(q, a) {
      SumMonotone(v, a);
    }
  }

  // --------------------------------------------------------- the operation

  /** `Object.fromEntries`: a later entry under the same key wins. */
  function FromEntries(keys: seq<string>, values: seq<int>): map<string, int>
    requires |keys| == |values|
  {
    if keys == [] then map[]
    else
      var last := |keys| - 1;
      FromEntries(keys[..last], values[..last])[keys[last] := values[last]]
  }

  lemma {:induction false} FromEntriesLookup(keys: seq<string>, values: seq<int>)
    requires |keys| == |values| && Distinct(keys)
    ensures FromEntries(keys, values).Keys == set k | k in keys
    ensures forall i :: 0 <= i < |keys| ==>
      keys[i] in FromEntries(keys, values) && FromEntries(keys, values)[keys[i]] == values[i]
  {
    if keys != [] {
      var last := |keys| - 1;
      FromEntriesLookup(keys[..last], values[..last]);
      assert keys == keys[..last] + [keys[last]];
    }
  }

  /** What `basisPointFrequencies` answers. */
  function Frequencies(
      value: Option<map<string, Raw>>, order: seq<string>): (r: Result<map<string, int>, FrequencyError>)
  {
    if value.None? then Err(MissingFrequencies)
    else
      match Weights(value.value, order)
      case Err(e) => Err(e)
      case Ok(w) =>
        if RealSum(w) <= 0.0 then Err(InvalidTotal)
        else
          assert 0 <= Leftover(Quotas(w)) <= |RemainderOrder(Quotas(w))| by {
            QuotasTotal(w);
            ApportionIsLargestRemainder(Quotas(w));
          }
          Ok(FromEntries(order, Apportion(Quotas(w))))
  }

  method BasisPointFrequencies(value: Option<map<string, Raw>>, actionOrder: seq<string>)
    returns (r: Result<map<string, int>, FrequencyError>)
    ensures r == Frequencies(value, actionOrder)
  {
    if value.None? {
      return Err(MissingFrequencies);
    }
    var weights := Weights(value.value, actionOrder);
    if weights.Err? {
      return Err(weights.error);
    }
    var w := weights.value;
    var total := RealSum(w);
    if total <= 0.0 {
      return Err(InvalidTotal);
    }
    var quotas := Quotas(w);
    QuotasTotal(w);
    LeftoverInRange(quotas);
    RemainderOrderLaws(quotas);
    var n := |quotas|;
    var apportioned := new int[n](i requires 0 <= i < n => quotas[i].Floor);
    assert apportioned[..] == Floors(quotas);
    var remaining := TOTAL - Sum(apportioned[..]);
    var remainderOrder := RemainderOrder(quotas);
    assert apportioned[..] == Topped(quotas, remainderOrder[..0]);
    for offset := 0 to remaining
      invariant apportioned[..] == Topped(quotas, remainderOrder[..offset])
    {
      ToppedStep(quotas, remainderOrder, offset);
      var index := remainderOrder[offset];
      ghost var before := apportioned[..];
      apportioned[index] := apportioned[index] + 1;
      assert apportioned[..] == before[index := before[index] + 1];
    }
    return Ok(FromEntries(actionOrder, apportioned[..]));
  }

  lemma WeightsAre(value: map<string, Raw>, order: seq<string>, w: seq<real>)
    requires |w| == |order|
    requires forall i :: 0 <= i < |order| ==> order[i] in value && value[order[i]] == Finite(w[i]) && w[i] >= 0.0
    ensures Weights(value, order) == Ok(w)
  {
    var r := Weights(value, order);
    assert forall i :: 0 <= i < |order| ==> Usable(RawAt(value, order[i]));
    assert r.value == w;
  }

  /** For every usable weight vector the stored strategy totals exactly 10000 along a duplicate-free action order. */
  lemma FrequenciesAreBasisPoints(value: map<string, Raw>, order: seq<string>, w: seq<real>)
    requires |w| == |order| && Distinct(order) && RealSum(w) > 0.0
    requires forall i :: 0 <= i < |order| ==> order[i] in value && value[order[i]] == Finite(w[i]) && w[i] >= 0.0
    ensures Frequencies(Some(value), order).Ok?
    ensures var f := Frequencies(Some(value), order).value;
      && f.Keys == (set k | k in order)
      && var a := seq(|order|, i requires 0 <= i < |order| => f[order[i]]);
      && IsLargestRemainder(Quotas(w), a)
      && (forall i :: 0 <= i < |a| ==> 0 <= a[i])
      && Sum(a) == 10000
  {
    WeightsAre(value, order, w);
    QuotasTotal(w);
    ApportionIsLargestRemainder(Quotas(w));
    var a := Apportion(Quotas(w));
    FromEntriesLookup(order, a);
    var f := Frequencies(Some(value), order).value;
    assert seq(|order|, i requires 0 <= i < |order| => f[order[i]]) == a;
  }

  /** The provider gives a finite number, not below zero, for the action. */
  predicate GivesWeight(value: map<string, Raw>, id: string) {
    id in value && match value[id] case Finite(x) => x >= 0.0 case NonFinite => false case NotANumber => false
  }

  /** The call answers with a strategy exactly when every listed action has such a number and one is positive. */
  lemma FrequenciesSucceedExactly(value: map<string, Raw>, order: seq<string>)
    ensures Frequencies(Some(value), order).Ok? <==>
      && (forall i :: 0 <= i < |order| ==> GivesWeight(value, order[i]))
      && (exists i :: 0 <= i < |order| && GivesWeight(value, order[i]) && value[order[i]].value > 0.0)
  {
    var r := Weights(value, order);
    assert forall id :: Usable(RawAt(value, id)) <==> GivesWeight(value, id);
    if r.Ok? {
      PositiveSum(r.value);
    }
  }

  /**
   * Which error: none given, the first listed action without such a number, or nothing but zeros.
   */
  lemma FrequencyErrors(value: map<string, Raw>, order: seq<string>, k: nat)
    ensures Frequencies(None, order) == Err(MissingFrequencies)
    ensures Frequencies(Some(value), order) == Err(InvalidFrequency(k)) <==>
      k < |order| && !GivesWeight(value, order[k]) && forall i :: 0 <= i < k ==> GivesWeight(value, order[i])
    ensures Frequencies(Some(value), order) == Err(InvalidTotal) <==>
      forall i :: 0 <= i < |order| ==> GivesWeight(value, order[i]) && value[order[i]].value == 0.0
  {
    var r := Weights(value, order);
    assert forall id :: Usable(RawAt(value, id)) <==> GivesWeight(value, id);
    if r.Ok? {
      PositiveSum(r.value);
    }
  }

  lemma {:induction false} PositiveSum(w: seq<real>)
    requires forall i :: 0 <= i < |w| ==> w[i] >= 0.0
    ensures RealSum(w) >= 0.0
    ensures RealSum(w) > 0.0 <==> exists i :: 0 <= i < |w| && w[i] > 0.0
  {
    if w != [] {
      PositiveSum(w[1..]);
      if w[0] == 0.0 && RealSum(w) > 0.0 {
        var i :| 0 <= i < |w[1..]| && w[1..][i] > 0.0;
        assert w[i + 1] > 0.0;
      }
      if i :| 0 <= i < |w| && w[i] > 0.0 {
        assert i > 0 ==> w[1..][i - 1] > 0.0;
      }
    }
  }
}
