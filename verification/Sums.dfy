/** Finite sums over vectors, integer and real, with the few laws the scoring arithmetic needs. */
module Sums {

  function Sum(s: seq<int>): int {
    if s == [] then 0 else s[0] + Sum(s[1..])
  }

  function RealSum(s: seq<real>): real {
    if s == [] then 0.0 else s[0] + RealSum(s[1..])
  }

  function AsReals(s: seq<int>): seq<real> {
    seq(|s|, i requires 0 <= i < |s| => s[i] as real)
  }

  lemma {:induction false} SumUpdate(s: seq<int>, i: nat, v: int)
    requires i < |s|
    ensures Sum(s[i := v]) == Sum(s) - s[i] + v
  {
    if i == 0 {
      assert s[0 := v][1..] == s[1..];
    } else {
      assert s[i := v][1..] == s[1..][i - 1 := v];
      SumUpdate(s[1..], i - 1, v);
    }
  }

  /** Vectors that agree with `c == x * a + y * b` at every index agree so in total. */
  lemma {:induction false} SumLinear(a: seq<int>, b: seq<int>, c: seq<int>, x: int, y: int)
    requires |a| == |b| == |c|
    requires forall i :: 0 <= i < |a| ==> c[i] == x * a[i] + y * b[i]
    ensures Sum(c) == x * Sum(a) + y * Sum(b)
  {
    if a != [] {
      SumLinear(a[1..], b[1..], c[1..], x, y);
      assert x * (a[0] + Sum(a[1..])) == x * a[0] + x * Sum(a[1..]);
      assert y * (b[0] + Sum(b[1..])) == y * b[0] + y * Sum(b[1..]);
    }
  }

  lemma {:induction false} SumMonotone(a: seq<int>, b: seq<int>)
    requires |a| == |b|
    requires forall i :: 0 <= i < |a| ==> a[i] <= b[i]
    ensures Sum(a) <= Sum(b)
    ensures Sum(a) == Sum(b) ==> a == b
  {
    if a != [] {
      SumMonotone(a[1..], b[1..]);
      if Sum(a) == Sum(b) {
        assert a[0] == b[0];
        assert a == [a[0]] + a[1..] && b == [b[0]] + b[1..];
      }
    }
  }

  lemma {:induction false} SumBounds(s: seq<int>, lo: int, hi: int)
    requires forall i :: 0 <= i < |s| ==> lo <= s[i] <= hi
    ensures lo * |s| <= Sum(s) <= hi * |s|
  {
    if s != [] {
      SumBounds(s[1..], lo, hi);
      assert lo * |s| == lo + lo * |s[1..]|;
      assert hi * |s| == hi + hi * |s[1..]|;
    }
  }

  lemma {:induction false} RealSumOfInts(s: seq<int>)
    ensures RealSum(AsReals(s)) == Sum(s) as real
  {
    if s != [] {
      assert AsReals(s)[1..] == AsReals(s[1..]);
      RealSumOfInts(s[1..]);
    }
  }

  lemma {:induction false} RealSumScale(s: seq<real>, t: seq<real>, x: real)
    requires |s| == |t|
    requires forall i :: 0 <= i < |s| ==> t[i] == x * s[i]
    ensures RealSum(t) == x * RealSum(s)
  {
    if s != [] {
      RealSumScale(s[1..], t[1..], x);
      assert x * (s[0] + RealSum(s[1..])) == x * s[0] + x * RealSum(s[1..]);
    }
  }

  /** The same with the total named, so that callers see no product of sums. */
  lemma RealSumScaled(s: seq<real>, t: seq<real>, x: real, total: real)
    requires |s| == |t| && RealSum(s) == total
    requires forall i :: 0 <= i < |s| ==> t[i] == x * s[i]
    ensures RealSum(t) == x * total
  {
    RealSumScale(s, t, x);
  }

  lemma {:induction false} RealSumPlus(a: seq<real>, b: seq<real>, c: seq<real>)
    requires |a| == |b| == |c|
    requires forall i :: 0 <= i < |a| ==> c[i] == a[i] + b[i]
    ensures RealSum(c) == RealSum(a) + RealSum(b)
  {
    if a != [] {
      RealSumPlus(a[1..], b[1..], c[1..]);
    }
  }

  lemma {:induction false} RealSumMonotone(a: seq<real>, b: seq<real>)
    requires |a| == |b|
    requires forall i :: 0 <= i < |a| ==> a[i] <= b[i]
    ensures RealSum(a) <= RealSum(b)
  {
    if a != [] {
      RealSumMonotone(a[1..], b[1..]);
    }
  }
}
