/** Strings compared by code units, as `<` and the default sort of the language do. */
module TextOrder {
  import opened Sorting

  /** Comparison of strings by code units, from position `k` on. */
  predicate LexFrom(a: string, b: string, k: nat)
    decreases |a| - k
  {
    k < |b| && (k >= |a| || a[k] < b[k] || (a[k] == b[k] && LexFrom(a, b, k + 1)))
  }

  predicate LexLess(a: string, b: string) { LexFrom(a, b, 0) }

  /** The first difference decides. */
  lemma {:induction false} LexAt(a: string, b: string, i: nat, k: nat)
    requires i <= k < |a| && k < |b| && a[i..k] == b[i..k] && a[k] != b[k]
    ensures LexFrom(a, b, i) <==> a[k] < b[k]
    decreases k - i
  {
    if i < k {
      assert a[i] == a[i..k][0] && b[i] == b[i..k][0];
      assert a[i + 1..k] == a[i..k][1..] && b[i + 1..k] == b[i..k][1..];
      LexAt(a, b, i + 1, k);
    }
  }

  /** The two strings differ at `k` and nowhere before. */
  predicate DifferFirstAt(a: string, b: string, k: nat) { k < |a| && k < |b| && a[..k] == b[..k] && a[k] != b[k] }

  lemma {:induction false} FirstDifference(a: string, b: string, i: nat)
    requires i <= |a| == |b| && a[..i] == b[..i] && a != b
    ensures exists k :: DifferFirstAt(a, b, k)
    decreases |a| - i
  {
    assert a == a[..|a|] && b == b[..|b|];
    assert i < |a|;
    if a[i] != b[i] {
      assert DifferFirstAt(a, b, i);
    } else {
      assert a[..i + 1] == a[..i] + [a[i]] && b[..i + 1] == b[..i] + [b[i]];
      FirstDifference(a, b, i + 1);
    }
  }

  lemma {:induction false} LexIrreflexive(a: string, k: nat)
    ensures !LexFrom(a, a, k)
    decreases |a| - k
  {
    if k < |a| {
      LexIrreflexive(a, k + 1);
    }
  }

  function LexLe(): (string, string) -> bool { (a, b) => a == b || LexLess(a, b) }

  lemma {:induction false} LexTransitive(a: string, b: string, c: string, k: nat)
    requires LexFrom(a, b, k) && LexFrom(b, c, k)
    ensures LexFrom(a, c, k)
    decreases |a| - k
  {
    if k < |a| && a[k] == b[k] == c[k] {
      LexTransitive(a, b, c, k + 1);
    }
  }

  lemma {:induction false} LexAsymmetric(a: string, b: string, k: nat)
    requires LexFrom(a, b, k)
    ensures !LexFrom(b, a, k)
    decreases |a| - k
  {
    if k < |a| && a[k] == b[k] {
      LexAsymmetric(a, b, k + 1);
    }
  }

  lemma {:induction false} LexTotal(a: string, b: string, k: nat)
    requires k <= |a| && k <= |b| && a[..k] == b[..k]
    ensures a == b || LexFrom(a, b, k) || LexFrom(b, a, k)
    decreases |a| - k
  {
    if k < |a| && k < |b| && a[k] == b[k] {
      assert a[..k + 1] == a[..k] + [a[k]] && b[..k + 1] == b[..k] + [b[k]];
      LexTotal(a, b, k + 1);
    } else if k == |a| == |b| {
      assert a == a[..k] && b == b[..k];
    }
  }

  lemma LexLeTotalOrder()
    ensures TotalOrder(LexLe())
  {
    var le := LexLe();
    forall a, b, c ensures le(a, b) || le(b, a)
      ensures le(a, b) && le(b, c) ==> le(a, c)
      ensures le(a, b) && le(b, a) ==> a == b
    {
      LexTotal(a, b, 0);
      if LexLess(a, b) && LexLess(b, c) {
        LexTransitive(a, b, c, 0);
      }
      if LexLess(a, b) {
        LexAsymmetric(a, b, 0);
      }
    }
  }
}
