/**
 * The third printer, `canonicalize` and `canonicalJson` of src/solver/normalized.ts:68-76: it
 * builds a new object from the sorted entries and stringifies that. An object lists keys that
 * are array indexes first, in numeric order (ECMA-262, section 10.1.11.1), whatever the order
 * they were added in.
 */
module CanonicalCopies {
  import opened Sorting
  import opened Grouping
  import opened JsonText
  import opened CanonicalJson

  // ------------------------------------------------------ array index keys

  predicate Digit(u: Unit) { 48 <= u <= 57 }

  function Decimal(k: Text): nat {
    if k == [] then 0 else 10 * Decimal(k[..|k| - 1]) + if Digit(k[|k| - 1]) then k[|k| - 1] - 48 else 0
  }

  predicate Plain(k: Text) {
    k != [] && (forall i :: 0 <= i < |k| ==> Digit(k[i])) && (k[0] != 48 || |k| == 1)
  }

  /** An array index (ECMA-262, section 6.1.7): a plain decimal below 2^32 - 1. */
  predicate IsIndex(k: Text) { Plain(k) && Decimal(k) < 0xFFFF_FFFF }

  lemma {:induction false} PlainIsPositive(k: Text)
    requires Plain(k) && k != [48]
    ensures Decimal(k) > 0
  {
    if |k| > 1 {
      PlainIsPositive(k[..|k| - 1]);
    }
  }

  /** Plain decimals with one value are one text. */
  lemma {:induction false} DecimalUnique(a: Text, b: Text)
    requires Plain(a) && Plain(b) && Decimal(a) == Decimal(b)
    ensures a == b
    decreases |a| + |b|
  {
    var m, n := |a| - 1, |b| - 1;
    assert a == a[..m] + [a[m]] && b == b[..n] + [b[n]];
    if m > 0 {
      PlainIsPositive(a[..m]);
    }
    if n > 0 {
      PlainIsPositive(b[..n]);
    }
    if m > 0 && n > 0 {
      DecimalUnique(a[..m], b[..n]);
    }
  }

  /** The text of a number in decimal. */
  function DecimalText(n: nat): Text { if n < 10 then [48 + n] else DecimalText(n / 10) + [48 + n % 10] }

  lemma {:induction false} DecimalTextIsPlain(n: nat)
    ensures Plain(DecimalText(n)) && Decimal(DecimalText(n)) == n && (n > 0 ==> DecimalText(n)[0] != 48)
  {
    var k := DecimalText(n);
    if n >= 10 {
      DecimalTextIsPlain(n / 10);
      assert k[..|k| - 1] == DecimalText(n / 10);
    } else {
      assert k[..0] == [];
    }
  }

  /** The keys that an object lists first are the decimal texts of the numbers below 2^32 - 1. */
  lemma IndexKeysExactly(k: Text)
    ensures IsIndex(k) <==> exists n: nat :: n < 4294967295 && DecimalText(n) == k
  {
    if IsIndex(k) {
      DecimalTextIsPlain(Decimal(k));
      DecimalUnique(k, DecimalText(Decimal(k)));
    }
    forall n: nat | DecimalText(n) == k ensures Plain(k) && Decimal(k) == n {
      DecimalTextIsPlain(n);
    }
  }

  // ------------------------------------------------------------ the printer

  function NumericLe(): KeyOrder { (a: Text, b: Text) => Decimal(a) <= Decimal(b) }

  function IndexKey<T>(): ((Text, T)) -> bool { (m: (Text, T)) => IsIndex(m.0) }

  /** The member order of an object built from these entries one by one. */
  function FromEntries<T>(entries: seq<(Text, T)>): seq<(Text, T)> {
    Sort(ByKey(NumericLe()), Bucket(entries, IndexKey(), true)) + Bucket(entries, IndexKey(), false)
  }

  function Canonicalize(le: KeyOrder, v: Json): Json
    decreases v
  {
    match v
    case Arr(items) => Arr(seq(|items|, i requires 0 <= i < |items| => Canonicalize(le, items[i])))
    case Obj(members) =>
      Obj(FromEntries(Sort(ByKey(le),
        seq(|members|, i requires 0 <= i < |members| => (members[i].0, Canonicalize(le, members[i].1))))))
    case _ => v
  }

  function CanonicalJsonText(le: KeyOrder, v: Json): Text { Write(Canonicalize(le, v)) }

  // ------------------------------------------------- the order it comes to

  /** Array indexes first, by value; the other keys as `le` says. */
  function JsLe(le: KeyOrder): KeyOrder {
    (a: Text, b: Text) =>
      if IsIndex(a) then !IsIndex(b) || Decimal(a) <= Decimal(b) else !IsIndex(b) && le(a, b)
  }

  lemma JsLeTotal(le: KeyOrder)
    requires TotalOrder(le)
    ensures TotalOrder(JsLe(le))
  {
    var js := JsLe(le);
    forall a, b ensures js(a, b) || js(b, a)
      ensures js(a, b) && js(b, a) ==> a == b
    {
      assert le(a, b) || le(b, a);
      if js(a, b) && js(b, a) {
        if IsIndex(a) {
          DecimalUnique(a, b);
        }
      }
    }
    forall a, b, c ensures js(a, b) && js(b, c) ==> js(a, c) {
      assert le(a, b) && le(b, c) ==> le(a, c);
    }
  }

  lemma {:induction false} BucketSorted<T(!new)>(le: KeyOrder, s: seq<(Text, T)>, index: bool)
    requires Sorted(ByKey(le), s) && DistinctKeys(s)
    ensures Sorted(ByKey(le), Bucket(s, IndexKey(), index)) && DistinctKeys(Bucket(s, IndexKey(), index))
  {
    if s != [] {
      var n := |s| - 1;
      BucketSorted(le, s[..n], index);
      BucketHolds(s[..n], IndexKey<T>(), index);
      var rest := Bucket(s[..n], IndexKey<T>(), index);
      forall i | 0 <= i < |rest| ensures ByKey<T>(le)(rest[i], s[n]) && rest[i].0 != s[n].0 {
        assert rest[i] in s[..n];
        var j :| 0 <= j < n && s[j] == rest[i];
        assert ByKey<T>(le)(s[j], s[n]);
      }
    }
  }

  /** Rebuilding the object from entries sorted by `le` sorts them by the combined order. */
  lemma FromEntriesSorts<T(!new)>(le: KeyOrder, members: seq<(Text, T)>)
    requires TotalOrder(le) && DistinctKeys(members)
    ensures FromEntries(Sort(ByKey(le), members)) == Sort(ByKey(JsLe(le)), members)
  {
    var s := Sort(ByKey(le), members);
    SortByKey(le, members);
    FromEntriesOrdered(le, s);
    JsLeTotal(le);
    SortByKey(JsLe(le), members);
    hide Sort, FromEntries, JsLe;
    SortedByKeyUnique(JsLe(le), FromEntries(s), Sort(ByKey(JsLe(le)), members));
  }

  lemma FromEntriesOrdered<T(!new)>(le: KeyOrder, s: seq<(Text, T)>)
    requires Sorted(ByKey(le), s) && DistinctKeys(s)
    ensures Sorted(ByKey(JsLe(le)), FromEntries(s)) && DistinctKeys(FromEntries(s))
    ensures forall m :: m in FromEntries(s) <==> m in s
  {
    var low, high := Bucket(s, IndexKey<T>(), true), Bucket(s, IndexKey<T>(), false);
    BucketSorted(le, s, true);
    BucketSorted(le, s, false);
    BucketHolds(s, IndexKey<T>(), true);
    BucketHolds(s, IndexKey<T>(), false);
    SortLow(low);
    hide Sort, Bucket, IsIndex;
    Combined(le, Sort(ByKey(NumericLe()), low), high);
  }

  /** Indexes in numeric order, then other keys in `le` order, are in the combined order. */
  lemma Combined<T(!new)>(le: KeyOrder, low: seq<(Text, T)>, high: seq<(Text, T)>)
    requires Sorted(ByKey(NumericLe()), low) && DistinctKeys(low) && forall m :: m in low ==> IsIndex(m.0)
    requires Sorted(ByKey(le), high) && DistinctKeys(high) && forall m :: m in high ==> !IsIndex(m.0)
    ensures Sorted(ByKey(JsLe(le)), low + high) && DistinctKeys(low + high)
  {
    var all := low + high;
    forall i, j | 0 <= i < j < |all| ensures ByKey<T>(JsLe(le))(all[i], all[j]) && all[i].0 != all[j].0 {
      if j < |low| {
        assert low[i] in low && low[j] in low && ByKey<T>(NumericLe())(low[i], low[j]);
      } else if i >= |low| {
        assert high[i - |low|] in high && high[j - |low|] in high && ByKey<T>(le)(high[i - |low|], high[j - |low|]);
      } else {
        assert low[i] in low && high[j - |low|] in high;
      }
    }
  }

  lemma SortLow<T(!new)>(low: seq<(Text, T)>)
    requires DistinctKeys(low)
    ensures var s := Sort(ByKey(NumericLe()), low);
      Sorted(ByKey(NumericLe()), s) && DistinctKeys(s) && forall m :: m in s <==> m in low
  {
    var s := Sort(ByKey(NumericLe()), low);
    SortKeepsKeys(NumericLe(), low);
    SortSorted(ByKey(NumericLe()), low);
  }

  lemma {:induction false} CanonicalizeIsOrdered(le: KeyOrder, v: Json)
    requires TotalOrder(le) && WellFormed(v)
    ensures Canonicalize(le, v) == Ordered(JsLe(le), v)
    decreases v
  {
    match v {
      case Arr(items) =>
        forall i | 0 <= i < |items| ensures Canonicalize(le, items[i]) == Ordered(JsLe(le), items[i]) {
          CanonicalizeIsOrdered(le, items[i]);
        }
      case Obj(members) =>
        forall i | 0 <= i < |members| ensures Canonicalize(le, members[i].1) == Ordered(JsLe(le), members[i].1) {
          CanonicalizeIsOrdered(le, members[i].1);
        }
        var children := seq(|members|, i requires 0 <= i < |members| => (members[i].0, Canonicalize(le, members[i].1)));
        assert children == OrderedMembers(JsLe(le), members);
        FromEntriesSorts(le, children);
      case _ =>
    }
  }

  // -------------------------------------------------------------- theorems

  /** The third copy, too, identifies values exactly up to the order of keys. */
  lemma CanonicalJsonIdentifies(le: KeyOrder, v: Json, w: Json)
    requires TotalOrder(le) && WellFormed(v) && WellFormed(w)
    ensures CanonicalJsonText(le, v) == CanonicalJsonText(le, w) <==> Meaning(v) == Meaning(w)
  {
    CanonicalizeIsOrdered(le, v);
    CanonicalizeIsOrdered(le, w);
    CanonicalWritesOrdered(JsLe(le), v);
    CanonicalWritesOrdered(JsLe(le), w);
    JsLeTotal(le);
    CanonicalIdentifies(JsLe(le), v, w);
  }

  /** Two orders agree on the keys of these members. */
  predicate KeysAgree(le: KeyOrder, js: KeyOrder, s: seq<(Text, Json)>) {
    forall i, j :: 0 <= i < |s| && 0 <= j < |s| ==> (le(s[i].0, s[j].0) <==> js(s[i].0, s[j].0))
  }

  /** In every object, the comparator and the language put the keys in the same order. */
  predicate OrdersAgree(le: KeyOrder, v: Json)
    decreases v
  {
    match v
    case Arr(items) => forall i :: 0 <= i < |items| ==> OrdersAgree(le, items[i])
    case Obj(members) =>
      && KeysAgree(le, JsLe(le), members)
      && (forall i :: 0 <= i < |members| ==> OrdersAgree(le, members[i].1))
    case _ => true
  }

  /** Two members that one list has in two key orders are ordered alike by both. */
  lemma SameListAgrees(le: KeyOrder, js: KeyOrder, a: seq<(Text, Json)>, x: (Text, Json), y: (Text, Json))
    requires TotalOrder(le) && TotalOrder(js) && DistinctKeys(a) && x in a && y in a
    requires Sorted(ByKey(le), a) && Sorted(ByKey(js), a)
    ensures le(x.0, y.0) <==> js(x.0, y.0)
  {
    var p :| 0 <= p < |a| && a[p] == x;
    var q :| 0 <= q < |a| && a[q] == y;
    hide TotalOrder;
    if p < q {
      assert ByKey<Json>(le)(x, y) && ByKey<Json>(js)(x, y);
    } else if q < p {
      assert ByKey<Json>(le)(y, x) && ByKey<Json>(js)(y, x) && x.0 != y.0;
      OneWayOnly(le, x.0, y.0);
      OneWayOnly(js, x.0, y.0);
    } else {
      OneWayOnly(le, x.0, y.0);
      OneWayOnly(js, x.0, y.0);
    }
  }

  lemma OneWayOnly(le: KeyOrder, x: Text, y: Text)
    requires TotalOrder(le)
    ensures le(x, y) && le(y, x) <==> x == y
  {
  }

  /** A list in one key order is in the other, if the two agree on its keys. */
  lemma AgreeingIsSorted(le: KeyOrder, js: KeyOrder, s: seq<(Text, Json)>, a: seq<(Text, Json)>)
    requires Sorted(ByKey(le), a) && KeysAgree(le, js, s) && forall m :: m in a ==> m in s
    ensures Sorted(ByKey(js), a)
  {
    forall p, q | 0 <= p < q < |a| ensures ByKey<Json>(js)(a[p], a[q]) {
      assert a[p] in s && a[q] in s;
      var i :| 0 <= i < |s| && s[i] == a[p];
      var j :| 0 <= j < |s| && s[j] == a[q];
      assert ByKey<Json>(le)(a[p], a[q]);
    }
  }

  /** Keys that two orders agree on are sorted the same way by both. */
  lemma AgreeingSorts(le: KeyOrder, js: KeyOrder, s: seq<(Text, Json)>)
    requires TotalOrder(le) && TotalOrder(js) && DistinctKeys(s)
    ensures Sort(ByKey(le), s) == Sort(ByKey(js), s) <==> KeysAgree(le, js, s)
  {
    var a, b := Sort(ByKey(le), s), Sort(ByKey(js), s);
    SortByKey(le, s);
    SortByKey(js, s);
    hide Sort, ByKey, Sorted, TotalOrder, DistinctKeys;
    if a == b {
      forall i, j | 0 <= i < |s| && 0 <= j < |s| ensures le(s[i].0, s[j].0) <==> js(s[i].0, s[j].0) {
        SameListAgrees(le, js, a, s[i], s[j]);
      }
    }
    if KeysAgree(le, js, s) {
      hide KeysAgree;
      AgreeingIsSorted(le, js, s, a);
      SortedByKeyUnique(js, a, b);
    }
  }

  /** Ordering a value with comparator or language gives the same exactly when the two orders agree in it. */
  ghost predicate ItemAgrees(le: KeyOrder, v: Json) { Ordered(le, v) == Ordered(JsLe(le), v) <==> OrdersAgree(le, v) }

  lemma ArraysAgree(le: KeyOrder, items: seq<Json>)
    requires forall i :: 0 <= i < |items| ==> ItemAgrees(le, items[i])
    ensures ItemAgrees(le, Arr(items))
  {
    var a, b := Ordered(le, Arr(items)).items, Ordered(JsLe(le), Arr(items)).items;
    forall i | 0 <= i < |items| ensures a[i] == b[i] <==> OrdersAgree(le, items[i]) {
      assert ItemAgrees(le, items[i]);
    }
    assert a == b <==> forall i :: 0 <= i < |items| ==> a[i] == b[i];
  }

  lemma OrderedObject(le: KeyOrder, members: seq<(Text, Json)>)
    ensures Ordered(le, Obj(members)) == Obj(Sort(ByKey(le), OrderedMembers(le, members)))
  {
  }

  lemma ObjectAgreement(le: KeyOrder, members: seq<(Text, Json)>)
    ensures OrdersAgree(le, Obj(members)) <==>
      KeysAgree(le, JsLe(le), members) && forall i :: 0 <= i < |members| ==> OrdersAgree(le, members[i].1)
  {
  }

  /** Two orders sort members of the same keys alike exactly when they agree on the keys and the members are equal. */
  lemma SortsAgree(le: KeyOrder, js: KeyOrder, a: seq<(Text, Json)>, b: seq<(Text, Json)>)
    requires TotalOrder(le) && TotalOrder(js) && DistinctKeys(a) && |a| == |b|
    requires forall i :: 0 <= i < |a| ==> a[i].0 == b[i].0
    ensures Sort(ByKey(le), a) == Sort(ByKey(js), b) <==> KeysAgree(le, js, a) && a == b
  {
    hide Sort, ByKey, KeysAgree, TotalOrder, DistinctKeys;
    AgreeingSorts(le, js, a);
    SameSortSameChildren(le, js, a, b);
  }

  lemma ObjectsAgree(le: KeyOrder, members: seq<(Text, Json)>)
    requires TotalOrder(le) && DistinctKeys(members)
    requires forall i :: 0 <= i < |members| ==> ItemAgrees(le, members[i].1)
    ensures ItemAgrees(le, Obj(members))
  {
    var a, b := OrderedMembers(le, members), OrderedMembers(JsLe(le), members);
    hide Ordered, OrdersAgree, KeysAgree, Sort, ByKey, TotalOrder, DistinctKeys, JsLe;
    assert forall i :: 0 <= i < |members| ==> a[i].0 == members[i].0 && b[i].0 == members[i].0;
    ChildrenAgree(le, members);
    hide OrderedMembers;
    OrderedObject(le, members);
    OrderedObject(JsLe(le), members);
    ObjectAgreement(le, members);
    JsLeTotal(le);
    SameKeysAgree(le, JsLe(le), members, a);
    SortsAgree(le, JsLe(le), a, b);
  }

  lemma ChildrenAgree(le: KeyOrder, members: seq<(Text, Json)>)
    requires forall i :: 0 <= i < |members| ==> ItemAgrees(le, members[i].1)
    ensures OrderedMembers(le, members) == OrderedMembers(JsLe(le), members) <==>
      forall i :: 0 <= i < |members| ==> OrdersAgree(le, members[i].1)
  {
    var a, b := OrderedMembers(le, members), OrderedMembers(JsLe(le), members);
    forall i | 0 <= i < |members| ensures a[i] == b[i] <==> OrdersAgree(le, members[i].1) {
      assert ItemAgrees(le, members[i].1);
      hide OrdersAgree, JsLe;
    }
    hide OrdersAgree, Ordered, JsLe;
    assert a == b <==> forall i :: 0 <= i < |members| ==> a[i] == b[i];
  }

  /** Whether orders agree on some members depends on their keys only. */
  lemma SameKeysAgree(le: KeyOrder, js: KeyOrder, s: seq<(Text, Json)>, t: seq<(Text, Json)>)
    requires |s| == |t| && forall i :: 0 <= i < |s| ==> s[i].0 == t[i].0
    ensures KeysAgree(le, js, s) <==> KeysAgree(le, js, t)
    ensures DistinctKeys(s) <==> DistinctKeys(t)
  {
  }

  /** Ordering with either order gives the same value exactly when the orders agree on the keys that occur together. */
  lemma {:induction false} OrderedAgree(le: KeyOrder, v: Json)
    requires TotalOrder(le) && WellFormed(v)
    ensures ItemAgrees(le, v)
    decreases v
  {
    match v {
      case Arr(items) =>
        forall i | 0 <= i < |items| ensures ItemAgrees(le, items[i]) {
          OrderedAgree(le, items[i]);
        }
        ArraysAgree(le, items);
      case Obj(members) =>
        forall i | 0 <= i < |members| ensures ItemAgrees(le, members[i].1) {
          OrderedAgree(le, members[i].1);
        }
        ObjectsAgree(le, members);
      case _ =>
    }
  }

  /** If sorting two lists with the same keys gives the same members, they were the same members. */
  lemma SameSortSameChildren(le: KeyOrder, js: KeyOrder, a: seq<(Text, Json)>, b: seq<(Text, Json)>)
    requires TotalOrder(le) && TotalOrder(js) && DistinctKeys(a) && |a| == |b| && forall i :: 0 <= i < |a| ==>
      a[i].0 == b[i].0
    ensures Sort(ByKey(le), a) == Sort(ByKey(js), b) ==> a == b
  {
    SortByKey(le, a);
    SortByKey(js, b);
    hide Sort;
    if Sort(ByKey(le), a) == Sort(ByKey(js), b) {
      forall i | 0 <= i < |a| ensures a[i] == b[i] {
        assert a[i] in b;
        var j :| 0 <= j < |b| && b[j] == a[i];
      }
    }
  }

  /**
   * The copies print the same text exactly when, in every object, comparator and language agree on
   * the order of keys.
   */
  lemma CopiesAgreeExactly(le: KeyOrder, v: Json)
    requires TotalOrder(le) && WellFormed(v)
    ensures CanonicalJsonText(le, v) == Canonical(le, v) <==> OrdersAgree(le, v)
  {
    CanonicalizeIsOrdered(le, v);
    CanonicalWritesOrdered(le, v);
    WriteInjective(Ordered(le, v), Ordered(JsLe(le), v));
    OrderedAgree(le, v);
  }

  /** No object has a key that is an array index. */
  predicate NoIndexKeys(v: Json)
    decreases v
  {
    match v
    case Arr(items) => forall i :: 0 <= i < |items| ==> NoIndexKeys(items[i])
    case Obj(members) => forall i :: 0 <= i < |members| ==> !IsIndex(members[i].0) && NoIndexKeys(members[i].1)
    case _ => true
  }

  lemma {:induction false} NoIndexKeysAgree(le: KeyOrder, v: Json)
    requires NoIndexKeys(v)
    ensures OrdersAgree(le, v)
    decreases v
  {
    match v {
      case Arr(items) =>
        forall i | 0 <= i < |items| ensures OrdersAgree(le, items[i]) {
          NoIndexKeysAgree(le, items[i]);
        }
      case Obj(members) =>
        forall i | 0 <= i < |members| ensures OrdersAgree(le, members[i].1) {
          NoIndexKeysAgree(le, members[i].1);
        }
      case _ =>
    }
  }

  /** Without integer-like keys all three copies print the same text. */
  lemma CopiesAgreeWithoutIndexKeys(le: KeyOrder, v: Json)
    requires TotalOrder(le) && WellFormed(v) && NoIndexKeys(v)
    ensures CanonicalJsonText(le, v) == Canonical(le, v)
  {
    NoIndexKeysAgree(le, v);
    CopiesAgreeExactly(le, v);
  }

  /** With them they need not: the keys "10" and "9", where text order puts "10" first. */
  lemma CopiesDiffer(le: KeyOrder)
    requires TotalOrder(le) && le([49, 48], [57])
    ensures var v := Obj([([49, 48], Null), ([57], Null)]);
      WellFormed(v) && CanonicalJsonText(le, v) != Canonical(le, v)
  {
    var ten, nine: Text := [49, 48], [57];
    var v := Obj([(ten, Null), (nine, Null)]);
    assert ten[..1] == [49] && Decimal([49]) == 1 && Decimal(ten) == 10 && Decimal(nine) == 9;
    assert !JsLe(le)(v.members[0].0, v.members[1].0);
    CopiesAgreeExactly(le, v);
  }
}
