/**
 * The canonical printers used for hashing and idempotency: `canonical`
 * (src/application/public-api.ts:53-57), `canonicalJson` (src/solver/import-provenance.ts:3-12)
 * and `canonicalize` with `canonicalJson` (src/solver/normalized.ts:68-76). `le` is the key
 * comparator, `localeCompare`, taken to be a total order.
 */
module CanonicalJson {
  import opened Common
  import opened Sorting
  import opened JsonText

  // -------------------------------------------------------------- meaning

  /** A JSON value without an order of members. */
  datatype Value =
    | VNull
    | VBool(b: bool)
    | VNum(text: Number)
    | VStr(s: Text)
    | VArr(items: seq<Value>)
    | VObj(fields: map<Text, Value>)

  predicate DistinctKeys<T>(members: seq<(Text, T)>) {
    forall i, j :: 0 <= i < j < |members| ==> members[i].0 != members[j].0
  }

  function KeySet<T>(members: seq<(Text, T)>): set<Text> { set i | 0 <= i < |members| :: members[i].0 }

  /** The last member with the key. */
  function Find<T>(members: seq<(Text, T)>, k: Text): (i: nat)
    requires k in KeySet(members)
    ensures i < |members| && members[i].0 == k
  {
    if members[|members| - 1].0 == k then |members| - 1 else Find(members[..|members| - 1], k)
  }

  function Meaning(v: Json): Value {
    match v
    case Null => VNull
    case Bool(b) => VBool(b)
    case Num(t) => VNum(t)
    case Str(s) => VStr(s)
    case Arr(items) => VArr(seq(|items|, i requires 0 <= i < |items| => Meaning(items[i])))
    case Obj(members) => VObj(map k | k in KeySet(members) :: Meaning(members[Find(members, k)].1))
  }

  /** Objects of the language: no key twice. */
  predicate WellFormed(v: Json) {
    match v
    case Arr(items) => forall i :: 0 <= i < |items| ==> WellFormed(items[i])
    case Obj(members) => DistinctKeys(members) && forall i :: 0 <= i < |members| ==> WellFormed(members[i].1)
    case _ => true
  }

  // ------------------------------------------------------------- ordering

  type KeyOrder = (Text, Text) -> bool

  function ByKey<T>(le: KeyOrder): ((Text, T), (Text, T)) -> bool {
    (a: (Text, T), b: (Text, T)) => le(a.0, b.0)
  }

  /** The value with the members of every object in key order. */
  function Ordered(le: KeyOrder, v: Json): Json
    decreases v
  {
    match v
    case Arr(items) => Arr(seq(|items|, i requires 0 <= i < |items| => Ordered(le, items[i])))
    case Obj(members) => Obj(Sort(ByKey(le),
      seq(|members|, i requires 0 <= i < |members| => (members[i].0, Ordered(le, members[i].1)))))
    case _ => v
  }

  function OrderedMembers(le: KeyOrder, members: seq<(Text, Json)>): seq<(Text, Json)> {
    seq(|members|, i requires 0 <= i < |members| => (members[i].0, Ordered(le, members[i].1)))
  }

  lemma ByKeyPreorder<T(!new)>(le: KeyOrder)
    requires TotalOrder(le)
    ensures TotalPreorder(ByKey<T>(le))
  {
    var f := ByKey<T>(le);
    forall x: (Text, T), y: (Text, T) ensures f(x, y) || f(y, x) {
      assert le(x.0, y.0) || le(y.0, x.0);
    }
    forall x: (Text, T), y: (Text, T), z: (Text, T) ensures f(x, y) && f(y, z) ==> f(x, z) {
      assert le(x.0, y.0) && le(y.0, z.0) ==> le(x.0, z.0);
    }
  }

  /** Sorting by key keeps the members, and so keeps their keys distinct. */
  lemma SortKeepsKeys<T(!new)>(le: KeyOrder, members: seq<(Text, T)>)
    requires DistinctKeys(members)
    ensures var s := Sort(ByKey(le), members);
      |s| == |members| && DistinctKeys(s) && forall m :: m in s <==> m in members
  {
    var s := Sort(ByKey(le), members);
    SortPermutes(ByKey(le), members);
    DistinctPermutation(members, s);
    forall i, j | 0 <= i < j < |s| ensures s[i].0 != s[j].0 {
      assert s[i] in s && s[j] in s;
      var p :| 0 <= p < |members| && members[p] == s[i];
      var q :| 0 <= q < |members| && members[q] == s[j];
      assert s[i] != s[j];
    }
    forall m: (Text, T) ensures m in s <==> m in members {
      assert m in multiset(s) <==> m in multiset(members);
    }
  }

  /** Sorting by key rearranges members and brings them in order. */
  lemma SortByKey<T(!new)>(le: KeyOrder, members: seq<(Text, T)>)
    requires TotalOrder(le) && DistinctKeys(members)
    ensures var s := Sort(ByKey(le), members);
      && |s| == |members| && DistinctKeys(s) && Sorted(ByKey(le), s)
      && forall m :: m in s <==> m in members
  {
    ByKeyPreorder<T>(le);
    SortSorted(ByKey(le), members);
    SortKeepsKeys(le, members);
  }

  /** Members with distinct keys in key order are determined by which members there are. */
  lemma SortedByKeyUnique<T(!new)>(le: KeyOrder, s: seq<(Text, T)>, t: seq<(Text, T)>)
    requires TotalOrder(le) && Sorted(ByKey(le), s) && Sorted(ByKey(le), t) && DistinctKeys(s) && DistinctKeys(t)
    requires forall m :: m in s <==> m in t
    ensures s == t
  {
    forall x: (Text, T), y: (Text, T) | x in s && y in s && le(x.0, y.0) && le(y.0, x.0) ensures x == y {
      var i :| 0 <= i < |s| && s[i] == x;
      var j :| 0 <= j < |s| && s[j] == y;
      assert x.0 == y.0;
    }
    SortedSameMembers(ByKey(le), s, t);
  }

  // ---------------------------------------------------- the direct printers

  function Join(parts: seq<Text>): Text {
    if parts == [] then []
    else if |parts| == 1 then parts[0]
    else parts[0] + [COMMA] + Join(parts[1..])
  }

  function Entry(m: (Text, Text)): Text { Quote(m.0) + [COLON] + m.1 }

  /**
   * `canonical` of public-api.ts and `canonicalJson` of import-provenance.ts. The entries are
   * sorted by key alone, so that printing the children first changes nothing.
   */
  function Canonical(le: KeyOrder, v: Json): Text
    decreases v
  {
    match v
    case Arr(items) =>
      [OPEN_ARRAY] + Join(seq(|items|, i requires 0 <= i < |items| => Canonical(le, items[i]))) + [CLOSE_ARRAY]
    case Obj(members) =>
      var entries := Sort(ByKey(le),
        seq(|members|, i requires 0 <= i < |members| => (members[i].0, Canonical(le, members[i].1))));
      [OPEN_OBJECT] + Join(seq(|entries|, i requires 0 <= i < |entries| => Entry(entries[i]))) + [CLOSE_OBJECT]
    case _ => Write(v)
  }

  function Texts(members: seq<(Text, Json)>): seq<(Text, Text)> {
    seq(|members|, i requires 0 <= i < |members| => (members[i].0, Write(members[i].1)))
  }

  function Entries(texts: seq<(Text, Text)>): seq<Text> {
    seq(|texts|, i requires 0 <= i < |texts| => Entry(texts[i]))
  }

  lemma {:induction false} InsertCommutes(le: KeyOrder, m: (Text, Json), members: seq<(Text, Json)>)
    ensures Texts(Insert(ByKey(le), m, members)) == Insert(ByKey(le), (m.0, Write(m.1)), Texts(members))
  {
    if members != [] {
      var rest := members[1..];
      assert Texts(members) == [(members[0].0, Write(members[0].1))] + Texts(rest);
      assert Texts(members)[1..] == Texts(rest);
      if le(m.0, members[0].0) {
        assert Texts([m] + members) == [(m.0, Write(m.1))] + Texts(members);
      } else {
        InsertCommutes(le, m, rest);
        var more := Insert(ByKey(le), m, rest);
        assert Texts([members[0]] + more) == [(members[0].0, Write(members[0].1))] + Texts(more);
      }
    }
  }

  /** Sorting by key and printing the children can be swapped. */
  lemma {:induction false} SortCommutes(le: KeyOrder, members: seq<(Text, Json)>)
    ensures Texts(Sort(ByKey(le), members)) == Sort(ByKey(le), Texts(members))
  {
    if members != [] {
      SortCommutes(le, members[1..]);
      assert Texts(members)[1..] == Texts(members[1..]);
      InsertCommutes(le, members[0], Sort(ByKey(le), members[1..]));
    }
  }

  lemma {:induction false} JoinItems(items: seq<Json>, parts: seq<Text>)
    requires |parts| == |items| && forall i :: 0 <= i < |items| ==> parts[i] == Write(items[i])
    ensures Join(parts) == WriteItems(items)
  {
    if |items| > 1 {
      JoinItems(items[1..], parts[1..]);
    }
  }

  lemma {:induction false} JoinMembers(members: seq<(Text, Json)>)
    ensures Join(Entries(Texts(members))) == WriteMembers(members)
  {
    if |members| > 1 {
      assert Entries(Texts(members))[1..] == Entries(Texts(members[1..]));
      JoinMembers(members[1..]);
    }
  }

  /** The direct printer writes the ordered value. */
  lemma {:induction false} CanonicalWritesOrdered(le: KeyOrder, v: Json)
    ensures Canonical(le, v) == Write(Ordered(le, v))
    decreases v
  {
    match v {
      case Arr(items) =>
        forall i | 0 <= i < |items| ensures Canonical(le, items[i]) == Write(Ordered(le, items[i])) {
          CanonicalWritesOrdered(le, items[i]);
        }
        JoinItems(Ordered(le, v).items, seq(|items|, i requires 0 <= i < |items| => Canonical(le, items[i])));
      case Obj(members) =>
        forall i | 0 <= i < |members| ensures Canonical(le, members[i].1) == Write(Ordered(le, members[i].1)) {
          CanonicalWritesOrdered(le, members[i].1);
        }
        var printed := seq(|members|, i requires 0 <= i < |members| => (members[i].0, Canonical(le, members[i].1)));
        var ordered := OrderedMembers(le, members);
        assert printed == Texts(ordered);
        SortCommutes(le, ordered);
        JoinMembers(Sort(ByKey(le), ordered));
        assert Ordered(le, v) == Obj(Sort(ByKey(le), ordered));
      case _ =>
    }
  }

  // ------------------------------------------------ ordering and meaning

  /** Some member has this key and this meaning. */
  ghost predicate Means(members: seq<(Text, Json)>, k: Text, x: Value) {
    exists i :: 0 <= i < |members| && members[i].0 == k && Meaning(members[i].1) == x
  }

  /** What an object means, member by member. */
  lemma MeaningOfMember(members: seq<(Text, Json)>, k: Text, x: Value)
    requires DistinctKeys(members)
    ensures var fields := Meaning(Obj(members)).fields;
      k in fields && fields[k] == x <==> Means(members, k, x)
  {
    if Means(members, k, x) {
      var i :| 0 <= i < |members| && members[i].0 == k && Meaning(members[i].1) == x;
    }
  }

  lemma SameFields(a: seq<(Text, Json)>, b: seq<(Text, Json)>)
    requires DistinctKeys(a) && DistinctKeys(b) && forall k, x :: Means(a, k, x) <==> Means(b, k, x)
    ensures Meaning(Obj(a)) == Meaning(Obj(b))
  {
    var f, g := Meaning(Obj(a)).fields, Meaning(Obj(b)).fields;
    hide Meaning, Means;
    forall k | k in f ensures k in g && g[k] == f[k] {
      MeaningOfMember(a, k, f[k]);
      MeaningOfMember(b, k, f[k]);
    }
    forall k | k in g ensures k in f {
      MeaningOfMember(b, k, g[k]);
      MeaningOfMember(a, k, g[k]);
    }
    assert f == g;
  }

  lemma SameOrderedMembers(le: KeyOrder, p: seq<(Text, Json)>, q: seq<(Text, Json)>)
    requires DistinctKeys(p) && DistinctKeys(q) && Meaning(Obj(p)) == Meaning(Obj(q))
    requires forall i, j :: 0 <= i < |p| && 0 <= j < |q| && Meaning(p[i].1) == Meaning(q[j].1) ==>
      Ordered(le, p[i].1) == Ordered(le, q[j].1)
    ensures forall m :: m in OrderedMembers(le, p) ==> m in OrderedMembers(le, q)
  {
    var a, b := OrderedMembers(le, p), OrderedMembers(le, q);
    forall m | m in a ensures m in b {
      var i :| 0 <= i < |a| && a[i] == m;
      MeaningOfMember(p, m.0, Meaning(p[i].1));
      MeaningOfMember(q, m.0, Meaning(p[i].1));
      var j :| 0 <= j < |q| && q[j].0 == m.0 && Meaning(q[j].1) == Meaning(p[i].1);
      assert b[j] == m;
    }
  }

  /** Two values with the same meaning become the same once ordered. */
  lemma {:induction false} SameMeaningSameOrder(le: KeyOrder, v: Json, w: Json)
    requires TotalOrder(le) && WellFormed(v) && WellFormed(w) && Meaning(v) == Meaning(w)
    ensures Ordered(le, v) == Ordered(le, w)
    decreases v
  {
    match v {
      case Arr(items) =>
        assert |Meaning(v).items| == |items| && |Meaning(w).items| == |w.items|;
        forall i | 0 <= i < |items| ensures Ordered(le, items[i]) == Ordered(le, w.items[i]) {
          assert Meaning(v).items[i] == Meaning(w).items[i];
          SameMeaningSameOrder(le, items[i], w.items[i]);
        }
      case Obj(members) =>
        var a, b := OrderedMembers(le, members), OrderedMembers(le, w.members);
        forall i, j | 0 <= i < |members| && 0 <= j < |w.members| && Meaning(members[i].1) == Meaning(w.members[j].1)
          ensures Ordered(le, members[i].1) == Ordered(le, w.members[j].1)
        {
          SameMeaningSameOrder(le, members[i].1, w.members[j].1);
        }
        SameOrderedMembers(le, members, w.members);
        SameOrderedMembers(le, w.members, members);
        hide Ordered, Meaning;
        SortByKey(le, a);
        SortByKey(le, b);
        SortedByKeyUnique(le, Sort(ByKey(le), a), Sort(ByKey(le), b));
      case _ =>
    }
  }

  lemma SameMeans(members: seq<(Text, Json)>, a: seq<(Text, Json)>, s: seq<(Text, Json)>)
    requires |a| == |members| && forall i :: 0 <= i < |a| ==>
      a[i].0 == members[i].0 && Meaning(a[i].1) == Meaning(members[i].1)
    requires forall m :: m in s <==> m in a
    ensures forall k, x :: Means(members, k, x) <==> Means(s, k, x)
  {
    hide Meaning;
    forall k, x ensures Means(members, k, x) <==> Means(s, k, x) {
      if Means(members, k, x) {
        var i :| 0 <= i < |members| && members[i].0 == k && Meaning(members[i].1) == x;
        assert a[i] in s;
      }
      if Means(s, k, x) {
        var j :| 0 <= j < |s| && s[j].0 == k && Meaning(s[j].1) == x;
        assert s[j] in a;
      }
    }
  }

  /** Ordering changes no meaning. */
  lemma {:induction false} OrderedMeaning(le: KeyOrder, v: Json)
    requires TotalOrder(le) && WellFormed(v)
    ensures Meaning(Ordered(le, v)) == Meaning(v)
    decreases v
  {
    match v {
      case Arr(items) =>
        forall i | 0 <= i < |items| ensures Meaning(Ordered(le, items[i])) == Meaning(items[i]) {
          OrderedMeaning(le, items[i]);
        }
      case Obj(members) =>
        var a := OrderedMembers(le, members);
        var s := Sort(ByKey(le), a);
        SortByKey(le, a);
        forall i | 0 <= i < |members| ensures Meaning(a[i].1) == Meaning(members[i].1) {
          OrderedMeaning(le, members[i].1);
        }
        SameMeans(members, a, s);
        SameFields(members, s);
      case _ =>
    }
  }

  /** Two values print to the same canonical text exactly when they are equal up to the order of keys. */
  lemma CanonicalIdentifies(le: KeyOrder, v: Json, w: Json)
    requires TotalOrder(le) && WellFormed(v) && WellFormed(w)
    ensures Canonical(le, v) == Canonical(le, w) <==> Meaning(v) == Meaning(w)
  {
    CanonicalWritesOrdered(le, v);
    CanonicalWritesOrdered(le, w);
    WriteInjective(Ordered(le, v), Ordered(le, w));
    OrderedMeaning(le, v);
    OrderedMeaning(le, w);
    if Meaning(v) == Meaning(w) {
      SameMeaningSameOrder(le, v, w);
    }
  }

  /** In every object the keys ascend, none twice. */
  predicate KeysAscend(le: KeyOrder, v: Json) {
    match v
    case Arr(items) => forall i :: 0 <= i < |items| ==> KeysAscend(le, items[i])
    case Obj(members) =>
      && (forall i, j :: 0 <= i < j < |members| ==> le(members[i].0, members[j].0) && members[i].0 != members[j].0)
      && (forall i :: 0 <= i < |members| ==> KeysAscend(le, members[i].1))
    case _ => true
  }

  lemma {:induction false} OrderedAscends(le: KeyOrder, v: Json)
    requires TotalOrder(le) && WellFormed(v)
    ensures KeysAscend(le, Ordered(le, v))
    decreases v
  {
    match v {
      case Arr(items) =>
        forall i | 0 <= i < |items| ensures KeysAscend(le, Ordered(le, items[i])) {
          OrderedAscends(le, items[i]);
        }
      case Obj(members) =>
        var a := OrderedMembers(le, members);
        SortByKey(le, a);
        forall i | 0 <= i < |members| ensures KeysAscend(le, a[i].1) {
          OrderedAscends(le, members[i].1);
        }
        MembersAscend(le, a, Sort(ByKey(le), a));
      case _ =>
    }
  }

  lemma MembersAscend(le: KeyOrder, a: seq<(Text, Json)>, s: seq<(Text, Json)>)
    requires Sorted(ByKey(le), s) && DistinctKeys(s) && forall m :: m in s <==> m in a
    requires forall i :: 0 <= i < |a| ==> KeysAscend(le, a[i].1)
    ensures KeysAscend(le, Obj(s))
  {
    forall i | 0 <= i < |s| ensures KeysAscend(le, s[i].1) {
      assert s[i] in a;
    }
    forall i, j | 0 <= i < j < |s| ensures le(s[i].0, s[j].0) && s[i].0 != s[j].0 {
      assert ByKey(le)(s[i], s[j]);
    }
  }

  /** The canonical text is JSON: it reads back as the same content with the keys of every object ascending. */
  lemma CanonicalReadsBack(le: KeyOrder, v: Json)
    requires TotalOrder(le) && WellFormed(v)
    ensures exists w :: Read(Canonical(le, v)) == Some((w, [])) && Meaning(w) == Meaning(v) && KeysAscend(le, w)
  {
    var w := Ordered(le, v);
    CanonicalWritesOrdered(le, v);
    ReadBack(w);
    OrderedMeaning(le, v);
    OrderedAscends(le, v);
  }

  /** So a collision-free digest of the text tells payloads apart by content alone. */
  lemma PayloadHashIdentifies<H>(sha256: Text -> H, le: KeyOrder, v: Json, w: Json)
    requires TotalOrder(le) && WellFormed(v) && WellFormed(w)
    requires forall a, b :: sha256(a) == sha256(b) ==> a == b
    ensures sha256(Canonical(le, v)) == sha256(Canonical(le, w)) <==> Meaning(v) == Meaning(w)
  {
    CanonicalIdentifies(le, v, w);
  }
}
