/**
 * Attempt history by pages (src/application/public-api.ts:318-327): a keyset query in descending
 * (createdAt, id) order, and a cursor made of the last row of a full page. `le` is the database's
 * order of ids, taken to be total.
 */
module Pagination {
  import opened Common
  import opened Sorting
  import opened Grouping

  // ---------------------------------------------------------------- cursor

  datatype Cursor = Cursor(createdAt: int, id: string)

  /** `toISOString` and its inverse, and the base64 wrapping of a cursor and its inverse. */
  datatype Format = Format(time: int -> string, parse: string -> int, wrap: string -> string, unwrap: string -> string)

  /** The text of a time has no bar in it, and both wrappings can be undone. */
  ghost predicate IsFormat(f: Format) {
    && (forall t :: '|' !in f.time(t) && f.parse(f.time(t)) == t)
    && (forall s :: f.unwrap(f.wrap(s)) == s)
    && (forall s :: s != "" ==> f.wrap(s) != "")
  }

  /** A format of the kind: times in unary, and no wrapping. */
  function Unary(): Format {
    Format(
      t => [if t < 0 then '-' else '+'] + seq(if t < 0 then -t else t, _ => '1'),
      s => if s == "" then 0 else if s[0] == '-' then 1 - |s| else |s| - 1,
      s => s, s => s)
  }

  /** What is asked of formats can be met. */
  lemma FormatsExist()
    ensures IsFormat(Unary())
  {
    var f := Unary();
    forall t ensures '|' !in f.time(t) && f.parse(f.time(t)) == t {
      assert |f.time(t)| == 1 + if t < 0 then -t else t;
    }
  }

  /** `split("|")`. */
  function Split(s: string): (parts: seq<string>)
    ensures |parts| >= 1
  {
    if s == "" then [""]
    else
      var rest := Split(s[1..]);
      if s[0] == '|' then [""] + rest else [[s[0]] + rest[0]] + rest[1..]
  }

  function Encode(f: Format, c: Cursor): string { f.wrap(f.time(c.createdAt) + "|" + c.id) }

  /** What the query uses of a cursor text: nothing if it is empty or has not exactly two parts. */
  function Decode(f: Format, s: string): Option<Cursor> {
    if s == "" then None
    else
      var parts := Split(f.unwrap(s));
      if |parts| == 2 then Some(Cursor(f.parse(parts[0]), parts[1])) else None
  }

  lemma {:induction false} SplitPlain(s: string)
    ensures '|' !in s <==> |Split(s)| == 1
    ensures '|' !in s ==> Split(s) == [s]
  {
    if s != "" {
      SplitPlain(s[1..]);
      assert s == [s[0]] + s[1..];
    }
  }

  lemma {:induction false} SplitAtBar(a: string, b: string)
    requires '|' !in a
    ensures Split(a + "|" + b) == [a] + Split(b)
  {
    var s := a + "|" + b;
    if a == "" {
      assert s[1..] == b;
    } else {
      SplitAtBar(a[1..], b);
      assert s[1..] == a[1..] + "|" + b;
      assert a == [a[0]] + a[1..];
    }
  }

  /** A cursor survives the round trip exactly when its id has no bar. */
  lemma CursorRoundTrip(f: Format, c: Cursor)
    requires IsFormat(f)
    ensures Decode(f, Encode(f, c)) == Some(c) <==> '|' !in c.id
    ensures Decode(f, Encode(f, c)) == None <==> '|' in c.id
  {
    SplitAtBar(f.time(c.createdAt), c.id);
    SplitPlain(c.id);
  }

  // ----------------------------------------------------------------- query

  datatype Row = Row(id: string, createdAt: int, owner: string, valid: bool)

  type IdOrder = (string, string) -> bool

  predicate DistinctIds(table: seq<Row>) { forall i, j :: 0 <= i < j < |table| ==> table[i].id != table[j].id }

  /** `createdAt` down, then `id` down. */
  function Descending(le: IdOrder): (Row, Row) -> bool {
    (a: Row, b: Row) => a.createdAt > b.createdAt || (a.createdAt == b.createdAt && le(b.id, a.id))
  }

  predicate Beyond(le: IdOrder, cursor: Option<Cursor>, r: Row) {
    cursor.Some? ==>
      || r.createdAt < cursor.value.createdAt
      || (r.createdAt == cursor.value.createdAt && le(r.id, cursor.value.id) && r.id != cursor.value.id)
  }

  function Wanted(le: IdOrder, owner: string, cursor: Option<Cursor>): Row -> bool {
    (r: Row) => r.owner == owner && r.valid && Beyond(le, cursor, r)
  }

  function Query(le: IdOrder, table: seq<Row>, owner: string, cursor: Option<Cursor>): seq<Row> {
    Sort(Descending(le), Bucket(table, Wanted(le, owner, cursor), true))
  }

  function Take(rows: seq<Row>, n: nat): seq<Row> { if |rows| <= n then rows else rows[..n] }

  function CursorOf(r: Row): Cursor { Cursor(r.createdAt, r.id) }

  /** One page and the cursor of the next. */
  function Page(
      le: IdOrder, table: seq<Row>, owner: string, limit: nat, cursor: Option<Cursor>): (seq<Row>, Option<Cursor>)
    requires limit >= 1
  {
    var rows := Take(Query(le, table, owner, cursor), limit + 1);
    var page := Take(rows, limit);
    (page, if |rows| > limit then Some(CursorOf(page[|page| - 1])) else None)
  }

  function Decoded(f: Format, text: Option<string>): Option<Cursor> {
    if text.Some? then Decode(f, text.value) else None
  }

  /** `getAttemptHistory`, from cursor text to cursor text. */
  function GetAttemptHistory(
      f: Format, le: IdOrder, table: seq<Row>, owner: string, limit: nat, text: Option<string>)
      : (seq<Row>, Option<string>)
    requires limit >= 1
  {
    var (page, next) := Page(le, table, owner, limit, Decoded(f, text));
    (page, if next.Some? then Some(Encode(f, next.value)) else None)
  }

  // --------------------------------------------------- what a query returns

  lemma DescendingOrder(le: IdOrder)
    requires TotalOrder(le)
    ensures TotalPreorder(Descending(le))
  {
    var f := Descending(le);
    forall x: Row, y: Row ensures f(x, y) || f(y, x) {
      assert le(x.id, y.id) || le(y.id, x.id);
    }
    forall x: Row, y: Row, z: Row ensures f(x, y) && f(y, z) ==> f(x, z) {
      assert le(z.id, y.id) && le(y.id, x.id) ==> le(z.id, x.id);
    }
  }

  lemma {:induction false} BucketDistinct(table: seq<Row>, key: Row -> bool)
    requires DistinctIds(table)
    ensures DistinctIds(Bucket(table, key, true))
  {
    if table != [] {
      var n := |table| - 1;
      BucketDistinct(table[..n], key);
      BucketHolds(table[..n], key, true);
      var rest := Bucket(table[..n], key, true);
      forall i | 0 <= i < |rest| ensures rest[i].id != table[n].id {
        assert rest[i] in table[..n];
      }
    }
  }

  /** The rows wanted, each once, in descending order. */
  lemma QueryMeaning(le: IdOrder, table: seq<Row>, owner: string, cursor: Option<Cursor>)
    requires TotalOrder(le) && DistinctIds(table)
    ensures var q := Query(le, table, owner, cursor);
      Sorted(Descending(le), q) && Distinct(q) && forall r :: r in q <==> r in table && Wanted(le, owner, cursor)(r)
  {
    var found := Bucket(table, Wanted(le, owner, cursor), true);
    BucketHolds(table, Wanted(le, owner, cursor), true);
    BucketDistinct(table, Wanted(le, owner, cursor));
    assert Distinct(found);
    DescendingOrder(le);
    SortSorted(Descending(le), found);
    SortPermutes(Descending(le), found);
    DistinctPermutation(found, Sort(Descending(le), found));
  }

  /** A sorted list without repetition that holds the wanted rows is the query's answer. */
  lemma QueryIs(le: IdOrder, table: seq<Row>, owner: string, cursor: Option<Cursor>, s: seq<Row>)
    requires TotalOrder(le) && DistinctIds(table) && Sorted(Descending(le), s) && Distinct(s)
    requires forall r :: r in s <==> r in table && Wanted(le, owner, cursor)(r)
    ensures Query(le, table, owner, cursor) == s
  {
    QueryMeaning(le, table, owner, cursor);
    hide Query, Wanted;
    forall x, y | x in s && y in s && Descending(le)(x, y) && Descending(le)(y, x) ensures x == y {
      assert le(x.id, y.id) && le(y.id, x.id);
    }
    SortedSameMembers(Descending(le), s, Query(le, table, owner, cursor));
  }

  /** The query from the cursor of a row gives what follows that row. */
  lemma RestOfQuery(le: IdOrder, table: seq<Row>, owner: string, cursor: Option<Cursor>, n: nat)
    requires TotalOrder(le) && DistinctIds(table) && 1 <= n <= |Query(le, table, owner, cursor)|
    ensures var q := Query(le, table, owner, cursor);
      Query(le, table, owner, Some(CursorOf(q[n - 1]))) == q[n..]
  {
    var q := Query(le, table, owner, cursor);
    var last := q[n - 1];
    var after := Some(CursorOf(last));
    QueryMeaning(le, table, owner, cursor);
    hide Query;
    assert last in q;
    forall r ensures r in q[n..] <==> r in table && Wanted(le, owner, after)(r) {
      if r in q[n..] {
        var j :| n <= j < |q| && q[j] == r;
        assert Descending(le)(last, r) && r != last && r in q;
      }
    }
    QueryIs(le, table, owner, after, q[n..]);
  }

  // ------------------------------------------------------ following cursors

  /** `table` as it was when the listing began, and later: rows are added, all of a later time. */
  ghost predicate Grows(table: seq<Row>, later: seq<Row>) {
    && DistinctIds(later)
    && (forall r :: r in table ==> r in later)
    && (forall r, s :: r in later && r !in table && s in table ==> r.createdAt > s.createdAt)
  }

  /** Rows inserted with a later time do not change what follows a row already there. */
  lemma LaterInsertsDoNotMatter(le: IdOrder, table: seq<Row>, later: seq<Row>, owner: string, last: Row)
    requires TotalOrder(le) && DistinctIds(table) && Grows(table, later) && last in table
    ensures Query(le, later, owner, Some(CursorOf(last))) == Query(le, table, owner, Some(CursorOf(last)))
  {
    var after := Some(CursorOf(last));
    QueryMeaning(le, table, owner, after);
    var q := Query(le, table, owner, after);
    hide Query;
    forall r ensures r in q <==> r in later && Wanted(le, owner, after)(r) {
      if r in later && r !in table {
        assert r.createdAt > last.createdAt;
      }
    }
    QueryIs(le, later, owner, after, q);
  }

  /**
   * `table` as it was when the listing began, and later: rows may be added with a later time, and
   * rows may become invalid.
   */
  ghost predicate Evolves(table: seq<Row>, later: seq<Row>) {
    && DistinctIds(later)
    && (forall r, s :: r in later && r.valid && r !in table && s in table ==> r.createdAt > s.createdAt)
  }

  /** A cursor the listing can have: none before the first page, then one of a row of the original table. */
  ghost predicate Reached(table: seq<Row>, k: nat, cursor: Option<Cursor>) {
    if cursor.None? then k == 0 else exists r :: r in table && cursor == Some(CursorOf(r))
  }

  /** From a cursor of the listing, a later query finds rows of the original one: those that are still valid. */
  lemma QueryLater(le: IdOrder, table: seq<Row>, later: seq<Row>, owner: string, k: nat, cursor: Option<Cursor>)
    requires TotalOrder(le) && DistinctIds(table) && Reached(table, k, cursor)
    requires Evolves(table, later) && (k == 0 ==> later == table)
    ensures forall r :: r in Query(le, later, owner, cursor) <==> r in Query(le, table, owner, cursor) && r in later
  {
    QueryMeaning(le, table, owner, cursor);
    QueryMeaning(le, later, owner, cursor);
    hide Query;
    if cursor.Some? {
      var last :| last in table && cursor == Some(CursorOf(last));
      forall r | r in later && Wanted(le, owner, cursor)(r) ensures r in table {
        assert r.createdAt <= last.createdAt;
      }
    }
  }

  lemma PageShape(le: IdOrder, table: seq<Row>, owner: string, limit: nat, cursor: Option<Cursor>)
    requires limit >= 1
    ensures var q := Query(le, table, owner, cursor);
      Page(le, table, owner, limit, cursor) ==
        if |q| <= limit then (q, None) else (q[..limit], Some(CursorOf(q[limit - 1])))
  {
    var q := Query(le, table, owner, cursor);
    hide Query;
    if |q| > limit {
      assert Take(q, limit + 1)[..limit] == q[..limit];
    }
  }

  lemma SameId(le: IdOrder, r: Row, s: Row)
    requires TotalOrder(le)
    ensures Descending(le)(r, s) && Descending(le)(s, r) ==> r.id == s.id
  {
    assert le(r.id, s.id) && le(s.id, r.id) ==> r.id == s.id;
  }

  function Last(page: seq<Row>): Row
    requires page != []
  {
    page[|page| - 1]
  }

  /** The row comes after another one. */
  predicate After(le: IdOrder, last: Row, r: Row) { Descending(le)(last, r) && r != last }

  /** A page of the rows `q` as far as they are in `later`: all of those, or the first ones and a cursor. */
  ghost predicate IsPage(le: IdOrder, q: seq<Row>, later: seq<Row>, page: seq<Row>, next: Option<Cursor>) {
    && Sorted(Descending(le), page) && Distinct(page) && (forall r :: r in page ==> r in q)
    && (next.None? ==> forall r :: r in q && r in later ==> r in page)
    && (next.Some? ==>
          && page != [] && next.value == CursorOf(Last(page))
          && forall r :: r in q && r in later && r !in page ==> After(le, Last(page), r))
  }

  lemma PageStep(
      le: IdOrder, table: seq<Row>, later: seq<Row>, owner: string, limit: nat, k: nat, cursor: Option<Cursor>)
    requires TotalOrder(le) && DistinctIds(table) && limit >= 1 && Reached(table, k, cursor)
    requires Evolves(table, later) && (k == 0 ==> later == table)
    ensures var (page, next) := Page(le, later, owner, limit, cursor);
      IsPage(le, Query(le, table, owner, cursor), later, page, next)
  {
    assert DistinctIds(later);
    hide Page, Query, Wanted, Evolves, Reached, Descending, DistinctIds, TotalOrder, IsPage;
    QueryLater(le, table, later, owner, k, cursor);
    QueryMeaning(le, later, owner, cursor);
    PageShape(le, later, owner, limit, cursor);
    PageOfRows(le, Query(le, table, owner, cursor), later, Query(le, later, owner, cursor), limit);
  }

  lemma PageOfRows(le: IdOrder, q: seq<Row>, later: seq<Row>, now: seq<Row>, limit: nat)
    requires limit >= 1 && Sorted(Descending(le), now) && Distinct(now)
    requires forall r :: r in now <==> r in q && r in later
    ensures |now| <= limit ==> IsPage(le, q, later, now, None)
    ensures |now| > limit ==> IsPage(le, q, later, now[..limit], Some(CursorOf(now[limit - 1])))
  {
    hide Descending;
    if |now| > limit {
      FirstRows(le, now, limit);
    }
  }

  /** The first rows of a sorted list, and what comes after them. */
  lemma FirstRows(le: IdOrder, now: seq<Row>, limit: nat)
    requires 1 <= limit < |now| && Sorted(Descending(le), now) && Distinct(now)
    ensures Sorted(Descending(le), now[..limit]) && Distinct(now[..limit])
    ensures forall r :: r in now[..limit] ==> r in now
    ensures forall r :: r in now && r !in now[..limit] ==> After(le, now[limit - 1], r)
  {
    hide Descending;
    forall i | 0 <= i < limit ensures now[i] in now[..limit] && now[i] in now {
      assert now[..limit][i] == now[i];
    }
  }

  ghost predicate IdsDiffer(q: seq<Row>) { forall r, s :: r in q && s in q && r.id == s.id ==> r == s }

  /** The rows that come after one of them, fewer than all. */
  ghost predicate IsRest(le: IdOrder, q: seq<Row>, last: Row, rest: seq<Row>) {
    |rest| < |q| && forall r :: r in rest <==> r in q && After(le, last, r)
  }

  lemma TailIsRest(le: IdOrder, q: seq<Row>, n: nat)
    requires TotalOrder(le) && Sorted(Descending(le), q) && Distinct(q) && IdsDiffer(q) && n < |q|
    ensures IsRest(le, q, q[n], q[n + 1..])
  {
    var last := q[n];
    forall r | r in q && After(le, last, r) ensures r in q[n + 1..] {
      var j :| 0 <= j < |q| && q[j] == r;
      SameId(le, r, last);
    }
    forall r | r in q[n + 1..] ensures r in q && After(le, last, r) {
      var j :| n + 1 <= j < |q| && q[j] == r;
    }
  }

  /** What follows a row of a query. */
  lemma AfterRow(le: IdOrder, table: seq<Row>, owner: string, cursor: Option<Cursor>, last: Row)
    requires TotalOrder(le) && DistinctIds(table) && last in Query(le, table, owner, cursor)
    ensures IsRest(le, Query(le, table, owner, cursor), last, Query(le, table, owner, Some(CursorOf(last))))
    ensures last in table
  {
    hide Query, IsRest, Descending, Wanted;
    var q := Query(le, table, owner, cursor);
    var n :| 0 <= n < |q| && q[n] == last;
    IdsTell(le, table, owner, cursor);
    QueryMeaning(le, table, owner, cursor);
    RestOfQuery(le, table, owner, cursor, n + 1);
    TailIsRest(le, q, n);
  }

  ghost predicate Shows(le: IdOrder, at: nat -> seq<Row>, q: seq<Row>, seen: seq<Row>) {
    && Sorted(Descending(le), seen) && Distinct(seen)
    && (forall r :: r in seen ==> r in q)
    && (forall r :: r in q && (forall j :: r in at(j)) ==> r in seen)
  }

  /** A page without a cursor is a listing. */
  lemma PageAlone(le: IdOrder, at: nat -> seq<Row>, k: nat, q: seq<Row>, page: seq<Row>)
    requires IsPage(le, q, at(k), page, None)
    ensures Shows(le, at, q, page)
  {
  }

  lemma Joins(le: IdOrder, page: seq<Row>, rest: seq<Row>)
    requires Sorted(Descending(le), page) && Distinct(page) && Sorted(Descending(le), rest) && Distinct(rest)
    requires forall r, s :: r in page && s in rest ==> Descending(le)(r, s) && r != s
    ensures Sorted(Descending(le), page + rest) && Distinct(page + rest)
  {
    hide Descending;
    var seen := page + rest;
    forall i, j | 0 <= i < j < |seen| ensures Descending(le)(seen[i], seen[j]) && seen[i] != seen[j] {
      if j < |page| {
      } else if i < |page| {
        assert seen[i] in page && seen[j] in rest;
      } else {
        assert seen[i] == rest[i - |page|] && seen[j] == rest[j - |page|];
      }
    }
  }

  lemma PageBeforeRest(le: IdOrder, q: seq<Row>, page: seq<Row>, r: Row, s: Row)
    requires TotalOrder(le) && Sorted(Descending(le), page) && IdsDiffer(q) && r in page && s in q
    requires (forall x :: x in page ==> x in q) && After(le, Last(page), s)
    ensures Descending(le)(r, s) && r != s
  {
    DescendingOrder(le);
    var i :| 0 <= i < |page| && page[i] == r;
    assert Descending(le)(r, Last(page)) && Last(page) in page && Last(page) in q;
    SameId(le, s, Last(page));
  }

  /** A page and a listing of what follows its last row make a listing. */
  lemma PageThenRest(
      le: IdOrder, at: nat -> seq<Row>, k: nat, q: seq<Row>, page: seq<Row>, next: Cursor, after: seq<Row>,
      rest: seq<Row>)
    requires TotalOrder(le) && IdsDiffer(q) && IsPage(le, q, at(k), page, Some(next))
    requires IsRest(le, q, Last(page), after) && Shows(le, at, after, rest)
    ensures Shows(le, at, q, page + rest)
  {
    hide After, Descending, TotalOrder, IdsDiffer;
    forall r, s | r in page && s in rest ensures Descending(le)(r, s) && r != s {
      PageBeforeRest(le, q, page, r, s);
    }
    Joins(le, page, rest);
  }

  lemma IdsTell(le: IdOrder, table: seq<Row>, owner: string, cursor: Option<Cursor>)
    requires TotalOrder(le) && DistinctIds(table)
    ensures IdsDiffer(Query(le, table, owner, cursor))
  {
    QueryMeaning(le, table, owner, cursor);
    hide Query;
  }

  /** One call: the whole rest of the listing, or a page and a cursor from which less is left. */
  lemma FollowStep(
      f: Format, le: IdOrder, at: nat -> seq<Row>, owner: string, limit: nat, k: nat, text: Option<string>)
    requires IsFormat(f) && TotalOrder(le) && DistinctIds(at(0)) && limit >= 1 && Reached(at(0), k, Decoded(f, text))
    requires (forall r :: r in at(0) ==> '|' !in r.id) && Evolves(at(0), at(k))
    ensures var q := Query(le, at(0), owner, Decoded(f, text));
      var (page, next) := GetAttemptHistory(f, le, at(k), owner, limit, text);
      && (next.None? ==> Shows(le, at, q, page))
      && (next.Some? ==>
            && Reached(at(0), k + 1, Decoded(f, next)) && |Query(le, at(0), owner, Decoded(f, next))| < |q|
            && forall rest :: Shows(le, at, Query(le, at(0), owner, Decoded(f, next)), rest) ==>
              Shows(le, at, q, page + rest))
  {
    var cursor := Decoded(f, text);
    PageStep(le, at(0), at(k), owner, limit, k, cursor);
    var q := Query(le, at(0), owner, cursor);
    var (page, next) := Page(le, at(k), owner, limit, cursor);
    assert next.Some? ==> page != [] && next.value == CursorOf(Last(page)) && Last(page) in q by {
      assert page != [] ==> Last(page) in page;
    }
    hide Query, Page, Descending, Wanted, Evolves, IsPage, IsRest, Shows, TotalOrder, DistinctIds;
    if next.None? {
      PageAlone(le, at, k, q, page);
    } else {
      AfterRow(le, at(0), owner, cursor, Last(page));
      CursorRoundTrip(f, next.value);
      hide Encode, Decode;
      var after := Query(le, at(0), owner, next);
      assert |after| < |q| by { RestIsShorter(le, q, Last(page), after); }
      IdsTell(le, at(0), owner, cursor);
      forall rest | Shows(le, at, after, rest) ensures Shows(le, at, q, page + rest) {
        PageThenRest(le, at, k, q, page, next.value, after, rest);
      }
    }
  }

  lemma RestIsShorter(le: IdOrder, q: seq<Row>, last: Row, rest: seq<Row>)
    requires IsRest(le, q, last, rest)
    ensures |rest| < |q|
  {
  }

  /**
   * What a client sees that follows cursor texts to the end while the table evolves: page `k` is
   * read from `at(k)`.
   */
  ghost function Follow(
      f: Format, le: IdOrder, at: nat -> seq<Row>, owner: string, limit: nat, k: nat, text: Option<string>)
      : (seen: seq<Row>)
    requires IsFormat(f) && TotalOrder(le) && DistinctIds(at(0)) && limit >= 1 && Reached(at(0), k, Decoded(f, text))
    requires (forall r :: r in at(0) ==> '|' !in r.id) && forall j :: Evolves(at(0), at(j))
    ensures Shows(le, at, Query(le, at(0), owner, Decoded(f, text)), seen)
    decreases |Query(le, at(0), owner, Decoded(f, text))|
  {
    FollowStep(f, le, at, owner, limit, k, text);
    var (page, next) := GetAttemptHistory(f, le, at(k), owner, limit, text);
    if next.None? then page else page + Follow(f, le, at, owner, limit, k + 1, next)
  }

  /**
   * Following cursor texts from the first page ends, and shows attempts that were valid at the
   * start, newest first and none twice: every one of them that stays valid, whatever is inserted
   * or invalidated on the way.
   */
  lemma FollowingSeesEverythingOnce(f: Format, le: IdOrder, at: nat -> seq<Row>, owner: string, limit: nat)
    requires IsFormat(f) && TotalOrder(le) && DistinctIds(at(0)) && limit >= 1
    requires (forall r :: r in at(0) ==> '|' !in r.id) && forall j :: Evolves(at(0), at(j))
    ensures var seen := Follow(f, le, at, owner, limit, 0, None);
      && (forall i, j :: 0 <= i < j < |seen| ==> Newer(le, seen[i], seen[j]))
      && (forall r :: r in seen ==> r in at(0) && r.owner == owner && r.valid)
      && (forall r :: r in at(0) && r.owner == owner && r.valid && (forall j :: r in at(j)) ==> r in seen)
  {
    QueryMeaning(le, at(0), owner, None);
    var seen := Follow(f, le, at, owner, limit, 0, None);
    forall i, j | 0 <= i < j < |seen| ensures Newer(le, seen[i], seen[j]) {
      assert seen[i] in at(0) && seen[j] in at(0);
      DescendingIsNewer(le, at(0), seen[i], seen[j]);
    }
  }

  // ------------------------------------------------------------- one page

  /** The row was created later than the other, or at the same time with a greater id. */
  predicate Newer(le: IdOrder, r: Row, s: Row) {
    r.createdAt > s.createdAt || (r.createdAt == s.createdAt && le(s.id, r.id) && r.id != s.id)
  }

  lemma DescendingIsNewer(le: IdOrder, table: seq<Row>, r: Row, s: Row)
    requires DistinctIds(table) && r in table && s in table && r != s && Descending(le)(r, s)
    ensures Newer(le, r, s)
  {
    var i :| 0 <= i < |table| && table[i] == r;
    var j :| 0 <= j < |table| && table[j] == s;
    assert i != j;
  }

  /** The owner's valid rows, and of these only older ones than the cursor's if there is a cursor. */
  predicate Listed(le: IdOrder, owner: string, cursor: Option<Cursor>, r: Row) {
    && r.owner == owner && r.valid
    && match cursor
       case None => true
       case Some(c) => r.createdAt < c.createdAt || (r.createdAt == c.createdAt && le(r.id, c.id) && r.id != c.id)
  }

  lemma QueryRows(le: IdOrder, table: seq<Row>, owner: string, cursor: Option<Cursor>)
    requires TotalOrder(le) && DistinctIds(table)
    ensures var q := Query(le, table, owner, cursor);
      && (forall r :: r in q <==> r in table && Listed(le, owner, cursor, r))
      && (forall i, j :: 0 <= i < j < |q| ==> Newer(le, q[i], q[j]) && q[i] != q[j])
  {
    var q := Query(le, table, owner, cursor);
    QueryMeaning(le, table, owner, cursor);
    forall r ensures Wanted(le, owner, cursor)(r) <==> Listed(le, owner, cursor, r) {}
    hide Query, Wanted, Listed, Descending, DistinctIds;
    forall i, j | 0 <= i < j < |q| ensures Newer(le, q[i], q[j]) {
      assert q[i] in q && q[j] in q;
      DescendingIsNewer(le, table, q[i], q[j]);
    }
  }

  /** The beginning of such a list comes before all the rest of it. */
  lemma NewestFirst(le: IdOrder, q: seq<Row>, n: nat)
    requires n <= |q| && forall i, j :: 0 <= i < j < |q| ==> Newer(le, q[i], q[j]) && q[i] != q[j]
    ensures forall r, s :: r in q[..n] && s in q && s !in q[..n] ==> Newer(le, r, s)
    ensures n < |q| ==> q[n] in q && q[n] !in q[..n]
    ensures forall r :: r in q[..n] ==> r in q
  {
    hide Newer;
    assert forall k :: 0 <= k < n ==> q[..n][k] == q[k] && q[k] in q[..n];
    forall r, s | r in q[..n] && s in q && s !in q[..n] ensures Newer(le, r, s) {
      var i :| 0 <= i < n && q[i] == r;
      var j :| 0 <= j < |q| && q[j] == s;
      assert i < j;
    }
  }

  /**
   * One page: the newest rows that the cursor leaves, in order and at most `limit`. The cursor of a
   * next page comes exactly when rows are left, and then the page is full and ends with its row.
   */
  lemma PageRows(le: IdOrder, table: seq<Row>, owner: string, limit: nat, cursor: Option<Cursor>)
    requires TotalOrder(le) && DistinctIds(table) && limit >= 1
    ensures var (page, next) := Page(le, table, owner, limit, cursor);
      && |page| <= limit
      && (forall i, j :: 0 <= i < j < |page| ==> Newer(le, page[i], page[j]))
      && (forall r :: r in page ==> r in table && Listed(le, owner, cursor, r))
      && (forall r, s :: r in page && s in table && s !in page && Listed(le, owner, cursor, s) ==> Newer(le, r, s))
      && (next.None? <==> forall r :: r in table && Listed(le, owner, cursor, r) ==> r in page)
      && (next.Some? ==> |page| == limit && next == Some(Cursor(page[limit - 1].createdAt, page[limit - 1].id)))
  {
    var q, page := Query(le, table, owner, cursor), Page(le, table, owner, limit, cursor).0;
    PageShape(le, table, owner, limit, cursor);
    QueryRows(le, table, owner, cursor);
    hide Query, Page, Listed, TotalOrder, DistinctIds, Newer;
    NewestFirst(le, q, if |q| <= limit then |q| else limit);
    assert q[..|q|] == q;
  }
}
