/**
 * The stable-guest backfill (prisma/migrations/20260822010000_stable_guest_backfill/migration.sql):
 * identities along rotation chains, attempts rescoped to identities, clashing idempotency keys
 * renamed, official attempts and practice ordinals ranked anew, unused identities deleted. The
 * two updates that touch indexed columns write row by row, in an order that is the database's
 * choice; the migration as a whole happens or does not.
 */
module Backfill {
  import opened Common
  import opened Sorting

  // ------------------------------------------------------------------ data

  datatype Session = Session(identity: string, rotationOf: Option<string>)

  /** A row of the attempt table; `payload` stands for the columns that the migration does not touch. */
  datatype Attempt = Attempt(
    session: Option<string>, identity: Option<string>, version: string, key: string,
    official: bool, ordinal: nat, createdAt: int, payload: string)

  type Sessions = map<string, Session>

  type Attempts = map<string, Attempt>

  type IdOrder = (string, string) -> bool

  // --------------------------------------------------------- rotation chains

  /** The session reaches a session that is no rotation in exactly `n` steps. */
  predicate AtDepth(sessions: Sessions, id: string, n: nat)
    decreases n
  {
    && id in sessions
    && match sessions[id].rotationOf
       case None => n == 0
       case Some(parent) => n > 0 && AtDepth(sessions, parent, n - 1)
  }

  /** The identity at the root of the chain. */
  function RootIdentity(sessions: Sessions, id: string, n: nat): string
    requires AtDepth(sessions, id, n)
    decreases n
  {
    if n == 0 then sessions[id].identity else RootIdentity(sessions, sessions[id].rotationOf.value, n - 1)
  }

  ghost predicate Rooted(sessions: Sessions, id: string) { exists n: nat :: AtDepth(sessions, id, n) }

  lemma {:induction false} DepthUnique(sessions: Sessions, id: string, m: nat, n: nat)
    requires AtDepth(sessions, id, m) && AtDepth(sessions, id, n)
    ensures m == n
    decreases m
  {
    if m > 0 {
      DepthUnique(sessions, sessions[id].rotationOf.value, m - 1, n - 1);
    }
  }

  /** The chain of the session has a root at most `d` steps away. */
  ghost predicate Within(sessions: Sessions, id: string, d: nat) { exists n: nat :: n <= d && AtDepth(sessions, id, n) }

  /** The map holds exactly the sessions at most `d` steps from a root, with the identity of that root. */
  ghost predicate FoundUpTo(sessions: Sessions, roots: map<string, string>, d: nat) {
    && (forall id :: id in roots <==> Within(sessions, id, d))
    && (forall id, n: nat :: n <= d && AtDepth(sessions, id, n) ==>
      id in roots && roots[id] == RootIdentity(sessions, id, n))
  }

  lemma FirstLevel(sessions: Sessions, roots: map<string, string>)
    requires roots == map id | id in sessions && sessions[id].rotationOf.None? :: sessions[id].identity
    ensures FoundUpTo(sessions, roots, 0) && forall id :: id in roots <==> AtDepth(sessions, id, 0)
  {
    forall id ensures id in roots <==> Within(sessions, id, 0) {
      assert AtDepth(sessions, id, 0) <==> id in roots;
    }
  }

  /** The children of one level are the next level, new, and have the identities of their parents. */
  lemma NextLevel(
      sessions: Sessions, level: set<string>, roots: map<string, string>, d: nat, children: map<string, string>)
    requires (forall id :: id in level <==> AtDepth(sessions, id, d)) && FoundUpTo(sessions, roots, d)
    requires level <= roots.Keys
    requires children == map id |
      id in sessions && sessions[id].rotationOf.Some? && sessions[id].rotationOf.value in level
      :: roots[sessions[id].rotationOf.value]
    ensures forall id :: id in children <==> AtDepth(sessions, id, d + 1)
    ensures children.Keys !! roots.Keys && FoundUpTo(sessions, roots + children, d + 1)
  {
    forall id ensures id in children <==> AtDepth(sessions, id, d + 1) {
      assert AtDepth(sessions, id, d + 1) ==> AtDepth(sessions, sessions[id].rotationOf.value, d);
    }
    forall id | id in children ensures id !in roots && children[id] == RootIdentity(sessions, id, d + 1) {
      if Within(sessions, id, d) {
        var n: nat :| n <= d && AtDepth(sessions, id, n);
        DepthUnique(sessions, id, n, d + 1);
      }
    }
    forall id ensures id in roots + children <==> Within(sessions, id, d + 1) {
      WithinNext(sessions, id, d);
    }
  }

  lemma WithinNext(sessions: Sessions, id: string, d: nat)
    ensures Within(sessions, id, d + 1) <==> Within(sessions, id, d) || AtDepth(sessions, id, d + 1)
  {
    if Within(sessions, id, d) {
      var n: nat :| n <= d && AtDepth(sessions, id, n);
      assert n <= d + 1;
    }
  }

  lemma {:induction false} Ancestor(sessions: Sessions, id: string, n: nat, k: nat)
    requires AtDepth(sessions, id, n) && k <= n
    ensures exists a :: AtDepth(sessions, a, k)
    decreases n
  {
    if k < n {
      Ancestor(sessions, sessions[id].rotationOf.value, n - 1, k);
    }
  }

  /** Below an empty level there is nothing. */
  lemma NothingDeeper(sessions: Sessions, depth: nat, id: string)
    requires forall x :: !AtDepth(sessions, x, depth)
    ensures Rooted(sessions, id) <==> Within(sessions, id, depth)
    ensures forall n: nat :: AtDepth(sessions, id, n) ==> n < depth
  {
    forall n: nat | AtDepth(sessions, id, n) ensures n < depth {
      if n >= depth {
        Ancestor(sessions, id, n, depth);
      }
    }
  }

  // ------------------------------------------------------- the set statements

  /** Sessions take the identity found for them. */
  function Reidentified(sessions: Sessions, roots: map<string, string>): Sessions {
    map id | id in sessions :: if id in roots then sessions[id].(identity := roots[id]) else sessions[id]
  }

  /** Attempts take the identity of their session. */
  function Rescoped(sessions: Sessions, attempts: Attempts): Attempts {
    map a | a in attempts ::
      var s := attempts[a].session;
      if s.Some? && s.value in sessions then attempts[a].(identity := Some(sessions[s.value].identity)) else attempts[a]
  }

  /** `ORDER BY "createdAt", id`. */
  predicate Before(le: IdOrder, attempts: Attempts, a: string, b: string)
    requires a in attempts && b in attempts
  {
    attempts[a].createdAt < attempts[b].createdAt
      || (attempts[a].createdAt == attempts[b].createdAt && le(a, b) && a != b)
  }

  function Group(attempts: Attempts, identity: string, version: string): set<string> {
    set a | a in attempts && attempts[a].identity == Some(identity) && attempts[a].version == version
  }

  function KeyGroup(attempts: Attempts, identity: string, version: string, key: string): set<string> {
    set a | a in Group(attempts, identity, version) && attempts[a].key == key
  }

  /** `ROW_NUMBER()` within a partition, counted from 0. */
  function Rank(le: IdOrder, attempts: Attempts, group: set<string>, a: string): nat
    requires a in attempts && group <= attempts.Keys
  {
    |set b | b in group && Before(le, attempts, b, a)|
  }

  function Renamed(key: string, id: string): string { key + ":migrated:" + id }

  function Rekeyed(le: IdOrder, attempts: Attempts): Attempts {
    map a | a in attempts ::
      var r := attempts[a];
      if r.identity.Some? && Rank(le, attempts, KeyGroup(attempts, r.identity.value, r.version, r.key), a) > 0
      then r.(key := Renamed(r.key, a)) else r
  }

  function Reranked(le: IdOrder, attempts: Attempts): Attempts {
    map a | a in attempts ::
      var r := attempts[a];
      if r.identity.None? then r
      else
        var rank := Rank(le, attempts, Group(attempts, r.identity.value, r.version), a);
        r.(official := rank == 0, ordinal := rank)
  }

  /** Two attempts of one identity on one version. */
  predicate SameGroup(attempts: Attempts, a: string, b: string) {
    && a in attempts && b in attempts && a != b && attempts[a].identity.Some?
    && attempts[a].identity == attempts[b].identity && attempts[a].version == attempts[b].version
  }

  /** The two unique indexes over identities can be created. */
  predicate Indexable(attempts: Attempts) {
    forall a, b :: a in attempts && b in attempts && SameGroup(attempts, a, b) ==>
      attempts[a].key != attempts[b].key && !(attempts[a].official && attempts[b].official)
  }

  predicate Used(sessions: Sessions, attempts: Attempts, identity: string) {
    || (exists s :: s in sessions && sessions[s].identity == identity)
    || (exists a :: a in attempts && attempts[a].identity == Some(identity))
  }

  // ------------------------------------------------------- row by row

  datatype BackfillError = UniqueViolation

  /**
   * What the unique indexes of the older schema forbid (prisma/migrations/00000000000000_init/
   * migration.sql:259 and 301-303): within a session and a version, a key or the official flag
   * twice. The migration does not drop them.
   */
  predicate SessionClash(x: Attempt, y: Attempt) {
    && x.session.Some? && x.session == y.session && x.version == y.version
    && (x.key == y.key || (x.official && y.official))
  }

  predicate ClashesAt(attempts: Attempts, a: string, row: Attempt) {
    exists b :: b in attempts && b != a && SessionClash(attempts[b], row)
  }

  /** One row of an update; these indexes are checked at once. A row that stays as it is cannot clash. */
  function UpdateRow(attempts: Attempts, target: Attempts, a: string): Result<Attempts, BackfillError> {
    if a !in target || (a in attempts && attempts[a] == target[a]) then Ok(attempts)
    else if ClashesAt(attempts, a, target[a]) then Err(UniqueViolation)
    else Ok(attempts[a := target[a]])
  }

  /** An update that takes the rows to `target`, in this order. */
  function Update(attempts: Attempts, target: Attempts, order: seq<string>): Result<Attempts, BackfillError> {
    if order == [] then Ok(attempts)
    else
      var last := |order| - 1;
      match Update(attempts, target, order[..last])
      case Err(e) => Err(e)
      case Ok(now) => UpdateRow(now, target, order[last])
  }

  lemma {:induction false} UpdateStops(attempts: Attempts, target: Attempts, order: seq<string>, k: nat)
    requires k <= |order| && Update(attempts, target, order[..k]).Err?
    ensures Update(attempts, target, order) == Update(attempts, target, order[..k])
  {
    if k == |order| {
      assert order[..k] == order;
    } else {
      var last := |order| - 1;
      assert order[..last][..k] == order[..k];
      UpdateStops(attempts, target, order[..last], k);
    }
  }

  // ----------------------------------------------------------- the migration

  datatype Tables = Tables(sessions: Sessions, attempts: Attempts, identities: set<string>)

  ghost function RootOf(sessions: Sessions, id: string): string
    requires Rooted(sessions, id)
  {
    var n: nat :| AtDepth(sessions, id, n);
    RootIdentity(sessions, id, n)
  }

  /** Every session whose chain ends at a root, on the identity of that root. */
  ghost function Repaired(sessions: Sessions): Sessions {
    map id | id in sessions ::
      if Rooted(sessions, id) then sessions[id].(identity := RootOf(sessions, id)) else sessions[id]
  }

  lemma RepairedIs(sessions: Sessions, roots: map<string, string>)
    requires forall id :: id in roots <==> Rooted(sessions, id)
    requires forall id, n: nat :: AtDepth(sessions, id, n) ==> id in roots && roots[id] == RootIdentity(sessions, id, n)
    ensures Reidentified(sessions, roots) == Repaired(sessions)
  {
  }

  /** The attempts as the key statement meets them: identities repaired, keys as they were. */
  ghost function Rehomed(t: Tables): Attempts { Rescoped(Repaired(t.sessions), t.attempts) }

  /** The attempts after the three statements about them, if none fails. */
  ghost function FinalAttempts(le: IdOrder, t: Tables): Attempts { Reranked(le, Rekeyed(le, Rehomed(t))) }

  /** What the migration makes of the tables, visiting rows in these orders. */
  ghost function Migrated(
      le: IdOrder, t: Tables, byKey: seq<string>, byRank: seq<string>): Result<Tables, BackfillError> {
    var sessions, before := Repaired(t.sessions), Rehomed(t);
    match Update(before, Rekeyed(le, before), byKey)
    case Err(e) => Err(e)
    case Ok(keyed) =>
      match Update(keyed, Reranked(le, keyed), byRank)
      case Err(e) => Err(e)
      case Ok(last) =>
        if !Indexable(last) then Err(UniqueViolation)
        else Ok(Tables(sessions, last, set i | i in t.identities && Used(sessions, last, i)))
  }

  class Database {
    const le: IdOrder
    var sessions: Sessions
    var attempts: Attempts
    var identities: set<string>

    constructor (le: IdOrder, t: Tables)
      ensures this.le == le && Snapshot() == t
    {
      this.le := le;
      sessions, attempts, identities := t.sessions, t.attempts, t.identities;
    }

    function Snapshot(): Tables
      reads this
    {
      Tables(sessions, attempts, identities)
    }

    /** The recursive query: all sessions whose chain has a root, level by level. */
    method SessionRoots() returns (roots: map<string, string>)
      ensures forall id :: id in roots <==> Rooted(sessions, id)
      ensures forall id, n: nat :: AtDepth(sessions, id, n) ==>
        id in roots && roots[id] == RootIdentity(sessions, id, n)
    {
      hide AtDepth, RootIdentity, FoundUpTo, Within, Rooted;
      roots := map id | id in sessions && sessions[id].rotationOf.None? :: sessions[id].identity;
      var level := roots.Keys;
      ghost var depth := 0;
      FirstLevel(sessions, roots);
      while level != {}
        invariant forall id :: id in level <==> AtDepth(sessions, id, depth)
        invariant FoundUpTo(sessions, roots, depth)
        invariant level <= roots.Keys <= sessions.Keys
        decreases sessions.Keys - roots.Keys, level
      {
        var children := map id |
          id in sessions && sessions[id].rotationOf.Some? && sessions[id].rotationOf.value in level
          :: roots[sessions[id].rotationOf.value];
        NextLevel(sessions, level, roots, depth, children);
        assert children.Keys != {} ==> exists c :: c in children.Keys;
        roots := roots + children;
        level := children.Keys;
        depth := depth + 1;
      }
      AllFound(sessions, roots, depth);
    }

    /** One update statement over attempts; on an error the caller rolls back. */
    method UpdateAttempts(target: Attempts, order: seq<string>) returns (e: Option<BackfillError>)
      modifies this`attempts
      ensures match Update(old(attempts), target, order)
        case Ok(now) => e == None && attempts == now
        case Err(x) => e == Some(x)
    {
      ghost var begin := attempts;
      for k := 0 to |order|
        invariant Update(begin, target, order[..k]) == Ok(attempts)
      {
        assert order[..k + 1][..k] == order[..k];
        var a := order[k];
        if a in target && !(a in attempts && attempts[a] == target[a]) {
          if exists b :: b in attempts && b != a && SessionClash(attempts[b], target[a]) {
            UpdateStops(begin, target, order, k + 1);
            return Some(UniqueViolation);
          }
          attempts := attempts[a := target[a]];
        }
      }
      assert order[..|order|] == order;
      return None;
    }

    /** The migration, statement by statement. */
    method Migrate(byKey: seq<string>, byRank: seq<string>) returns (r: Result<(), BackfillError>)
      modifies this
      ensures match Migrated(le, old(Snapshot()), byKey, byRank)
        case Ok(t) => r.Ok? && Snapshot() == t
        case Err(e) => r == Err(e) && Snapshot() == old(Snapshot())
    {
      var begin := Snapshot();
      var roots := SessionRoots();
      RepairedIs(sessions, roots);
      sessions := Reidentified(sessions, roots);
      attempts := Rescoped(sessions, attempts);
      var e := UpdateAttempts(Rekeyed(le, attempts), byKey);
      if e.None? {
        e := UpdateAttempts(Reranked(le, attempts), byRank);
      }
      if e.None? && !Indexable(attempts) {
        e := Some(UniqueViolation);
      }
      if e.Some? {
        sessions, attempts, identities := begin.sessions, begin.attempts, begin.identities;
        return Err(e.value);
      }
      identities := set i | i in identities && Used(sessions, attempts, i);
      return Ok(());
    }
  }

  /** Once a level is empty, every rooted session was found. */
  lemma AllFound(sessions: Sessions, roots: map<string, string>, d: nat)
    requires FoundUpTo(sessions, roots, d) && forall id :: !AtDepth(sessions, id, d)
    ensures forall id :: id in roots <==> Rooted(sessions, id)
    ensures forall id, n: nat :: AtDepth(sessions, id, n) ==> id in roots && roots[id] == RootIdentity(sessions, id, n)
  {
    forall id ensures id in roots <==> Rooted(sessions, id) {
      NothingDeeper(sessions, d, id);
    }
    forall id, n: nat | AtDepth(sessions, id, n) ensures id in roots && roots[id] == RootIdentity(sessions, id, n) {
      NothingDeeper(sessions, d, id);
    }
  }
}
