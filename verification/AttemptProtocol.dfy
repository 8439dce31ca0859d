/**
 * Attempt submission as a concurrent protocol (src/application/public-api.ts:224-290).
 *
 * Every request walks through the steps of `createAttempt`: read by idempotency key, a
 * serializable read-and-insert, recovery from a unique violation, and the fallback practice
 * insert. Steps of different requests interleave freely. A serializable transaction works on
 * the snapshot it began with and commits only if what it read is still what the table says;
 * it aborts with a unique violation only against committed rows, and may abort with a
 * serialization failure at any time. Rows are never deleted by the service. A run starts from
 * any well-formed table.
 */
module AttemptProtocol {
  import opened Common

  // ------------------------------------------------------------------ data

  datatype Owner = Guest(identity: string) | Account(account: string)

  /** One call of `createAttempt`; `attemptId` is the fresh random id it would insert under. */
  datatype Request = Request(
      owner: Owner, session: Option<string>, version: string, key: string, hash: string, attemptId: string)

  datatype Attempt = Attempt(
    id: string, owner: Owner, session: Option<string>, version: string,
    official: bool, practiceOrdinal: nat, key: string, hash: string)

  /** The `Attempt` table in commit order. */
  type Table = seq<Attempt>

  predicate Mine(a: Attempt, o: Owner, v: string) { a.owner == o && a.version == v }

  function Group(t: Table, o: Owner, v: string): (g: seq<Attempt>)
    ensures forall i :: 0 <= i < |g| ==> Mine(g[i], o, v) && g[i] in t
    ensures g == [] <==> forall i :: 0 <= i < |t| ==> !Mine(t[i], o, v)
  {
    if t == [] then []
    else
      var rest := Group(t[..|t| - 1], o, v);
      if Mine(t[|t| - 1], o, v) then rest + [t[|t| - 1]] else rest
  }

  predicate HasOfficial(t: Table, o: Owner, v: string) {
    exists i :: 0 <= i < |t| && Mine(t[i], o, v) && t[i].official
  }

  predicate HoldsKey(a: Attempt, o: Owner, v: string, key: string) { Mine(a, o, v) && a.key == key }

  /** `findFirst` by owner, version and idempotency key. */
  function FindKey(t: Table, o: Owner, v: string, key: string): (r: Option<Attempt>)
    ensures r.Some? ==> r.value in t && HoldsKey(r.value, o, v, key)
    ensures r.None? <==> forall i :: 0 <= i < |t| ==> !HoldsKey(t[i], o, v, key)
  {
    if t == [] then None
    else if HoldsKey(t[|t| - 1], o, v, key) then Some(t[|t| - 1])
    else FindKey(t[..|t| - 1], o, v, key)
  }

  /** The unique indexes: primary key, idempotency key and single official, per owner and per guest session. */
  predicate Clashes(a: Attempt, b: Attempt) {
    || a.id == b.id
    || (a.version == b.version && (a.key == b.key || (a.official && b.official))
        && (a.owner == b.owner || (a.session.Some? && a.session == b.session)))
  }

  predicate UniqueViolation(t: Table, row: Attempt) {
    exists i :: 0 <= i < |t| && Clashes(t[i], row)
  }

  // ----------------------------------------------------- the transactions

  function RowOf(req: Request, official: bool, ordinal: nat): Attempt {
    Attempt(req.attemptId, req.owner, req.session, req.version, official, ordinal, req.key, req.hash)
  }

  /** The row the first transaction inserts, from what it reads in `snapshot`. */
  function FirstRow(snapshot: Table, req: Request): Attempt {
    var official := !HasOfficial(snapshot, req.owner, req.version);
    RowOf(req, official, if official then 0 else |Group(snapshot, req.owner, req.version)|)
  }

  function FallbackRow(snapshot: Table, req: Request): Attempt {
    RowOf(req, false, |Group(snapshot, req.owner, req.version)|)
  }

  predicate FirstReadsHold(snapshot: Table, now: Table, req: Request) {
    && HasOfficial(snapshot, req.owner, req.version) == HasOfficial(now, req.owner, req.version)
    && |Group(snapshot, req.owner, req.version)| == |Group(now, req.owner, req.version)|
  }

  predicate FallbackReadsHold(snapshot: Table, now: Table, req: Request) {
    |Group(snapshot, req.owner, req.version)| == |Group(now, req.owner, req.version)|
  }

  // ------------------------------------------------- sequential reference

  /** What one request alone would insert: the first of its group is official, the others count up. */
  function SequentialRow(t: Table, req: Request): Attempt {
    var n := |Group(t, req.owner, req.version)|;
    RowOf(req, n == 0, n)
  }

  function RequestOf(a: Attempt): Request {
    Request(a.owner, a.session, a.version, a.key, a.hash, a.id)
  }

  /** The row is what sequential processing inserts after the rows before it, under a key still free. */
  predicate IsSequentialAt(t: Table, k: nat)
    requires k < |t|
  {
    && t[k] == SequentialRow(t[..k], RequestOf(t[k]))
    && FindKey(t[..k], t[k].owner, t[k].version, t[k].key).None?
  }

  /** In every group the first row is official, ordinals count up, and no key occurs twice. */
  predicate IsSequential(t: Table) {
    forall k :: 0 <= k < |t| ==> IsSequentialAt(t, k)
  }

  // ------------------------------------------------------------- protocol

  datatype Outcome =
    | Created(id: string, official: bool)    // this call inserted the row
    | Replayed(id: string, official: bool)   // the stored response of an earlier call
    | Conflict                               // IDEMPOTENCY_CONFLICT
    | Failed                                 // a database error reached the caller

  datatype Local =
    | Start
    | Prepared
    | InFirst(snapshot: Table)
    | Recovering
    | NeedsFallback
    | InFallback(snapshot: Table)
    | Done(outcome: Outcome)

  /** The attempts already stored, the requests of a run, and the identity each guest session belongs to. */
  datatype World = World(stored: Table, requests: seq<Request>, sessions: map<string, string>)

  datatype State = State(table: Table, local: seq<Local>)

  datatype Step =
    | ReadPrior(r: nat)
    | BeginFirst(r: nat)
    | CommitFirst(r: nat)
    | FirstUniqueViolation(r: nat)
    | FirstFails(r: nat)
    | Recover(r: nat)
    | BeginFallback(r: nat)
    | CommitFallback(r: nat)
    | FallbackFails(r: nat)

  /** A well-formed table to begin with, fresh attempt ids, and sessions that belong to the guest who presents them. */
  ghost predicate ValidWorld(w: World) {
    && IsSequential(w.stored)
    && (forall k :: 0 <= k < |w.stored| ==> OwnSession(w, w.stored[k].owner, w.stored[k].session))
    && (forall k, r :: 0 <= k < |w.stored| && 0 <= r < |w.requests| ==> w.stored[k].id != w.requests[r].attemptId)
    && (forall r, q :: 0 <= r < q < |w.requests| ==> w.requests[r].attemptId != w.requests[q].attemptId)
    && (forall r :: 0 <= r < |w.requests| ==> OwnSession(w, w.requests[r].owner, w.requests[r].session))
  }

  predicate OwnSession(w: World, o: Owner, session: Option<string>) {
    match o
    case Guest(identity) => session.Some? && session.value in w.sessions && w.sessions[session.value] == identity
    case Account(_) => session.None?
  }

  function Init(w: World): State { State(w.stored, seq(|w.requests|, _ => Start)) }

  /** The answer from a row found under the request's key. */
  function AnswerFrom(a: Attempt, req: Request): Outcome {
    if a.hash == req.hash then Replayed(a.id, a.official) else Conflict
  }

  /** One step, or `None` where the step is not possible. */
  function Next(w: World, s: State, step: Step): Option<State>
    requires |s.local| == |w.requests|
  {
    var r := step.r;
    if r >= |w.requests| then None
    else
      var req := w.requests[r];
      match (step, s.local[r])
      case (ReadPrior(_), Start) =>
        var prior := FindKey(s.table, req.owner, req.version, req.key);
        Some(s.(local := s.local[r := if prior.Some? then Done(AnswerFrom(prior.value, req)) else Prepared]))
      case (BeginFirst(_), Prepared) =>
        Some(s.(local := s.local[r := InFirst(s.table)]))
      case (CommitFirst(_), InFirst(snapshot)) =>
        var row := FirstRow(snapshot, req);
        if FirstReadsHold(snapshot, s.table, req) && !UniqueViolation(s.table, row)
        then Some(State(s.table + [row], s.local[r := Done(Created(row.id, row.official))]))
        else None
      case (FirstUniqueViolation(_), InFirst(snapshot)) =>
        if UniqueViolation(s.table, FirstRow(snapshot, req))
        then Some(s.(local := s.local[r := Recovering]))
        else None
      case (FirstFails(_), InFirst(_)) =>
        Some(s.(local := s.local[r := Done(Failed)]))
      case (Recover(_), Recovering) =>
        var raced := FindKey(s.table, req.owner, req.version, req.key);
        Some(s.(local := s.local[r := if raced.Some? then Done(AnswerFrom(raced.value, req)) else NeedsFallback]))
      case (BeginFallback(_), NeedsFallback) =>
        Some(s.(local := s.local[r := InFallback(s.table)]))
      case (CommitFallback(_), InFallback(snapshot)) =>
        var row := FallbackRow(snapshot, req);
        if FallbackReadsHold(snapshot, s.table, req) && !UniqueViolation(s.table, row)
        then Some(State(s.table + [row], s.local[r := Done(Created(row.id, row.official))]))
        else None
      case (FallbackFails(_), InFallback(_)) =>
        Some(s.(local := s.local[r := Done(Failed)]))
      case _ => None
  }

  /** The state after a whole interleaving, or `None` if some step was not possible. */
  function Run(w: World, steps: seq<Step>): (s: Option<State>)
    ensures s.Some? ==> |s.value.local| == |w.requests|
  {
    if steps == [] then Some(Init(w))
    else
      match Run(w, steps[..|steps| - 1])
      case None => None
      case Some(s) => Next(w, s, steps[|steps| - 1])
  }
}
