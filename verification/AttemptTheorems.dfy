/**
 * What every run of the submission protocol keeps: the table is the one that handling the
 * inserting requests one after another would leave, whatever the interleaving.
 */
module AttemptTheorems {
  import opened Common
  import opened AttemptProtocol

  // ------------------------------------------------- sequential reference

  function SequentialTable(log: seq<Request>): Table {
    if log == [] then []
    else
      var t := SequentialTable(log[..|log| - 1]);
      t + [SequentialRow(t, log[|log| - 1])]
  }

  function Log(t: Table): seq<Request> {
    seq(|t|, i requires 0 <= i < |t| => RequestOf(t[i]))
  }

  lemma {:induction false} IsSequentialAppend(t: Table, row: Attempt)
    requires IsSequential(t)
    requires row == SequentialRow(t, RequestOf(row))
    requires FindKey(t, row.owner, row.version, row.key).None?
    ensures IsSequential(t + [row])
  {
    var u := t + [row];
    forall k | 0 <= k < |u| ensures IsSequentialAt(u, k) {
      if k < |t| {
        assert IsSequentialAt(t, k);
        assert u[..k] == t[..k];
      } else {
        assert u[..k] == t;
      }
    }
  }

  lemma {:induction false} SequentialTableIs(t: Table)
    requires IsSequential(t)
    ensures t == SequentialTable(Log(t))
  {
    if t != [] {
      var n := |t| - 1;
      SequentialPrefix(t, n);
      SequentialTableIs(t[..n]);
      assert Log(t)[..n] == Log(t[..n]);
      assert IsSequentialAt(t, n);
    }
  }

  lemma SequentialPrefix(t: Table, n: nat)
    requires IsSequential(t) && n <= |t|
    ensures IsSequential(t[..n])
  {
    forall k | 0 <= k < n ensures IsSequentialAt(t[..n], k) {
      assert IsSequentialAt(t, k);
      assert t[..n][..k] == t[..k];
    }
  }

  /** In a sequential table every group reads official, practice 1, practice 2, ... */
  lemma {:induction false} GroupShape(t: Table, o: Owner, v: string)
    requires IsSequential(t)
    ensures forall i :: 0 <= i < |Group(t, o, v)| ==>
      Group(t, o, v)[i].practiceOrdinal == i && (Group(t, o, v)[i].official <==> i == 0)
  {
    if t != [] {
      var n := |t| - 1;
      SequentialPrefix(t, n);
      GroupShape(t[..n], o, v);
      assert IsSequentialAt(t, n);
    }
  }

  lemma {:induction false} OfficialExactlyWhenNonEmpty(t: Table, o: Owner, v: string)
    requires IsSequential(t)
    ensures HasOfficial(t, o, v) <==> Group(t, o, v) != []
  {
    GroupShape(t, o, v);
    if Group(t, o, v) != [] {
      var first := Group(t, o, v)[0];
      assert first in t && first.official;
    }
  }

  lemma KeysDistinct(t: Table, i: nat, j: nat)
    requires IsSequential(t) && i < |t| && j < |t|
    requires t[i].owner == t[j].owner && t[i].version == t[j].version && t[i].key == t[j].key
    ensures i == j
  {
    if i < j {
      KeyStaysFree(t, i, j);
    } else if j < i {
      KeyStaysFree(t, j, i);
    }
  }

  lemma KeyStaysFree(t: Table, i: nat, j: nat)
    requires IsSequential(t) && i < j < |t|
    ensures !HoldsKey(t[i], t[j].owner, t[j].version, t[j].key)
  {
    assert IsSequentialAt(t, j);
    assert t[..j][i] == t[i];
  }

  // ------------------------------------------------------------ invariant

  predicate AnsweredBy(t: Table, req: Request, id: string, official: bool) {
    exists i :: 0 <= i < |t| && HoldsKey(t[i], req.owner, req.version, req.key) && t[i].hash == req.hash
      && t[i].id == id && t[i].official == official
  }

  predicate OtherPayload(t: Table, req: Request) {
    exists i :: 0 <= i < |t| && HoldsKey(t[i], req.owner, req.version, req.key) && t[i].hash != req.hash
  }

  predicate Inserted(t: Table, req: Request, official: bool) {
    exists i :: 0 <= i < |t| && RequestOf(t[i]) == req && t[i].official == official
  }

  predicate KeyTaken(t: Table, req: Request) { FindKey(t, req.owner, req.version, req.key).Some? }

  /** What a request may rely on at each point of its walk. */
  predicate LocalOk(t: Table, req: Request, l: Local) {
    match l
    case Start => true
    case Prepared => true
    case InFirst(snapshot) => snapshot <= t
    case Recovering => KeyTaken(t, req) || HasOfficial(t, req.owner, req.version)
    case NeedsFallback => HasOfficial(t, req.owner, req.version)
    case InFallback(snapshot) => snapshot <= t && HasOfficial(t, req.owner, req.version)
    case Done(Created(id, official)) => id == req.attemptId && Inserted(t, req, official)
    case Done(Replayed(id, official)) => AnsweredBy(t, req, id, official)
    case Done(Conflict) => OtherPayload(t, req)
    case Done(Failed) => true
  }

  predicate IsCreated(l: Local) { l.Done? && l.outcome.Created? }

  /** The request that inserted row `k`. */
  predicate InsertedBy(w: World, s: State, k: nat, r: nat)
    requires |s.local| == |w.requests| && k < |s.table|
  {
    r < |w.requests| && RequestOf(s.table[k]) == w.requests[r] && IsCreated(s.local[r])
  }

  ghost predicate HasAuthor(w: World, s: State, k: nat)
    requires |s.local| == |w.requests| && k < |s.table|
  {
    exists r: nat :: InsertedBy(w, s, k, r)
  }

  ghost predicate Inv(w: World, s: State) {
    && |s.local| == |w.requests|
    && IsSequential(s.table)
    && w.stored <= s.table
    && (forall r :: 0 <= r < |w.requests| ==> LocalOk(s.table, w.requests[r], s.local[r]))
    && (forall k :: |w.stored| <= k < |s.table| ==> HasAuthor(w, s, k))
  }

  /** Facts about a table survive an insert. */
  lemma LocalOkGrows(t: Table, row: Attempt, req: Request, l: Local)
    requires LocalOk(t, req, l)
    ensures LocalOk(t + [row], req, l)
  {
    var u := t + [row];
    assert forall i :: 0 <= i < |t| ==> u[i] == t[i];
    if HasOfficial(t, req.owner, req.version) {
      var i :| 0 <= i < |t| && Mine(t[i], req.owner, req.version) && t[i].official;
      assert Mine(u[i], req.owner, req.version) && u[i].official;
    }
    if KeyTaken(t, req) {
      var i :| 0 <= i < |t| && HoldsKey(t[i], req.owner, req.version, req.key);
      assert HoldsKey(u[i], req.owner, req.version, req.key);
    }
    match l
    case Done(Created(id, official)) =>
      var i :| 0 <= i < |t| && RequestOf(t[i]) == req && t[i].official == official;
      assert RequestOf(u[i]) == req;
    case Done(Replayed(id, official)) =>
      var i :| 0 <= i < |t| && HoldsKey(t[i], req.owner, req.version, req.key) && t[i].hash == req.hash
        && t[i].id == id && t[i].official == official;
      assert HoldsKey(u[i], req.owner, req.version, req.key);
    case Done(Conflict) =>
      var i :| 0 <= i < |t| && HoldsKey(t[i], req.owner, req.version, req.key) && t[i].hash != req.hash;
      assert HoldsKey(u[i], req.owner, req.version, req.key);
    case _ =>
  }

  lemma StoredIdsDiffer(w: World, t: Table)
    requires ValidWorld(w) && w.stored <= t
    ensures forall k, r :: 0 <= k < |w.stored| && 0 <= r < |w.requests| ==> t[k].id != w.requests[r].attemptId
  {
    assert forall k :: 0 <= k < |w.stored| ==> t[k] == w.stored[k];
  }

  /** A row whose id is a request's own was inserted by that request. */
  lemma OwnRow(w: World, s: State, k: nat, r: nat)
    requires ValidWorld(w) && Inv(w, s) && k < |s.table| && r < |w.requests|
    requires s.table[k].id == w.requests[r].attemptId
    ensures k >= |w.stored| && IsCreated(s.local[r]) && RequestOf(s.table[k]) == w.requests[r]
  {
    StoredIdsDiffer(w, s.table);
    assert HasAuthor(w, s, k);
    var q: nat :| InsertedBy(w, s, k, q);
    assert q == r;
  }

  /** The session-scoped indexes never trip before the owner-scoped ones. */
  lemma SessionIndexesAreImplied(w: World, s: State, k: nat, r: nat, row: Attempt)
    requires ValidWorld(w) && Inv(w, s) && k < |s.table| && r < |w.requests|
    requires RequestOf(row) == w.requests[r]
    requires row.session.Some? && row.session == s.table[k].session
    ensures row.owner == s.table[k].owner
  {
    assert OwnSession(w, w.requests[r].owner, w.requests[r].session);
    if k < |w.stored| {
      assert s.table[k] == w.stored[k];
      assert OwnSession(w, w.stored[k].owner, w.stored[k].session);
    } else {
      assert HasAuthor(w, s, k);
      var q: nat :| InsertedBy(w, s, k, q);
      assert OwnSession(w, w.requests[q].owner, w.requests[q].session);
    }
  }

  /** Why a unique violation happened: the key is taken, or both rows want to be official. */
  lemma ViolationCause(w: World, s: State, r: nat, row: Attempt)
    requires ValidWorld(w) && Inv(w, s) && r < |w.requests| && !IsCreated(s.local[r])
    requires RequestOf(row) == w.requests[r] && UniqueViolation(s.table, row)
    ensures KeyTaken(s.table, w.requests[r]) || (row.official && HasOfficial(s.table, row.owner, row.version))
  {
    var k :| 0 <= k < |s.table| && Clashes(s.table[k], row);
    if s.table[k].id == row.id {
      OwnRow(w, s, k, r);
    } else if s.table[k].owner != row.owner {
      SessionIndexesAreImplied(w, s, k, r, row);
    } else if s.table[k].key == row.key {
      assert HoldsKey(s.table[k], row.owner, row.version, row.key);
    } else {
      assert Mine(s.table[k], row.owner, row.version);
    }
  }

  lemma FreeKey(t: Table, row: Attempt)
    requires !UniqueViolation(t, row)
    ensures FindKey(t, row.owner, row.version, row.key).None?
  {
    forall i | 0 <= i < |t| ensures !HoldsKey(t[i], row.owner, row.version, row.key) {
      assert !Clashes(t[i], row);
    }
  }

  /** A committed first transaction inserts what sequential processing would. */
  lemma FirstRowIsSequential(t: Table, snapshot: Table, req: Request)
    requires IsSequential(t) && FirstReadsHold(snapshot, t, req)
    ensures FirstRow(snapshot, req) == SequentialRow(t, req)
  {
    OfficialExactlyWhenNonEmpty(t, req.owner, req.version);
  }

  lemma FallbackRowIsSequential(t: Table, snapshot: Table, req: Request)
    requires IsSequential(t) && FallbackReadsHold(snapshot, t, req) && HasOfficial(t, req.owner, req.version)
    ensures FallbackRow(snapshot, req) == SequentialRow(t, req)
  {
    OfficialExactlyWhenNonEmpty(t, req.owner, req.version);
  }

  lemma InsertKeepsInv(w: World, s: State, r: nat, row: Attempt)
    requires ValidWorld(w) && Inv(w, s) && r < |w.requests| && !IsCreated(s.local[r])
    requires RequestOf(row) == w.requests[r] && row == SequentialRow(s.table, w.requests[r])
    requires !UniqueViolation(s.table, row)
    ensures Inv(w, State(s.table + [row], s.local[r := Done(Created(row.id, row.official))]))
  {
    var u := State(s.table + [row], s.local[r := Done(Created(row.id, row.official))]);
    FreeKey(s.table, row);
    IsSequentialAppend(s.table, row);
    forall q | 0 <= q < |w.requests| ensures LocalOk(u.table, w.requests[q], u.local[q]) {
      if q != r {
        LocalOkGrows(s.table, row, w.requests[q], s.local[q]);
      } else {
        assert RequestOf(u.table[|s.table|]) == w.requests[r];
      }
    }
    forall k | |w.stored| <= k < |u.table| ensures HasAuthor(w, u, k) {
      if k < |s.table| {
        assert HasAuthor(w, s, k);
        var q: nat :| InsertedBy(w, s, k, q);
        assert q != r;
        assert InsertedBy(w, u, k, q);
      } else {
        assert InsertedBy(w, u, k, r);
      }
    }
  }

  /** A step that only moves one request along. */
  lemma MoveKeepsInv(w: World, s: State, r: nat, l: Local)
    requires Inv(w, s) && r < |w.requests| && !IsCreated(s.local[r])
    requires LocalOk(s.table, w.requests[r], l)
    ensures Inv(w, s.(local := s.local[r := l]))
  {
    var u := s.(local := s.local[r := l]);
    forall k | |w.stored| <= k < |u.table| ensures HasAuthor(w, u, k) {
      assert HasAuthor(w, s, k);
      var q: nat :| InsertedBy(w, s, k, q);
      assert q != r;
      assert InsertedBy(w, u, k, q);
    }
  }

  lemma AnswerOk(t: Table, req: Request)
    requires KeyTaken(t, req)
    ensures LocalOk(t, req, Done(AnswerFrom(FindKey(t, req.owner, req.version, req.key).value, req)))
  {
    var a := FindKey(t, req.owner, req.version, req.key).value;
    var i :| 0 <= i < |t| && t[i] == a;
    assert HoldsKey(t[i], req.owner, req.version, req.key);
  }

  lemma NextKeepsInv(w: World, s: State, step: Step)
    requires ValidWorld(w) && Inv(w, s) && Next(w, s, step).Some?
    ensures Inv(w, Next(w, s, step).value)
  {
    var r := step.r;
    var req, t, u := w.requests[r], s.table, Next(w, s, step).value;
    assert LocalOk(t, req, s.local[r]);
    if step.CommitFirst? {
      var snapshot := s.local[r].snapshot;
      FirstRowIsSequential(t, snapshot, req);
      InsertKeepsInv(w, s, r, FirstRow(snapshot, req));
    } else if step.CommitFallback? {
      var snapshot := s.local[r].snapshot;
      FallbackRowIsSequential(t, snapshot, req);
      InsertKeepsInv(w, s, r, FallbackRow(snapshot, req));
    } else {
      if step.FirstUniqueViolation? {
        ViolationCause(w, s, r, FirstRow(s.local[r].snapshot, req));
      } else if KeyTaken(t, req) {
        AnswerOk(t, req);
      }
      MoveKeepsInv(w, s, r, u.local[r]);
    }
  }

  lemma {:induction false} RunKeepsInv(w: World, steps: seq<Step>)
    requires ValidWorld(w) && Run(w, steps).Some?
    ensures Inv(w, Run(w, steps).value)
  {
    if steps != [] {
      var n := |steps| - 1;
      RunKeepsInv(w, steps[..n]);
      NextKeepsInv(w, Run(w, steps[..n]).value, steps[n]);
    }
  }

  // --------------------------------------------------------- main theorems

  /**
   * Every interleaving is equivalent to handling the inserting requests one after another, in
   * commit order, after the attempts already stored: same rows, same official flags, same ordinals.
   */
  lemma EveryRunIsSequential(w: World, steps: seq<Step>)
    requires ValidWorld(w) && Run(w, steps).Some?
    ensures var t := Run(w, steps).value.table; w.stored <= t && t == SequentialTable(Log(t))
    ensures var t := Run(w, steps).value.table; forall k :: |w.stored| <= k < |t| ==> Log(t)[k] in w.requests
  {
    RunKeepsInv(w, steps);
    var s := Run(w, steps).value;
    SequentialTableIs(s.table);
    forall k | |w.stored| <= k < |s.table| ensures Log(s.table)[k] in w.requests {
      assert HasAuthor(w, s, k);
      var r: nat :| InsertedBy(w, s, k, r);
    }
  }

  /**
   * In every run, each group is empty or has one official attempt, first, and ordinals 0, 1, 2,
   * ...; no key is used twice.
   */
  lemma EveryGroupIsWellFormed(w: World, steps: seq<Step>, o: Owner, v: string)
    requires ValidWorld(w) && Run(w, steps).Some?
    ensures var t := Run(w, steps).value.table;
      && (forall i :: 0 <= i < |Group(t, o, v)| ==>
        Group(t, o, v)[i].practiceOrdinal == i && (Group(t, o, v)[i].official <==> i == 0))
      && (forall i, j :: 0 <= i < j < |t| && Mine(t[i], o, v) && Mine(t[j], o, v) ==> t[i].key != t[j].key)
  {
    RunKeepsInv(w, steps);
    var t := Run(w, steps).value.table;
    GroupShape(t, o, v);
    forall i, j | 0 <= i < j < |t| && Mine(t[i], o, v) && Mine(t[j], o, v) ensures t[i].key != t[j].key {
      KeyStaysFree(t, i, j);
    }
  }

  /** The fallback practice insert runs only when an official attempt is already committed. */
  lemma FallbackOnlyAfterOfficial(w: World, steps: seq<Step>, r: nat)
    requires ValidWorld(w) && Run(w, steps).Some? && r < |w.requests|
    requires Run(w, steps).value.local[r].NeedsFallback? || Run(w, steps).value.local[r].InFallback?
    ensures HasOfficial(Run(w, steps).value.table, w.requests[r].owner, w.requests[r].version)
  {
    RunKeepsInv(w, steps);
    var s := Run(w, steps).value;
    assert LocalOk(s.table, w.requests[r], s.local[r]);
  }

  predicate Answered(l: Local) { l.Done? && (l.outcome.Created? || l.outcome.Replayed?) }

  predicate SameAnswer(a: Outcome, b: Outcome)
    requires (a.Created? || a.Replayed?) && (b.Created? || b.Replayed?)
  {
    a.id == b.id && a.official == b.official
  }

  predicate SameKey(a: Request, b: Request) { a.owner == b.owner && a.version == b.version && a.key == b.key }

  lemma AnswerIsStored(w: World, s: State, r: nat)
    requires Inv(w, s) && r < |w.requests| && Answered(s.local[r])
    ensures AnsweredBy(s.table, w.requests[r], s.local[r].outcome.id, s.local[r].outcome.official)
  {
    var req := w.requests[r];
    assert LocalOk(s.table, req, s.local[r]);
    if s.local[r].outcome.Created? {
      var i :| 0 <= i < |s.table| && RequestOf(s.table[i]) == req && s.table[i].official == s.local[r].outcome.official;
      assert HoldsKey(s.table[i], req.owner, req.version, req.key);
    }
  }

  /** All answered calls under one key carry one payload and name one attempt. */
  lemma OneAnswerPerKey(w: World, steps: seq<Step>, r: nat, q: nat)
    requires ValidWorld(w) && Run(w, steps).Some? && r < |w.requests| && q < |w.requests|
    requires SameKey(w.requests[r], w.requests[q])
    requires Answered(Run(w, steps).value.local[r]) && Answered(Run(w, steps).value.local[q])
    ensures var s := Run(w, steps).value;
      SameAnswer(s.local[q].outcome, s.local[r].outcome) && w.requests[q].hash == w.requests[r].hash
  {
    RunKeepsInv(w, steps);
    var s := Run(w, steps).value;
    var a, b, t := w.requests[r], w.requests[q], s.table;
    AnswerIsStored(w, s, r);
    var i :| 0 <= i < |t| && HoldsKey(t[i], a.owner, a.version, a.key) && t[i].hash == a.hash
      && t[i].id == s.local[r].outcome.id && t[i].official == s.local[r].outcome.official;
    AnswerIsStored(w, s, q);
    var j :| 0 <= j < |t| && HoldsKey(t[j], b.owner, b.version, b.key) && t[j].hash == b.hash
      && t[j].id == s.local[q].outcome.id && t[j].official == s.local[q].outcome.official;
    KeysDistinct(t, i, j);
  }

  /**
   * A conflict is answered only when one stored attempt holds the key with another payload; every
   * answered call under the key then names that attempt.
   */
  lemma ConflictMeansOtherPayload(w: World, steps: seq<Step>, q: nat)
    requires ValidWorld(w) && Run(w, steps).Some? && q < |w.requests|
    requires Run(w, steps).value.local[q] == Done(Conflict)
    ensures var s, req := Run(w, steps).value, w.requests[q];
      exists j :: 0 <= j < |s.table| && HoldsKey(s.table[j], req.owner, req.version, req.key)
        && s.table[j].hash != req.hash
        && forall r :: 0 <= r < |w.requests| && SameKey(w.requests[r], req) && Answered(s.local[r]) ==>
          s.local[r].outcome.id == s.table[j].id && w.requests[r].hash == s.table[j].hash
  {
    RunKeepsInv(w, steps);
    var s, req := Run(w, steps).value, w.requests[q];
    assert LocalOk(s.table, req, s.local[q]);
    var j :| 0 <= j < |s.table| && HoldsKey(s.table[j], req.owner, req.version, req.key) && s.table[j].hash != req.hash;
    forall r | 0 <= r < |w.requests| && SameKey(w.requests[r], req) && Answered(s.local[r])
      ensures s.local[r].outcome.id == s.table[j].id && w.requests[r].hash == s.table[j].hash
    {
      AnswerIsStored(w, s, r);
      var i :| 0 <= i < |s.table| && HoldsKey(s.table[i], req.owner, req.version, req.key)
        && s.table[i].hash == w.requests[r].hash && s.table[i].id == s.local[r].outcome.id;
      KeysDistinct(s.table, i, j);
    }
  }

  /** Nothing is stored for a call that did not create, and exactly one row for a call that did. */
  lemma RowsAreTheCreatedCalls(w: World, steps: seq<Step>, r: nat)
    requires ValidWorld(w) && Run(w, steps).Some? && r < |w.requests|
    ensures var s := Run(w, steps).value;
      IsCreated(s.local[r]) <==> exists k :: 0 <= k < |s.table| && s.table[k].id == w.requests[r].attemptId
    ensures var t := Run(w, steps).value.table;
      forall k, l :: 0 <= k < l < |t| && t[k].id == w.requests[r].attemptId ==> t[l].id != w.requests[r].attemptId
  {
    RunKeepsInv(w, steps);
    var s := Run(w, steps).value;
    if IsCreated(s.local[r]) {
      assert LocalOk(s.table, w.requests[r], s.local[r]);
      var i :| 0 <= i < |s.table| && RequestOf(s.table[i]) == w.requests[r]
        && s.table[i].official == s.local[r].outcome.official;
      assert s.table[i].id == w.requests[r].attemptId;
    }
    if k :| 0 <= k < |s.table| && s.table[k].id == w.requests[r].attemptId {
      OwnRow(w, s, k, r);
    }
    forall k, l | 0 <= k < l < |s.table| && s.table[k].id == w.requests[r].attemptId
      ensures s.table[l].id != w.requests[r].attemptId
    {
      if s.table[l].id == w.requests[r].attemptId {
        OwnRow(w, s, k, r);
        OwnRow(w, s, l, r);
        KeysDistinct(s.table, k, l);
      }
    }
  }

  lemma NextGrows(w: World, s: State, step: Step)
    requires |s.local| == |w.requests| && Next(w, s, step).Some?
    ensures s.table <= Next(w, s, step).value.table
  {
  }

  /** The table only grows: no later step changes or removes a stored attempt. */
  lemma {:induction false} StoredAttemptsStay(w: World, steps: seq<Step>, more: seq<Step>)
    requires Run(w, steps + more).Some?
    ensures Run(w, steps).Some?
    ensures Run(w, steps).value.table <= Run(w, steps + more).value.table
  {
    if more == [] {
      assert steps + more == steps;
    } else {
      var all, n := steps + more, |more| - 1;
      var before := all[..|all| - 1];
      assert before == steps + more[..n];
      StoredAttemptsStay(w, steps, more[..n]);
      NextGrows(w, Run(w, before).value, all[|all| - 1]);
    }
  }

  lemma InvGives(w: World, s: State)
    requires Inv(w, s)
    ensures |s.local| == |w.requests| && IsSequential(s.table)
  {
  }

  /** How many attempts of the guest or account on the version are stored. */
  function AttemptsOf(t: Table, o: Owner, v: string): set<nat> {
    set i: nat | i < |t| && t[i].owner == o && t[i].version == v
  }

  lemma LastAttempt(t: Table, o: Owner, v: string)
    requires t != []
    ensures var n: nat, rest := |t| - 1, AttemptsOf(t[..|t| - 1], o, v);
      AttemptsOf(t, o, v) == (if Mine(t[n], o, v) then rest + {n} else rest) && n !in rest
  {
    var n: nat := |t| - 1;
    assert forall i: nat :: i < n ==> t[..n][i] == t[i];
  }

  lemma {:induction false} GroupCounts(t: Table, o: Owner, v: string)
    ensures |Group(t, o, v)| == |AttemptsOf(t, o, v)|
  {
    if t == [] {
      assert AttemptsOf(t, o, v) == {};
    } else {
      GroupCounts(t[..|t| - 1], o, v);
      LastAttempt(t, o, v);
      hide AttemptsOf;
    }
  }

  /** The attempt is stored under the idempotency key of the request. */
  predicate Answers(a: Attempt, req: Request) {
    a.owner == req.owner && a.version == req.version && a.key == req.key
  }

  predicate NotStored(t: Table, req: Request) { forall i :: 0 <= i < |t| ==> !Answers(t[i], req) }

  /** The answer repeats a stored attempt of the key, or refuses another payload under it. */
  predicate StoredAnswer(t: Table, req: Request, answer: Outcome) {
    exists i :: 0 <= i < |t| && Answers(t[i], req)
      && answer == if t[i].hash == req.hash then Replayed(t[i].id, t[i].official) else Conflict
  }

  lemma TakenKey(t: Table, req: Request)
    ensures KeyTaken(t, req) <==> !NotStored(t, req)
    ensures KeyTaken(t, req) ==>
      StoredAnswer(t, req, AnswerFrom(FindKey(t, req.owner, req.version, req.key).value, req))
  {
    if KeyTaken(t, req) {
      var a := FindKey(t, req.owner, req.version, req.key).value;
      var i :| 0 <= i < |t| && t[i] == a;
      assert Answers(t[i], req);
    } else {
      forall i | 0 <= i < |t| ensures !Answers(t[i], req) {
        assert !HoldsKey(t[i], req.owner, req.version, req.key);
      }
    }
  }

  /** The attempt that a request stores as number `n` of its group. */
  function Stored(req: Request, n: nat): Attempt {
    Attempt(req.attemptId, req.owner, req.session, req.version, n == 0, n, req.key, req.hash)
  }

  /** After these steps the table has the request's attempt as the next of its group, and the caller was told so. */
  ghost predicate Stores(w: World, t: Table, steps: seq<Step>, r: nat)
    requires r < |w.requests|
  {
    var u, req := Run(w, steps), w.requests[r];
    var n := |AttemptsOf(t, req.owner, req.version)|;
    && u.Some? && u.value.table == t + [Stored(req, n)]
    && u.value.local[r] == Done(Created(req.attemptId, n == 0))
  }

  /** After these steps the table is as it was, and the caller has the answer of the stored attempt. */
  ghost predicate Repeats(w: World, t: Table, steps: seq<Step>, r: nat)
    requires r < |w.requests|
  {
    var u := Run(w, steps);
    u.Some? && u.value.table == t && u.value.local[r].Done? && StoredAnswer(t, w.requests[r], u.value.local[r].outcome)
  }

  lemma RunStep(w: World, steps: seq<Step>, step: Step)
    requires Run(w, steps).Some?
    ensures Run(w, steps + [step]) == Next(w, Run(w, steps).value, step)
  {
    assert (steps + [step])[..|steps|] == steps;
  }

  function At(s: State, r: nat, l: Local): State
    requires r < |s.local|
  {
    s.(local := s.local[r := l])
  }

  /** The request's own steps from the start, with its key free. */
  lemma FirstInsertAlone(w: World, s: State, r: nat)
    requires ValidWorld(w) && Inv(w, s) && r < |w.requests| && s.local[r] == Start && NotStored(s.table, w.requests[r])
    ensures var t, req := s.table, w.requests[r];
      var n := |AttemptsOf(t, req.owner, req.version)|;
      && Next(w, s, ReadPrior(r)) == Some(At(s, r, Prepared))
      && Next(w, At(s, r, Prepared), BeginFirst(r)) == Some(At(s, r, InFirst(t)))
      && Next(w, At(s, r, InFirst(t)), CommitFirst(r))
        == Some(State(t + [Stored(req, n)], s.local[r := Done(Created(req.attemptId, n == 0))]))
  {
    var t, req := s.table, w.requests[r];
    var row := FirstRow(t, req);
    TakenKey(t, req);
    FirstRowIsSequential(t, t, req);
    GroupCounts(t, req.owner, req.version);
    assert !UniqueViolation(t, row) by {
      if UniqueViolation(t, row) {
        ViolationCause(w, s, r, row);
        OfficialExactlyWhenNonEmpty(t, req.owner, req.version);
      }
    }
    hide ValidWorld, Inv, IsSequential, UniqueViolation, FindKey, Group, HasOfficial, NotStored;
    var done := Done(Created(req.attemptId, row.official));
    assert s.local[r := Prepared][r := InFirst(t)] == s.local[r := InFirst(t)];
    assert s.local[r := InFirst(t)][r := done] == s.local[r := done];
  }

  /** The request's own steps from the recovery on, with its key free. */
  lemma FallbackAlone(w: World, s: State, r: nat)
    requires ValidWorld(w) && Inv(w, s) && r < |w.requests| && s.local[r] == Recovering
    requires NotStored(s.table, w.requests[r])
    ensures var t, req := s.table, w.requests[r];
      var n := |AttemptsOf(t, req.owner, req.version)|;
      && n > 0
      && Next(w, s, Recover(r)) == Some(At(s, r, NeedsFallback))
      && Next(w, At(s, r, NeedsFallback), BeginFallback(r)) == Some(At(s, r, InFallback(t)))
      && Next(w, At(s, r, InFallback(t)), CommitFallback(r))
        == Some(State(t + [Stored(req, n)], s.local[r := Done(Created(req.attemptId, false))]))
  {
    var t, req := s.table, w.requests[r];
    var row := FallbackRow(t, req);
    assert LocalOk(t, req, s.local[r]);
    TakenKey(t, req);
    FallbackRowIsSequential(t, t, req);
    OfficialExactlyWhenNonEmpty(t, req.owner, req.version);
    GroupCounts(t, req.owner, req.version);
    assert !UniqueViolation(t, row) by {
      if UniqueViolation(t, row) { ViolationCause(w, s, r, row); }
    }
    hide ValidWorld, Inv, IsSequential, UniqueViolation, FindKey, Group, HasOfficial, NotStored;
    var done := Done(Created(req.attemptId, false));
    assert s.local[r := NeedsFallback][r := InFallback(t)] == s.local[r := InFallback(t)];
    assert s.local[r := InFallback(t)][r := done] == s.local[r := done];
  }

  /** A read under a key that is taken. */
  lemma TakenKeyAnswers(w: World, s: State, step: Step)
    requires |s.local| == |w.requests| && step.r < |w.requests| && !NotStored(s.table, w.requests[step.r])
    requires (step.ReadPrior? && s.local[step.r] == Start) || (step.Recover? && s.local[step.r] == Recovering)
    ensures var u := Next(w, s, step);
      u.Some? && u.value.table == s.table && u.value.local[step.r].Done?
        && StoredAnswer(s.table, w.requests[step.r], u.value.local[step.r].outcome)
  {
    TakenKey(s.table, w.requests[step.r]);
    hide NotStored, FindKey;
  }

  /**
   * A call that runs without interference always answers: from the stored row if its key is taken,
   * else with the next attempt of its group, which is official exactly if it is the first.
   */
  lemma UndisturbedCallAnswers(w: World, steps: seq<Step>, r: nat)
    requires ValidWorld(w) && Run(w, steps).Some? && r < |w.requests|
    requires Run(w, steps).value.local[r] == Start
    ensures var t := Run(w, steps).value.table;
      if NotStored(t, w.requests[r])
      then Stores(w, t, steps + [ReadPrior(r)] + [BeginFirst(r)] + [CommitFirst(r)], r)
      else Repeats(w, t, steps + [ReadPrior(r)], r)
  {
    RunKeepsInv(w, steps);
    hide ValidWorld, Inv, Next, Run, NotStored, StoredAnswer;
    var s, req := Run(w, steps).value, w.requests[r];
    RunStep(w, steps, ReadPrior(r));
    if NotStored(s.table, req) {
      FirstInsertAlone(w, s, r);
      RunStep(w, steps + [ReadPrior(r)], BeginFirst(r));
      RunStep(w, steps + [ReadPrior(r)] + [BeginFirst(r)], CommitFirst(r));
    } else {
      TakenKeyAnswers(w, s, ReadPrior(r));
    }
  }

  /** The fallback of a request that runs alone from its recovery on. */
  lemma RecoveryAnswers(w: World, steps: seq<Step>, r: nat)
    requires ValidWorld(w) && Run(w, steps).Some? && r < |w.requests|
    requires Run(w, steps).value.local[r] == Recovering
    ensures var t := Run(w, steps).value.table;
      if NotStored(t, w.requests[r])
      then
        && AttemptsOf(t, w.requests[r].owner, w.requests[r].version) != {}
        && Stores(w, t, steps + [Recover(r)] + [BeginFallback(r)] + [CommitFallback(r)], r)
      else Repeats(w, t, steps + [Recover(r)], r)
  {
    RunKeepsInv(w, steps);
    hide ValidWorld, Inv, Next, Run, NotStored, StoredAnswer;
    var s, req := Run(w, steps).value, w.requests[r];
    RunStep(w, steps, Recover(r));
    if NotStored(s.table, req) {
      FallbackAlone(w, s, r);
      RunStep(w, steps + [Recover(r)], BeginFallback(r));
      RunStep(w, steps + [Recover(r)] + [BeginFallback(r)], CommitFallback(r));
    } else {
      TakenKeyAnswers(w, s, Recover(r));
    }
  }

  /**
   * A request that began before its group had an official attempt and finds one committed by
   * another key loses the race: its insert violates an index, and when it then runs alone it ends
   * with a practice attempt, numbered by the attempts already there.
   */
  lemma LoserBecomesPractice(w: World, steps: seq<Step>, r: nat)
    requires ValidWorld(w) && Run(w, steps).Some? && r < |w.requests|
    requires var s, req := Run(w, steps).value, w.requests[r];
      && s.local[r].InFirst? && NotStored(s.table, req)
      && AttemptsOf(s.local[r].snapshot, req.owner, req.version) == {}
      && AttemptsOf(s.table, req.owner, req.version) != {}
    ensures var t, req := Run(w, steps).value.table, w.requests[r];
      var n := |AttemptsOf(t, req.owner, req.version)|;
      var u := Run(w, steps + [FirstUniqueViolation(r)] + [Recover(r)] + [BeginFallback(r)] + [CommitFallback(r)]);
      && n > 0 && u.Some?
      && u.value.table == t + [Attempt(
        req.attemptId, req.owner, req.session, req.version, false, n, req.key, req.hash)]
      && u.value.local[r] == Done(Created(req.attemptId, false))
  {
    RunKeepsInv(w, steps);
    var s, req := Run(w, steps).value, w.requests[r];
    var t, row := s.table, FirstRow(s.local[r].snapshot, req);
    hide ValidWorld, Inv, IsSequential;
    assert IsSequential(t) by { InvGives(w, s); }
    GroupCounts(t, req.owner, req.version);
    OfficialExactlyWhenNonEmpty(t, req.owner, req.version);
    assert UniqueViolation(t, row) by {
      GroupCounts(s.local[r].snapshot, req.owner, req.version);
      var i :| 0 <= i < |t| && Mine(t[i], req.owner, req.version) && t[i].official;
      assert Clashes(t[i], row);
    }
    RunStep(w, steps, FirstUniqueViolation(r));
    RecoveryAnswers(w, steps + [FirstUniqueViolation(r)], r);
  }

  /** A transaction of the request fails for another reason than a unique index. */
  predicate Faults(step: Step, r: nat) { step == FirstFails(r) || step == FallbackFails(r) }

  lemma StepFails(w: World, s: State, step: Step, r: nat)
    requires |s.local| == |w.requests| && r < |w.requests| && Next(w, s, step).Some?
    ensures Next(w, s, step).value.local[r] == Done(Failed) <==> s.local[r] == Done(Failed) || Faults(step, r)
  {
    hide FindKey, FirstRow, FallbackRow, UniqueViolation, FirstReadsHold, FallbackReadsHold;
  }

  predicate SomeFault(steps: seq<Step>, r: nat) { exists k :: 0 <= k < |steps| && Faults(steps[k], r) }

  lemma SomeFaultAppend(steps: seq<Step>, step: Step, r: nat)
    ensures SomeFault(steps + [step], r) <==> SomeFault(steps, r) || Faults(step, r)
  {
    var all := steps + [step];
    if SomeFault(steps, r) {
      var k :| 0 <= k < |steps| && Faults(steps[k], r);
      assert Faults(all[k], r);
    }
    assert all[|steps|] == step;
  }

  /** A call ends in failure exactly if one of its transactions failed: no race alone makes it fail. */
  lemma {:induction false} FailsExactlyOnFaults(w: World, steps: seq<Step>, r: nat)
    requires Run(w, steps).Some? && r < |w.requests|
    ensures Run(w, steps).value.local[r] == Done(Failed) <==> SomeFault(steps, r)
  {
    if steps != [] {
      var n := |steps| - 1;
      var rest := steps[..n];
      FailsExactlyOnFaults(w, rest, r);
      assert steps == rest + [steps[n]];
      hide Next;
      SomeFaultAppend(rest, steps[n], r);
      StepFails(w, Run(w, rest).value, steps[n], r);
    }
  }
}
