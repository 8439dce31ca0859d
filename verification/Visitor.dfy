/**
 * Guest sessions (src/http/visitor.ts:26-51): a request with a known token keeps its session or,
 * when that is old, revoked or expired, gets a new session on the same identity. `hash` is the
 * digest of a token; fresh tokens and ids are parameters. Times are milliseconds.
 */
module Visitor {
  import opened Common

  // ------------------------------------------------------------------ data

  datatype Session = Session(
    identity: string, tokenHash: string, createdAt: int, lastSeenAt: int, expiresAt: int,
    revokedAt: Option<int>, rotationOf: Option<string>)

  type Sessions = map<string, Session>

  const DAY: int := 86400000

  datatype Guest = Guest(identity: string, session: string)

  /** What the call makes up: a token, a session id and, if need be, an identity. */
  datatype Fresh = Fresh(token: string, session: string, identity: string)

  predicate TokenChar(c: char) { 'A' <= c <= 'Z' || 'a' <= c <= 'z' || '0' <= c <= '9' || c == '_' || c == '-' }

  /** The shape a token must have to be looked up. */
  predicate TokenShape(token: string) { 32 <= |token| <= 256 && forall i :: 0 <= i < |token| ==> TokenChar(token[i]) }

  /** The unique index on token hashes. */
  predicate OneSessionPerToken(sessions: Sessions) {
    forall s, t :: s in sessions && t in sessions && sessions[s].tokenHash == sessions[t].tokenHash ==> s == t
  }

  predicate Active(s: Session, now: int) { s.revokedAt.None? && s.expiresAt > now }

  predicate Old(s: Session, now: int) { s.createdAt < now - 30 * DAY }

  predicate Known(sessions: Sessions, hash: string -> string, token: Option<string>, s: string) {
    token.Some? && TokenShape(token.value) && s in sessions && sessions[s].tokenHash == hash(token.value)
  }

  /** The session of a usable token. */
  function Lookup(sessions: Sessions, hash: string -> string, token: Option<string>): (r: Option<string>)
    requires OneSessionPerToken(sessions)
    ensures r.Some? ==> Known(sessions, hash, token, r.value)
    ensures r.None? ==> forall s :: s in sessions ==> !Known(sessions, hash, token, s)
  {
    if token.Some? && TokenShape(token.value) && exists s :: s in sessions && sessions[s].tokenHash == hash(token.value)
    then
      var s :| s in sessions && sessions[s].tokenHash == hash(token.value);
      Some(s)
    else None
  }

  predicate FreshFor(sessions: Sessions, identities: set<string>, hash: string -> string, f: Fresh) {
    && TokenShape(f.token) && f.session !in sessions && f.identity !in identities
    && forall s :: s in sessions ==> sessions[s].tokenHash != hash(f.token)
  }

  // ------------------------------------------------------------- the service

  datatype Tables = Tables(sessions: Sessions, identities: set<string>)

  datatype Answer = Answer(guest: Guest, cookie: Option<string>)

  function Resolve(t: Tables, hash: string -> string, token: Option<string>, now: int, f: Fresh): (Tables, Answer)
    requires OneSessionPerToken(t.sessions)
  {
    var existing := Lookup(t.sessions, hash, token);
    if existing.Some? && Active(t.sessions[existing.value], now) && !Old(t.sessions[existing.value], now) then
      var s := t.sessions[existing.value];
      (t.(sessions := t.sessions[existing.value := s.(lastSeenAt := now)]),
        Answer(Guest(s.identity, existing.value), None))
    else
      var kept := if existing.None? then t.sessions
                  else t.sessions[existing.value := t.sessions[existing.value].(revokedAt := Some(now),
                    lastSeenAt := now)];
      var identity := if existing.Some? then t.sessions[existing.value].identity else f.identity;
      var session := Session(identity, hash(f.token), now, now, now + 365 * DAY, None, existing);
      (Tables(kept[f.session := session], t.identities + {identity}), Answer(Guest(identity, f.session), Some(f.token)))
  }

  class Store {
    const hash: string -> string
    var sessions: Sessions
    var identities: set<string>

    constructor (hash: string -> string)
      ensures this.hash == hash && sessions == map[] && identities == {}
    {
      this.hash := hash;
      sessions, identities := map[], {};
    }

    method ResolveVisitor(token: Option<string>, now: int, f: Fresh) returns (r: Answer)
      requires OneSessionPerToken(sessions)
      modifies this`sessions, this`identities
      ensures (Tables(sessions, identities), r) == Resolve(Tables(old(sessions), old(identities)), hash, token, now, f)
    {
      var existing := Lookup(sessions, hash, token);
      var active := existing.Some? && Active(sessions[existing.value], now);
      var shouldRotate := active && Old(sessions[existing.value], now);
      if active && !shouldRotate {
        var s := sessions[existing.value];
        sessions := sessions[existing.value := s.(lastSeenAt := now)];
        return Answer(Guest(s.identity, existing.value), None);
      }
      var identity := f.identity;
      if existing.Some? {
        identity := sessions[existing.value].identity;
        sessions := sessions[existing.value := sessions[existing.value].(revokedAt := Some(now), lastSeenAt := now)];
      }
      identities := identities + {identity};
      sessions := sessions[f.session := Session(identity, hash(f.token), now, now, now + 365 * DAY, None, existing)];
      return Answer(Guest(identity, f.session), Some(f.token));
    }
  }

  // ---------------------------------------------------------------- runs

  datatype Call = Call(token: Option<string>, now: int, made: Fresh)

  /** Each call makes up what is new at that point. */
  ghost predicate Possible(t: Tables, hash: string -> string, calls: seq<Call>)
    requires OneSessionPerToken(t.sessions)
    decreases |calls|
  {
    calls == [] ||
    (var n := |calls| - 1;
     && Possible(t, hash, calls[..n])
     && OneSessionPerToken(After(t, hash, calls[..n]).sessions)
     && FreshFor(After(t, hash, calls[..n]).sessions, After(t, hash, calls[..n]).identities, hash, calls[n].made))
  }

  ghost function After(t: Tables, hash: string -> string, calls: seq<Call>): Tables
    requires OneSessionPerToken(t.sessions)
    decreases |calls|
  {
    if calls == [] then t
    else
      var before := After(t, hash, calls[..|calls| - 1]);
      var c := calls[|calls| - 1];
      if OneSessionPerToken(before.sessions) then Resolve(before, hash, c.token, c.now, c.made).0 else before
  }

  /** No session disappears, changes its identity, its token or the session it rotates. */
  ghost predicate Stable(a: Sessions, b: Sessions) {
    forall s :: s in a ==>
      s in b && b[s].identity == a[s].identity && b[s].tokenHash == a[s].tokenHash && b[s].rotationOf == a[s].rotationOf
  }

  /** A rotation is on the identity of the session it replaced. */
  predicate RotationsAgree(sessions: Sessions) {
    forall s :: s in sessions && sessions[s].rotationOf.Some? ==>
      sessions[s].rotationOf.value in sessions
        && sessions[sessions[s].rotationOf.value].identity == sessions[s].identity
  }

  ghost predicate Kept(a: Sessions, b: Sessions) {
    OneSessionPerToken(b) && Stable(a, b) && (RotationsAgree(a) ==> RotationsAgree(b))
  }

  lemma TouchKeeps(a: Sessions, s: string, next: Session)
    requires OneSessionPerToken(a) && s in a
    requires next.identity == a[s].identity && next.tokenHash == a[s].tokenHash && next.rotationOf == a[s].rotationOf
    ensures Kept(a, a[s := next])
  {
  }

  lemma AddKeeps(a: Sessions, s: string, next: Session)
    requires OneSessionPerToken(a) && s !in a && forall x :: x in a ==> a[x].tokenHash != next.tokenHash
    requires next.rotationOf.Some? ==> next.rotationOf.value in a && a[next.rotationOf.value].identity == next.identity
    ensures Kept(a, a[s := next])
  {
  }

  lemma ResolveKeeps(t: Tables, hash: string -> string, c: Call)
    requires OneSessionPerToken(t.sessions) && FreshFor(t.sessions, t.identities, hash, c.made)
    ensures Kept(t.sessions, Resolve(t, hash, c.token, c.now, c.made).0.sessions)
  {
    var existing := Lookup(t.sessions, hash, c.token);
    var after := Resolve(t, hash, c.token, c.now, c.made).0.sessions;
    if existing.Some? {
      var s := t.sessions[existing.value];
      TouchKeeps(t.sessions, existing.value, s.(lastSeenAt := c.now));
      TouchKeeps(t.sessions, existing.value, s.(revokedAt := Some(c.now), lastSeenAt := c.now));
      if c.made.session in after {
        AddKeeps(t.sessions[existing.value := s.(revokedAt := Some(c.now), lastSeenAt := c.now)], c.made.session,
          after[c.made.session]);
      }
    } else {
      AddKeeps(t.sessions, c.made.session, after[c.made.session]);
    }
  }

  lemma {:induction false} CallsKeep(t: Tables, hash: string -> string, calls: seq<Call>)
    requires OneSessionPerToken(t.sessions) && Possible(t, hash, calls)
    ensures Kept(t.sessions, After(t, hash, calls).sessions)
  {
    if calls != [] {
      var n := |calls| - 1;
      CallsKeep(t, hash, calls[..n]);
      ResolveKeeps(After(t, hash, calls[..n]), hash, calls[n]);
    }
  }

  /**
   * A token once issued leads to its identity in every later call, whatever happened in between:
   * the session may have been rotated, revoked or expired. A token handed out in exchange is on
   * that identity too.
   */
  lemma TokensKeepTheirIdentity(t: Tables, hash: string -> string, s: string, token: string, calls: seq<Call>, c: Call)
    requires OneSessionPerToken(t.sessions)
    requires Known(t.sessions, hash, Some(token), s) && c.token == Some(token)
    requires Possible(t, hash, calls + [c])
    ensures var (after, answer) := Resolve(After(t, hash, calls), hash, c.token, c.now, c.made);
      && answer.guest.identity == t.sessions[s].identity
      && answer.guest.session in after.sessions
        && after.sessions[answer.guest.session].identity == t.sessions[s].identity
      && (answer.cookie.Some? ==>
            && Known(after.sessions, hash, answer.cookie, answer.guest.session)
            && after.sessions[answer.guest.session].rotationOf == Some(s))
  {
    assert (calls + [c])[..|calls|] == calls;
    CallsKeep(t, hash, calls);
    var before := After(t, hash, calls);
    assert Known(before.sessions, hash, Some(token), s);
    assert Lookup(before.sessions, hash, c.token) == Some(s);
  }

  // ------------------------------------------------- when a session is kept

  /** A token as issued: 32 to 256 characters of the URL-safe alphabet. */
  predicate Issued(token: string) {
    32 <= |token| <= 256 && forall c :: c in token ==>
      '0' <= c <= '9' || 'A' <= c <= 'Z' || 'a' <= c <= 'z' || c in {'_', '-'}
  }

  /** The session can go on: not revoked, not expired, and at most 30 days old. */
  predicate GoesOn(s: Session, now: int) {
    s.revokedAt == None && now < s.expiresAt && now - s.createdAt <= 30 * 24 * 60 * 60 * 1000
  }

  /** A session of a year that starts now. */
  predicate StartsNow(s: Session, identity: string, tokenHash: string, now: int) {
    && s.identity == identity && s.tokenHash == tokenHash && s.createdAt == now
    && s.expiresAt == now + 365 * 24 * 60 * 60 * 1000 && s.revokedAt == None
  }

  lemma IssuedIsShape(token: string)
    ensures Issued(token) <==> TokenShape(token)
  {
    if TokenShape(token) {
      forall c | c in token ensures TokenChar(c) {
        var i :| 0 <= i < |token| && token[i] == c;
      }
    }
    if Issued(token) {
      forall i | 0 <= i < |token| ensures TokenChar(token[i]) {
        assert token[i] in token;
      }
    }
  }

  /**
   * A known session is kept, with no new cookie, exactly while it can go on. Otherwise it is
   * revoked, and a session of a year on its identity takes its place under the new cookie.
   */
  lemma KeptWhileItGoesOn(t: Tables, hash: string -> string, token: string, s: string, now: int, f: Fresh)
    requires OneSessionPerToken(t.sessions) && FreshFor(t.sessions, t.identities, hash, f)
    requires Issued(token) && s in t.sessions && t.sessions[s].tokenHash == hash(token)
    ensures var (after, answer) := Resolve(t, hash, Some(token), now, f);
      var before := t.sessions[s];
      && answer.guest.identity == before.identity
      && after.identities == t.identities + (if GoesOn(before, now) then {} else {before.identity})
      && (answer.cookie.None? <==> GoesOn(before, now))
      && (GoesOn(before, now) ==>
            answer.guest.session == s && after.sessions == t.sessions[s := before.(lastSeenAt := now)])
      && (!GoesOn(before, now) ==>
            && answer.cookie == Some(f.token) && answer.guest.session == f.session
            && after.sessions.Keys == t.sessions.Keys + {f.session}
            && after.sessions[s] == before.(revokedAt := Some(now), lastSeenAt := now)
            && StartsNow(after.sessions[f.session], before.identity, hash(f.token), now)
            && after.sessions[f.session].rotationOf == Some(s)
            && forall x :: x in t.sessions && x != s ==> after.sessions[x] == t.sessions[x])
  {
    IssuedIsShape(token);
    assert Lookup(t.sessions, hash, Some(token)) == Some(s);
  }

  /** Without a token, or with one that is malformed or unknown, a guest gets a session and an identity of its own. */
  lemma UnknownGuestsAreNew(t: Tables, hash: string -> string, token: Option<string>, now: int, f: Fresh)
    requires OneSessionPerToken(t.sessions)
    requires token.Some? && Issued(token.value) ==>
      forall s :: s in t.sessions ==> t.sessions[s].tokenHash != hash(token.value)
    ensures var (after, answer) := Resolve(t, hash, token, now, f);
      && answer == Answer(Guest(f.identity, f.session), Some(f.token))
      && after.identities == t.identities + {f.identity}
      && after.sessions == t.sessions[f.session := after.sessions[f.session]]
      && StartsNow(after.sessions[f.session], f.identity, hash(f.token), now)
      && after.sessions[f.session].rotationOf == None
  {
    if token.Some? { IssuedIsShape(token.value); }
  }
}
