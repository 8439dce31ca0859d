/** What the stable-guest backfill does to sessions, attempts, keys and identities. */
module BackfillTheorems {
  import opened Common
  import opened Sets
  import opened Sorting
  import opened Backfill

  // ---------------------------------------------------------------- sessions

  /** Every session whose chain ends at a root has that root's identity afterwards; the others keep theirs. */
  lemma SessionsFollowTheirRoot(sessions: Sessions, id: string, n: nat)
    requires id in sessions
    ensures Repaired(sessions)[id].rotationOf == sessions[id].rotationOf
    ensures AtDepth(sessions, id, n) ==> Repaired(sessions)[id].identity == RootIdentity(sessions, id, n)
    ensures sessions[id].rotationOf.None? || !Rooted(sessions, id) ==> Repaired(sessions)[id] == sessions[id]
  {
    assert sessions[id].rotationOf.None? ==> forall m: nat :: AtDepth(sessions, id, m) ==> m == 0;
    if AtDepth(sessions, id, n) {
      var m: nat :| AtDepth(sessions, id, m) && RootOf(sessions, id) == RootIdentity(sessions, id, m);
      DepthUnique(sessions, id, m, n);
    }
  }

  /** Afterwards a rotation and the session it replaced are on one identity. */
  lemma RotationsShareIdentity(sessions: Sessions, id: string)
    requires Rooted(sessions, id) && sessions[id].rotationOf.Some?
    ensures var parent := sessions[id].rotationOf.value;
      parent in sessions && Repaired(sessions)[id].identity == Repaired(sessions)[parent].identity
  {
    var parent := sessions[id].rotationOf.value;
    var n: nat :| AtDepth(sessions, id, n);
    assert n > 0 && AtDepth(sessions, parent, n - 1);
    SessionsFollowTheirRoot(sessions, id, n);
    SessionsFollowTheirRoot(sessions, parent, n - 1);
  }

  // ------------------------------------------------------------------- ranks

  function Earlier(le: IdOrder, attempts: Attempts, group: set<string>, a: string): set<string>
    requires a in attempts && group <= attempts.Keys
  {
    set b | b in group && Before(le, attempts, b, a)
  }

  /** Ranks rise with the order, and stay below the size of the partition. */
  lemma RanksRise(le: IdOrder, attempts: Attempts, group: set<string>, a: string, b: string)
    requires TotalOrder(le) && group <= attempts.Keys && a in group && b in group
    ensures Rank(le, attempts, group, a) < |group|
    ensures Before(le, attempts, a, b) ==> Rank(le, attempts, group, a) < Rank(le, attempts, group, b)
  {
    var x, y := Earlier(le, attempts, group, a), Earlier(le, attempts, group, b);
    assert a !in x && x <= group;
    SubsetSize(x, group);
    if Before(le, attempts, a, b) {
      forall c | c in x ensures c in y {
      }
      assert a in y;
      SubsetSize(x, y);
    }
  }

  lemma RanksDiffer(le: IdOrder, attempts: Attempts, group: set<string>, a: string, b: string)
    requires TotalOrder(le) && group <= attempts.Keys && a in group && b in group && a != b
    ensures Rank(le, attempts, group, a) != Rank(le, attempts, group, b)
  {
    RanksRise(le, attempts, group, a, b);
    RanksRise(le, attempts, group, b, a);
  }

  ghost function Ranks(le: IdOrder, attempts: Attempts, group: set<string>, some: set<string>): set<nat>
    requires group <= attempts.Keys && some <= group
  {
    set a | a in some :: Rank(le, attempts, group, a)
  }

  lemma {:induction false} RanksCount(le: IdOrder, attempts: Attempts, group: set<string>, some: set<string>)
    requires TotalOrder(le) && group <= attempts.Keys && some <= group
    ensures |Ranks(le, attempts, group, some)| == |some|
  {
    var ranks := Ranks(le, attempts, group, some);
    if some == {} {
      assert ranks == {};
    } else {
      var a := Pick(some);
      RanksCount(le, attempts, group, some - {a});
      var rest := Ranks(le, attempts, group, some - {a});
      forall b | b in some - {a} ensures Rank(le, attempts, group, b) != Rank(le, attempts, group, a) {
        RanksDiffer(le, attempts, group, a, b);
      }
      assert ranks == rest + {Rank(le, attempts, group, a)};
    }
  }

  ghost function UpTo(n: nat): (s: set<nat>)
    ensures forall k: nat :: k in s <==> k < n
    ensures |s| == n
  {
    if n == 0 then {} else UpTo(n - 1) + {n - 1}
  }

  /** Every rank below the size of the partition occurs. */
  lemma EveryRankOccurs(le: IdOrder, attempts: Attempts, group: set<string>, k: nat)
    requires TotalOrder(le) && group <= attempts.Keys && k < |group|
    ensures exists a :: a in group && Rank(le, attempts, group, a) == k
  {
    var ranks, all := Ranks(le, attempts, group, group), UpTo(|group|);
    RanksCount(le, attempts, group, group);
    forall a | a in group ensures Rank(le, attempts, group, a) in all {
      RanksRise(le, attempts, group, a, a);
    }
    SubsetSize(ranks, all);
    assert k in ranks;
  }

  // ---------------------------------------------------------------- attempts

  predicate SameOrder(a: Attempts, b: Attempts) {
    a.Keys == b.Keys && forall x :: x in a ==>
      a[x].createdAt == b[x].createdAt && a[x].identity == b[x].identity && a[x].version == b[x].version
  }

  lemma SameOrderSameRank(le: IdOrder, a: Attempts, b: Attempts, group: set<string>, x: string)
    requires SameOrder(a, b) && x in a && group <= a.Keys
    ensures Rank(le, a, group, x) == Rank(le, b, group, x)
  {
    assert Earlier(le, a, group, x) == Earlier(le, b, group, x);
  }

  /** No attempt is lost, and nothing but identity, key, official flag and ordinal is touched. */
  lemma NothingLost(le: IdOrder, t: Tables, a: string)
    ensures FinalAttempts(le, t).Keys == t.attempts.Keys
    ensures a in t.attempts ==>
      var before, after := t.attempts[a], FinalAttempts(le, t)[a];
      && after == before.(identity := after.identity, key := after.key, official := after.official,
        ordinal := after.ordinal)
      && (after.key == before.key || after.key == Renamed(before.key, a))
  {
  }

  /** An attempt without a session keeps its identity. */
  lemma OthersStay(le: IdOrder, t: Tables, a: string)
    requires a in t.attempts && (t.attempts[a].session.None? || t.attempts[a].session.value !in t.sessions)
    ensures FinalAttempts(le, t)[a].identity == t.attempts[a].identity
  {
  }

  /** An attempt made in a session belongs to the identity that the session ends on. */
  lemma AttemptsFollowTheirSession(le: IdOrder, t: Tables, a: string)
    requires a in t.attempts && t.attempts[a].session.Some? && t.attempts[a].session.value in t.sessions
    ensures FinalAttempts(le, t)[a].identity == Some(Repaired(t.sessions)[t.attempts[a].session.value].identity)
  {
  }

  lemma OrdinalIsRank(le: IdOrder, t: Tables, a: string)
    requires a in FinalAttempts(le, t) && FinalAttempts(le, t)[a].identity.Some?
    ensures var last := FinalAttempts(le, t);
      && last[a].ordinal == Rank(le, last, Group(last, last[a].identity.value, last[a].version), a)
      && (last[a].official <==> last[a].ordinal == 0)
  {
    var keyed := Rekeyed(le, Rescoped(Repaired(t.sessions), t.attempts));
    var last := Reranked(le, keyed);
    hide Rekeyed, Repaired, Rescoped;
    var group := Group(last, last[a].identity.value, last[a].version);
    assert SameOrder(keyed, last);
    assert Group(keyed, last[a].identity.value, last[a].version) == group;
    SameOrderSameRank(le, keyed, last, group, a);
  }

  ghost predicate WellRanked(le: IdOrder, attempts: Attempts, group: set<string>)
    requires group <= attempts.Keys
  {
    && (forall a :: a in group ==>
      attempts[a].ordinal < |group| && (attempts[a].official <==> attempts[a].ordinal == 0))
    && (forall a, b :: a in group && b in group && Before(le, attempts, a, b) ==>
      attempts[a].ordinal < attempts[b].ordinal)
    && (forall k: nat :: k < |group| ==> Numbered(attempts, group, k))
  }

  predicate Numbered(attempts: Attempts, group: set<string>, k: nat)
    requires group <= attempts.Keys
  {
    exists a :: a in group && attempts[a].ordinal == k
  }

  /**
   * Every group of an identity and a version ends up ranked by time: ordinals 0 to n - 1, each
   * once, in the order of creation, and exactly the earliest attempt official.
   */
  lemma GroupsAreRanked(le: IdOrder, t: Tables, identity: string, version: string)
    requires TotalOrder(le)
    ensures WellRanked(le, FinalAttempts(le, t), Group(FinalAttempts(le, t), identity, version))
  {
    hide FinalAttempts, Rank, Before;
    var last := FinalAttempts(le, t);
    var group := Group(last, identity, version);
    forall a | a in group
      ensures last[a].ordinal == Rank(le, last, group, a) && (last[a].official <==> last[a].ordinal == 0)
      ensures last[a].ordinal < |group|
    {
      OrdinalIsRank(le, t, a);
      RanksRise(le, last, group, a, a);
    }
    forall a, b | a in group && b in group && Before(le, last, a, b) ensures last[a].ordinal < last[b].ordinal {
      RanksRise(le, last, group, a, b);
    }
    forall k: nat | k < |group| ensures Numbered(last, group, k) {
      EveryRankOccurs(le, last, group, k);
    }
  }

  // -------------------------------------------------------------------- keys

  /** An earlier attempt of the same identity on the same version has the same key. */
  predicate Repeats(le: IdOrder, attempts: Attempts, a: string)
    requires a in attempts
  {
    exists b :: b in attempts && SameGroup(attempts, a, b) && attempts[b].key == attempts[a].key
      && Before(le, attempts, b, a)
  }

  /** The key that a repeated key would be renamed to is taken already. */
  predicate Taken(le: IdOrder, attempts: Attempts, a: string, b: string) {
    SameGroup(attempts, a, b) && Repeats(le, attempts, a) && attempts[b].key == Renamed(attempts[a].key, a)
  }

  predicate PlainIds(attempts: Attempts) { forall a :: a in attempts ==> ':' !in a }

  lemma RenamedUnique(j: string, k: string, a: string, b: string)
    requires Renamed(j, a) == Renamed(k, b) && ':' !in a && ':' !in b
    ensures a == b && j == k
  {
    var s := Renamed(j, a);
    EndsAfterColon(s, j, a, k, b);
    EndsAfterColon(s, k, b, j, a);
    assert a == s[|s| - |a|..] && b == s[|s| - |b|..];
    assert j == s[..|s| - |a| - 10] && k == s[..|s| - |b| - 10];
  }

  lemma EndsAfterColon(s: string, j: string, a: string, k: string, b: string)
    requires s == Renamed(j, a) == Renamed(k, b) && ':' !in b
    ensures |b| <= |a|
  {
    assert s[|s| - |a| - 1] == ':';
    assert b == s[|s| - |b|..];
    assert forall i :: |s| - |b| <= i < |s| ==> s[i] == b[i - (|s| - |b|)];
  }

  lemma RekeyedIs(le: IdOrder, before: Attempts, a: string)
    requires TotalOrder(le) && a in before
    ensures Rekeyed(le, before)[a] ==
      if Repeats(le, before, a) then before[a].(key := Renamed(before[a].key, a)) else before[a]
  {
    var r := before[a];
    if r.identity.Some? {
      var earlier := Earlier(le, before, KeyGroup(before, r.identity.value, r.version, r.key), a);
      if Repeats(le, before, a) {
        var b :| b in before && SameGroup(before, a, b) && before[b].key == before[a].key && Before(le, before, b, a);
        assert b in earlier;
      }
      if earlier != {} {
        var b := Pick(earlier);
        assert SameGroup(before, a, b);
      }
    }
  }

  /** A key is renamed exactly when an earlier attempt has it. */
  lemma RenamedExactly(le: IdOrder, t: Tables, a: string)
    requires TotalOrder(le) && a in t.attempts
    ensures var before := Rehomed(t);
      FinalAttempts(le, t)[a].key == if Repeats(le, before, a) then Renamed(before[a].key, a) else before[a].key
  {
    RekeyedIs(le, Rehomed(t), a);
    hide Rekeyed, Repeats, Repaired;
  }

  /** The first with its key in its group, which keeps it. */
  predicate FirstWithKey(le: IdOrder, attempts: Attempts, b: string, c: string) {
    && b in attempts && c in attempts && !Repeats(le, attempts, c) && attempts[c].identity == attempts[b].identity
    && attempts[c].version == attempts[b].version && attempts[c].key == attempts[b].key
  }

  lemma SomeoneIsFirst(le: IdOrder, attempts: Attempts, b: string)
    requires TotalOrder(le) && b in attempts && attempts[b].identity.Some?
    ensures exists c :: FirstWithKey(le, attempts, b, c)
  {
    var group := KeyGroup(attempts, attempts[b].identity.value, attempts[b].version, attempts[b].key);
    assert b in group;
    assert |group| > 0;
    EveryRankOccurs(le, attempts, group, 0);
    var c :| c in group && Rank(le, attempts, group, c) == 0;
    var earlier := Earlier(le, attempts, group, c);
    assert earlier == {};
    forall d | d in attempts && SameGroup(attempts, c, d) && attempts[d].key == attempts[c].key
      ensures !Before(le, attempts, d, c)
    {
      assert d in group && d !in earlier;
    }
    assert FirstWithKey(le, attempts, b, c);
  }

  lemma OneOfficial(le: IdOrder, t: Tables, a: string, b: string)
    requires TotalOrder(le) && SameGroup(FinalAttempts(le, t), a, b)
    ensures !(FinalAttempts(le, t)[a].official && FinalAttempts(le, t)[b].official)
  {
    var last := FinalAttempts(le, t);
    hide FinalAttempts;
    var group := Group(last, last[a].identity.value, last[a].version);
    GroupsAreRanked(le, t, last[a].identity.value, last[a].version);
    assert a in group && b in group;
  }

  lemma SameGroupThroughout(le: IdOrder, t: Tables, a: string, b: string)
    ensures SameGroup(FinalAttempts(le, t), a, b) <==> SameGroup(Rehomed(t), a, b)
  {
  }

  /** The new indexes can be built exactly when no repeated key would be renamed to a key already there. */
  lemma IndexableExactly(le: IdOrder, t: Tables)
    requires TotalOrder(le) && PlainIds(t.attempts)
    ensures Indexable(FinalAttempts(le, t)) <==> forall a, b :: !Taken(le, Rehomed(t), a, b)
  {
    var before, last := Rehomed(t), FinalAttempts(le, t);
    forall a, b | a in last && b in last && SameGroup(last, a, b)
      ensures !(last[a].official && last[b].official)
      ensures last[a].key == last[b].key ==> Taken(le, before, a, b) || Taken(le, before, b, a)
    {
      OneOfficial(le, t, a, b);
      SameGroupThroughout(le, t, a, b);
      RenamedExactly(le, t, a);
      RenamedExactly(le, t, b);
      hide FinalAttempts;
      KeysClash(le, before, a, b);
    }
    if a, b :| Taken(le, before, a, b) {
      SomeoneIsFirst(le, before, b);
      var c :| FirstWithKey(le, before, b, c);
      RenamedExactly(le, t, a);
      RenamedExactly(le, t, c);
      assert |before[a].key| < |before[c].key|;
      SameGroupThroughout(le, t, a, c);
      assert SameGroup(last, a, c) && last[a].key == last[c].key;
    }
  }

  /** How two keys of a group can become the same. */
  lemma KeysClash(le: IdOrder, before: Attempts, a: string, b: string)
    requires TotalOrder(le) && SameGroup(before, a, b) && ':' !in a && ':' !in b
    ensures var x := if Repeats(le, before, a) then Renamed(before[a].key, a) else before[a].key;
      var y := if Repeats(le, before, b) then Renamed(before[b].key, b) else before[b].key;
      x == y ==> Taken(le, before, a, b) || Taken(le, before, b, a)
  {
    if Repeats(le, before, a) && Repeats(le, before, b) {
      if Renamed(before[a].key, a) == Renamed(before[b].key, b) {
        RenamedUnique(before[a].key, before[b].key, a, b);
      }
    } else if !Repeats(le, before, a) && !Repeats(le, before, b) {
      assert SameGroup(before, b, a);
    }
  }

  // ------------------------------------------------------------- row by row

  /** The order visits every row once. */
  ghost predicate Visits(order: seq<string>, attempts: Attempts) {
    Distinct(order) && forall a :: a in order <==> a in attempts
  }

  /** The rows visited so far have their new values. */
  function Mixed(before: Attempts, target: Attempts, done: seq<string>): Attempts {
    map a | a in before :: if a in done && a in target then target[a] else before[a]
  }

  predicate StepOk(before: Attempts, target: Attempts, order: seq<string>, k: nat)
    requires k < |order|
  {
    var a := order[k];
    a in target && a in before
      && (before[a] == target[a] || !ClashesAt(Mixed(before, target, order[..k]), a, target[a]))
  }

  lemma MixedStep(before: Attempts, target: Attempts, order: seq<string>, k: nat)
    requires before.Keys == target.Keys && k < |order| && order[k] in before && order[k] !in order[..k]
    ensures var now := Mixed(before, target, order[..k]);
      && (UpdateRow(now, target, order[k]).Ok? <==> StepOk(before, target, order, k))
      && (StepOk(before, target, order, k) ==>
        UpdateRow(now, target, order[k]).value == Mixed(before, target, order[..k + 1]))
  {
    var a, now, next := order[k], Mixed(before, target, order[..k]), Mixed(before, target, order[..k + 1]);
    assert order[..k + 1] == order[..k] + [a];
    assert now[a] == before[a] && next[a] == target[a];
    assert next == now[a := target[a]];
  }

  ghost predicate AllOk(before: Attempts, target: Attempts, order: seq<string>) {
    forall k :: 0 <= k < |order| ==> StepOk(before, target, order, k)
  }

  lemma AllOkStep(before: Attempts, target: Attempts, order: seq<string>)
    requires order != []
    ensures AllOk(before, target, order) <==>
      AllOk(before, target, order[..|order| - 1]) && StepOk(before, target, order, |order| - 1)
  {
    var rest := order[..|order| - 1];
    forall k | 0 <= k < |rest| ensures StepOk(before, target, rest, k) == StepOk(before, target, order, k) {
      assert rest[..k] == order[..k];
    }
  }

  lemma NothingMixed(before: Attempts, target: Attempts)
    ensures Mixed(before, target, []) == before && AllOk(before, target, [])
  {
  }

  /** An update succeeds exactly when no row clashes in its turn, and then every visited row has its new value. */
  lemma {:induction false} UpdateExactly(before: Attempts, target: Attempts, order: seq<string>)
    requires Distinct(order) && before.Keys == target.Keys && forall a :: a in order ==> a in before
    ensures Update(before, target, order).Ok? <==> AllOk(before, target, order)
    ensures Update(before, target, order).Ok? ==> Update(before, target, order).value == Mixed(before, target, order)
  {
    hide Mixed, UpdateRow, StepOk, AllOk;
    if order == [] {
      NothingMixed(before, target);
    } else {
      var last := |order| - 1;
      assert order[last] in order && order[last] !in order[..last];
      UpdateExactly(before, target, order[..last]);
      AllOkStep(before, target, order);
      MixedStep(before, target, order, last);
      assert order[..last + 1] == order;
    }
  }

  lemma VisitedAll(before: Attempts, target: Attempts, order: seq<string>)
    requires Visits(order, before) && before.Keys == target.Keys
    ensures Mixed(before, target, order) == target
  {
  }

  /** What the older schema enforces: attempts are made in stored sessions, and its indexes hold. */
  ghost predicate Enforced(t: Tables) {
    && (forall a :: a in t.attempts && t.attempts[a].session.Some? ==> t.attempts[a].session.value in t.sessions)
    && (forall a, b :: a in t.attempts && b in t.attempts && a != b ==> !SessionClash(t.attempts[a], t.attempts[b]))
  }

  predicate SameSession(attempts: Attempts, a: string, b: string) {
    && a in attempts && b in attempts && a != b && attempts[a].session.Some?
    && attempts[a].session == attempts[b].session && attempts[a].version == attempts[b].version
  }

  /** Attempts of one session are of one identity. */
  lemma SessionsAreInGroups(t: Tables, a: string, b: string)
    requires Enforced(t) && SameSession(Rehomed(t), a, b)
    ensures SameGroup(Rehomed(t), a, b)
    ensures Rehomed(t)[a].key != Rehomed(t)[b].key && !(Rehomed(t)[a].official && Rehomed(t)[b].official)
  {
    assert !SessionClash(t.attempts[a], t.attempts[b]);
    hide Repaired;
  }

  /** Without a taken key, renaming row by row meets no index of the older schema, in whatever order. */
  lemma RenamingSucceeds(le: IdOrder, t: Tables, order: seq<string>)
    requires TotalOrder(le) && PlainIds(t.attempts) && Enforced(t) && Visits(order, t.attempts)
    requires forall a, b :: !Taken(le, Rehomed(t), a, b)
    ensures Update(Rehomed(t), Rekeyed(le, Rehomed(t)), order) == Ok(Rekeyed(le, Rehomed(t)))
  {
    var before := Rehomed(t);
    var target := Rekeyed(le, before);
    forall k | 0 <= k < |order| ensures StepOk(before, target, order, k) {
      RenamingStep(le, t, order, k);
    }
    UpdateExactly(before, target, order);
    VisitedAll(before, target, order);
  }

  lemma RenamingStep(le: IdOrder, t: Tables, order: seq<string>, k: nat)
    requires TotalOrder(le) && PlainIds(t.attempts) && Enforced(t) && Visits(order, t.attempts) && k < |order|
    requires forall a, b :: !Taken(le, Rehomed(t), a, b)
    ensures StepOk(Rehomed(t), Rekeyed(le, Rehomed(t)), order, k)
  {
    var before, a := Rehomed(t), order[k];
    var target := Rekeyed(le, before);
    var now := Mixed(before, target, order[..k]);
    assert a in order;
    RekeyedIs(le, before, a);
    forall b | b in now && b != a && Repeats(le, before, a) ensures !SessionClash(now[b], target[a]) {
      RenamingClash(le, t, order[..k], a, b);
    }
    hide Rekeyed, Rehomed, Enforced, SessionClash, Repeats;
  }

  lemma RenamingClash(le: IdOrder, t: Tables, done: seq<string>, a: string, b: string)
    requires TotalOrder(le) && PlainIds(t.attempts) && Enforced(t) && a in t.attempts && b in t.attempts && a != b
    requires !Taken(le, Rehomed(t), a, b) && Repeats(le, Rehomed(t), a)
    ensures !SessionClash(Mixed(Rehomed(t), Rekeyed(le, Rehomed(t)), done)[b], Rekeyed(le, Rehomed(t))[a])
  {
    var before, target := Rehomed(t), Rekeyed(le, Rehomed(t));
    RekeyedIs(le, before, a);
    RekeyedIs(le, before, b);
    assert Mixed(before, target, done)[b] == if b in done then target[b] else before[b];
    hide Rekeyed, Rehomed, Mixed, Repeats, Renamed;
    if SameSession(before, a, b) {
      SessionsAreInGroups(t, a, b);
      if Repeats(le, before, b) && Renamed(before[a].key, a) == Renamed(before[b].key, b) {
        RenamedUnique(before[a].key, before[b].key, a, b);
      }
      hide Enforced;
    }
  }

  /** The earliest attempt of its group. */
  predicate IsFirst(le: IdOrder, attempts: Attempts, a: string) {
    a in attempts && attempts[a].identity.Some? && forall c :: c in attempts && SameGroup(attempts, a, c) ==>
      !Before(le, attempts, c, a)
  }

  lemma OfficialIsFirst(le: IdOrder, t: Tables, a: string)
    requires TotalOrder(le) && a in t.attempts && Rehomed(t)[a].identity.Some?
    ensures FinalAttempts(le, t)[a].official <==> IsFirst(le, Rehomed(t), a)
  {
    FinalSameOrder(le, t);
    OrdinalIsRank(le, t, a);
    hide FinalAttempts, Rehomed, Rank, IsFirst, Group;
    FirstHasRankZero(le, Rehomed(t), FinalAttempts(le, t), a);
  }

  lemma FinalSameOrder(le: IdOrder, t: Tables)
    ensures SameOrder(Rehomed(t), FinalAttempts(le, t)) && Rehomed(t).Keys == t.attempts.Keys
  {
    hide Repaired, Rank, Group, KeyGroup;
  }

  lemma FirstHasRankZero(le: IdOrder, before: Attempts, last: Attempts, a: string)
    requires SameOrder(before, last) && a in last && last[a].identity.Some?
    ensures Rank(le, last, Group(last, last[a].identity.value, last[a].version), a) == 0 <==> IsFirst(le, before, a)
  {
    var group := Group(last, last[a].identity.value, last[a].version);
    var earlier := Earlier(le, last, group, a);
    forall c ensures c in earlier <==> c in before && SameGroup(before, a, c) && Before(le, before, c, a) {
    }
    if |earlier| == 0 {
      assert earlier == {};
    } else {
      var c := Pick(earlier);
      assert SameGroup(before, a, c);
    }
  }

  /** The official flag has to move within a session, from a later attempt to the first of the group. */
  predicate Moves(le: IdOrder, attempts: Attempts, a: string, b: string) {
    SameSession(attempts, a, b) && IsFirst(le, attempts, a) && attempts[b].official
  }

  predicate Precedes(order: seq<string>, b: string, a: string) {
    exists i, j :: 0 <= i < j < |order| && order[i] == b && order[j] == a
  }

  /** In its turn a row clashes exactly when the flag has to move to it from a row whose turn is still to come. */
  lemma RankingStep(le: IdOrder, t: Tables, order: seq<string>, k: nat)
    requires TotalOrder(le) && PlainIds(t.attempts) && Enforced(t) && Visits(order, t.attempts) && k < |order|
    requires forall a, b :: !Taken(le, Rehomed(t), a, b)
    ensures StepOk(Rekeyed(le, Rehomed(t)), FinalAttempts(le, t), order, k) <==>
      forall b :: Moves(le, Rehomed(t), order[k], b) ==> b in order[..k]
  {
    var before, a := Rehomed(t), order[k];
    var keyed, last := Rekeyed(le, before), FinalAttempts(le, t);
    var now := Mixed(keyed, last, order[..k]);
    assert a in order && a !in order[..k];
    forall b | b in now && b != a
      ensures SessionClash(now[b], last[a]) <==> Moves(le, before, a, b) && b !in order[..k]
    {
      RankingClash(le, t, order[..k], a, b);
    }
    assert a in keyed && a in last && now.Keys == before.Keys;
    if b :| Moves(le, before, a, b) && b !in order[..k] {
      assert b in now && b != a;
      MovingRow(le, t, a, b);
      hide *;
      assert ClashesAt(now, a, last[a]) by { ClashWitness(now, a, last[a], b); }
      StepFails(keyed, last, order, k);
    } else {
      hide Rekeyed, FinalAttempts, Rehomed, SessionClash, Moves;
    }
  }

  lemma ClashWitness(attempts: Attempts, a: string, row: Attempt, b: string)
    requires b in attempts && b != a && SessionClash(attempts[b], row)
    ensures ClashesAt(attempts, a, row)
  {
  }

  lemma StepFails(before: Attempts, target: Attempts, order: seq<string>, k: nat)
    requires k < |order| && order[k] in before && order[k] in target && before[order[k]] != target[order[k]]
    requires ClashesAt(Mixed(before, target, order[..k]), order[k], target[order[k]])
    ensures !StepOk(before, target, order, k)
  {
  }

  /** The row that gets the flag is rewritten. */
  lemma MovingRow(le: IdOrder, t: Tables, a: string, b: string)
    requires TotalOrder(le) && Enforced(t) && Moves(le, Rehomed(t), a, b)
    ensures a in t.attempts && Rekeyed(le, Rehomed(t))[a] != FinalAttempts(le, t)[a]
  {
    RankedRow(le, t, a);
    SessionsAreInGroups(t, a, b);
    hide Rekeyed, FinalAttempts, Rehomed;
  }

  lemma RankedRow(le: IdOrder, t: Tables, a: string)
    requires TotalOrder(le) && a in t.attempts
    ensures var before, keyed, last := Rehomed(t)[a], Rekeyed(le, Rehomed(t))[a], FinalAttempts(le, t)[a];
      && keyed == before.(key := keyed.key) && last == keyed.(official := last.official, ordinal := last.ordinal)
      && last.key == (if Repeats(le, Rehomed(t), a) then Renamed(before.key, a) else before.key)
      && (before.identity.Some? ==> (last.official <==> IsFirst(le, Rehomed(t), a)))
  {
    if Rehomed(t)[a].identity.Some? {
      OfficialIsFirst(le, t, a);
    }
    RekeyedIs(le, Rehomed(t), a);
    RenamedExactly(le, t, a);
  }

  lemma RankingClash(le: IdOrder, t: Tables, done: seq<string>, a: string, b: string)
    requires TotalOrder(le) && PlainIds(t.attempts) && Enforced(t)
    requires forall x, y :: !Taken(le, Rehomed(t), x, y)
    requires a in t.attempts && b in t.attempts && a != b && a !in done
    ensures var row := Mixed(Rekeyed(le, Rehomed(t)), FinalAttempts(le, t), done)[b];
      SessionClash(row, FinalAttempts(le, t)[a]) <==> Moves(le, Rehomed(t), a, b) && b !in done
  {
    var before, keyed, last := Rehomed(t), Rekeyed(le, Rehomed(t)), FinalAttempts(le, t);
    RankedRow(le, t, a);
    RankedRow(le, t, b);
    assert Mixed(keyed, last, done)[b] == if b in done then last[b] else keyed[b];
    hide Rekeyed, FinalAttempts, Rehomed, Mixed, IsFirst, Repeats;
    if SameSession(before, a, b) {
      SessionsAreInGroups(t, a, b);
      SameGroupThroughout(le, t, a, b);
      OneOfficial(le, t, a, b);
      KeysClash(le, before, a, b);
      assert !Taken(le, before, a, b) && !Taken(le, before, b, a);
      hide Enforced, Taken, SameGroup;
    }
  }

  lemma BeforeMeansPrecedes(order: seq<string>, k: nat, b: string)
    requires Distinct(order) && k < |order|
    ensures b in order[..k] <==> Precedes(order, b, order[k])
  {
    if b in order[..k] {
      var i :| 0 <= i < k && order[i] == b;
    }
  }

  /**
   * Row by row, in the orders given, the migration succeeds exactly when no repeated key would be
   * renamed to a key already there, and whenever the official flag has to move within a session,
   * the row that loses it is visited before the row that gets it.
   */
  lemma MigrationSucceedsExactly(le: IdOrder, t: Tables, byKey: seq<string>, byRank: seq<string>)
    requires TotalOrder(le) && PlainIds(t.attempts) && Enforced(t)
    requires Visits(byKey, t.attempts) && Visits(byRank, t.attempts)
    ensures Migrated(le, t, byKey, byRank).Ok? <==>
      && (forall a, b :: !Taken(le, Rehomed(t), a, b))
      && (forall a, b :: Moves(le, Rehomed(t), a, b) ==> Precedes(byRank, b, a))
  {
    var before := Rehomed(t);
    var keyed, last := Rekeyed(le, before), FinalAttempts(le, t);
    MigratedIsFinal(le, t, byKey, byRank);
    IndexableExactly(le, t);
    if forall a, b :: !Taken(le, before, a, b) {
      RenamingSucceeds(le, t, byKey);
      RankingSucceedsExactly(le, t, byRank);
      hide Rekeyed, Reranked, Rehomed, Update, Taken, Moves, Precedes, Indexable, Used;
    }
  }

  lemma RankingSucceedsExactly(le: IdOrder, t: Tables, order: seq<string>)
    requires TotalOrder(le) && PlainIds(t.attempts) && Enforced(t) && Visits(order, t.attempts)
    requires forall a, b :: !Taken(le, Rehomed(t), a, b)
    ensures var r := Update(Rekeyed(le, Rehomed(t)), FinalAttempts(le, t), order);
      && (r.Ok? <==> forall a, b :: Moves(le, Rehomed(t), a, b) ==> Precedes(order, b, a))
      && (r.Ok? ==> r.value == FinalAttempts(le, t))
  {
    var before := Rehomed(t);
    var keyed, last := Rekeyed(le, before), FinalAttempts(le, t);
    UpdateExactly(keyed, last, order);
    VisitedAll(keyed, last, order);
    forall k | 0 <= k < |order|
      ensures StepOk(keyed, last, order, k) <==>
        forall b :: Moves(le, before, order[k], b) ==> Precedes(order, b, order[k])
    {
      RankingStep(le, t, order, k);
      hide Moves, StepOk, Precedes, Rehomed, Rekeyed, FinalAttempts;
      forall b ensures b in order[..k] <==> Precedes(order, b, order[k]) {
        BeforeMeansPrecedes(order, k, b);
      }
    }
    forall a, b | Moves(le, before, a, b) ensures a in order {
    }
    hide Moves, StepOk, Precedes, Update, Rehomed, Rekeyed, FinalAttempts;
  }

  /** If the migration returns, it leaves the final attempts. */
  lemma MigratedIsFinal(le: IdOrder, t: Tables, byKey: seq<string>, byRank: seq<string>)
    requires Visits(byKey, t.attempts) && Visits(byRank, t.attempts)
    ensures Migrated(le, t, byKey, byRank).Ok? ==>
      && Migrated(le, t, byKey, byRank).value.attempts == FinalAttempts(le, t) && Indexable(FinalAttempts(le, t))
      && Update(Rehomed(t), Rekeyed(le, Rehomed(t)), byKey) == Ok(Rekeyed(le, Rehomed(t)))
      && Update(Rekeyed(le, Rehomed(t)), FinalAttempts(le, t), byRank) == Ok(FinalAttempts(le, t))
  {
    var before := Rehomed(t);
    var keyed, last := Rekeyed(le, before), FinalAttempts(le, t);
    UpdateExactly(before, keyed, byKey);
    VisitedAll(before, keyed, byKey);
    UpdateExactly(keyed, last, byRank);
    VisitedAll(keyed, last, byRank);
    hide Update, Rekeyed, Reranked, Rehomed, Indexable, Used, StepOk, Mixed;
  }

  /**
   * The migration, when it succeeds, keeps every attempt: only identity, key, official flag and
   * ordinal change, and the identity becomes the one that the attempt's session ends on.
   */
  lemma MigrationKeepsAttempts(le: IdOrder, t: Tables, byKey: seq<string>, byRank: seq<string>)
    requires Visits(byKey, t.attempts) && Visits(byRank, t.attempts) && Migrated(le, t, byKey, byRank).Ok?
    ensures Migrated(le, t, byKey, byRank).value.attempts.Keys == t.attempts.Keys
    ensures forall a :: a in t.attempts ==> KeptAttempt(t, Migrated(le, t, byKey, byRank).value, a)
  {
    MigratedIsFinal(le, t, byKey, byRank);
    var after := Migrated(le, t, byKey, byRank).value;
    assert after.sessions == Repaired(t.sessions);
    hide Migrated, Repaired;
    NothingLost(le, t, "");
    forall a | a in t.attempts ensures KeptAttempt(t, after, a) {
      NothingLost(le, t, a);
      if t.attempts[a].session.Some? && t.attempts[a].session.value in t.sessions {
        AttemptsFollowTheirSession(le, t, a);
      } else {
        OthersStay(le, t, a);
      }
      hide FinalAttempts;
    }
  }

  /**
   * The attempts that come before it: of the same identity and version, created earlier, or at the
   * same time with a lesser id.
   */
  function Predecessors(le: IdOrder, attempts: Attempts, a: string): set<string>
    requires a in attempts
  {
    set c | c in attempts && c != a
      && attempts[c].identity == attempts[a].identity && attempts[c].version == attempts[a].version
      && (attempts[c].createdAt < attempts[a].createdAt || (attempts[c].createdAt == attempts[a].createdAt && le(c, a)))
  }

  /**
   * What becomes of an attempt. Its ordinal is the number of its predecessors, it is official
   * exactly if it has none, and its key stays unless a predecessor had the same; then the key is
   * its old one with the id behind it. An attempt of no guest stays as it was.
   */
  lemma MigratedAttempt(le: IdOrder, t: Tables, byKey: seq<string>, byRank: seq<string>, a: string)
    requires TotalOrder(le) && Visits(byKey, t.attempts) && Visits(byRank, t.attempts)
    requires Migrated(le, t, byKey, byRank).Ok? && a in t.attempts
    ensures var attempts := Migrated(le, t, byKey, byRank).value.attempts;
      && a in attempts
      && (attempts[a].identity.Some? ==>
            var earlier := Predecessors(le, attempts, a);
            && attempts[a].ordinal == |earlier| && (attempts[a].official <==> earlier == {})
            && attempts[a].key ==
              if exists c :: c in earlier && c in t.attempts && t.attempts[c].key == t.attempts[a].key
              then t.attempts[a].key + ":migrated:" + a else t.attempts[a].key)
      && (attempts[a].identity.None? ==> attempts[a] == t.attempts[a])
  {
    MigratedIsFinal(le, t, byKey, byRank);
    NothingLost(le, t, a);
    hide Migrated;
    if FinalAttempts(le, t)[a].identity.Some? {
      FinalRank(le, t, a);
      FinalKey(le, t, a);
    } else {
      NoGuestStays(le, t, a);
    }
  }

  lemma NoGuestStays(le: IdOrder, t: Tables, a: string)
    requires a in t.attempts && FinalAttempts(le, t)[a].identity.None?
    ensures FinalAttempts(le, t)[a] == t.attempts[a]
  {
  }

  lemma FinalRank(le: IdOrder, t: Tables, a: string)
    requires a in FinalAttempts(le, t) && FinalAttempts(le, t)[a].identity.Some?
    ensures var last := FinalAttempts(le, t);
      && last[a].ordinal == |Predecessors(le, last, a)|
      && (last[a].official <==> Predecessors(le, last, a) == {})
  {
    var last := FinalAttempts(le, t);
    OrdinalIsRank(le, t, a);
    hide FinalAttempts;
    var group := Group(last, last[a].identity.value, last[a].version);
    assert (set b | b in group && Before(le, last, b, a)) == Predecessors(le, last, a);
  }

  /** The same keys as at the start, the same times and groups as at the end. */
  ghost predicate Between(begin: Attempts, before: Attempts, last: Attempts) {
    && before.Keys == begin.Keys == last.Keys
    && forall c :: c in begin ==>
      && before[c].key == begin[c].key && before[c].createdAt == last[c].createdAt
      && before[c].identity == last[c].identity && before[c].version == last[c].version
  }

  lemma RehomedIsBetween(le: IdOrder, t: Tables)
    ensures Between(t.attempts, Rehomed(t), FinalAttempts(le, t))
  {
    var before := Rehomed(t);
    assert before.Keys == t.attempts.Keys && forall c :: c in before ==> before[c].key == t.attempts[c].key;
    hide Rehomed;
    RekeyedKeeps(le, before);
    RerankedKeeps(le, Rekeyed(le, before));
    hide Rekeyed, Reranked;
  }

  lemma RekeyedKeeps(le: IdOrder, attempts: Attempts)
    ensures var next := Rekeyed(le, attempts);
      next.Keys == attempts.Keys && forall c :: c in attempts ==> next[c] == attempts[c].(key := next[c].key)
  {
    hide Rank;
  }

  lemma RerankedKeeps(le: IdOrder, attempts: Attempts)
    ensures var next := Reranked(le, attempts);
      && next.Keys == attempts.Keys
      && forall c :: c in attempts ==>
        next[c] == attempts[c].(official := next[c].official, ordinal := next[c].ordinal)
  {
    hide Rank;
  }

  lemma RepeatsPredecessor(le: IdOrder, begin: Attempts, before: Attempts, last: Attempts, a: string)
    requires Between(begin, before, last) && a in begin && last[a].identity.Some?
    ensures Repeats(le, before, a)
      <==> exists c :: c in Predecessors(le, last, a) && c in begin && begin[c].key == begin[a].key
  {
    if Repeats(le, before, a) {
      var b :| b in before && SameGroup(before, a, b) && before[b].key == before[a].key && Before(le, before, b, a);
      assert b in Predecessors(le, last, a);
    }
    if c :| c in Predecessors(le, last, a) && c in begin && begin[c].key == begin[a].key {
      assert SameGroup(before, a, c) && Before(le, before, c, a);
    }
  }

  lemma FinalKey(le: IdOrder, t: Tables, a: string)
    requires TotalOrder(le) && a in t.attempts
    requires a in FinalAttempts(le, t) && FinalAttempts(le, t)[a].identity.Some?
    ensures var begin, last := t.attempts, FinalAttempts(le, t);
      last[a].key ==
        if exists c :: c in Predecessors(le, last, a) && c in begin && begin[c].key == begin[a].key
        then begin[a].key + ":migrated:" + a else begin[a].key
  {
    RenamedExactly(le, t, a);
    RehomedIsBetween(le, t);
    RepeatsPredecessor(le, t.attempts, Rehomed(t), FinalAttempts(le, t), a);
    hide FinalAttempts, Rehomed, Repeats, Predecessors;
  }

  /** The attempt is there as it was, on the identity of its session. */
  ghost predicate KeptAttempt(before: Tables, after: Tables, a: string)
    requires a in before.attempts
  {
    && a in after.attempts
    && var x, y := before.attempts[a], after.attempts[a];
    && y == x.(identity := y.identity, key := y.key, official := y.official, ordinal := y.ordinal)
    && (x.session.Some? && x.session.value in before.sessions ==>
          x.session.value in after.sessions && y.identity == Some(after.sessions[x.session.value].identity))
    && (x.session.None? || x.session.value !in before.sessions ==> y.identity == x.identity)
  }

  lemma {:induction false} Listing(s: set<string>) returns (order: seq<string>)
    ensures Distinct(order) && forall a :: a in order <==> a in s
  {
    if s == {} {
      order := [];
    } else {
      var a := Pick(s);
      var rest := Listing(s - {a});
      order := rest + [a];
    }
  }

  /**
   * Whatever order the database chooses, the migration succeeds: exactly without a taken key and
   * without a moving flag.
   */
  lemma MigrationAlwaysSucceedsExactly(le: IdOrder, t: Tables)
    requires TotalOrder(le) && PlainIds(t.attempts) && Enforced(t)
    ensures (forall byKey, byRank :: Visits(byKey, t.attempts) && Visits(byRank, t.attempts) ==>
      Migrated(le, t, byKey, byRank).Ok?) <==>
        forall a, b :: !Taken(le, Rehomed(t), a, b) && !Moves(le, Rehomed(t), a, b)
  {
    forall byKey, byRank | Visits(byKey, t.attempts) && Visits(byRank, t.attempts)
      ensures Migrated(le, t, byKey, byRank).Ok? <==>
        && (forall a, b :: !Taken(le, Rehomed(t), a, b))
        && (forall a, b :: Moves(le, Rehomed(t), a, b) ==> Precedes(byRank, b, a))
    {
      MigrationSucceedsExactly(le, t, byKey, byRank);
    }
    var any := Listing(t.attempts.Keys);
    assert Visits(any, t.attempts);
    if a, b :| Moves(le, Rehomed(t), a, b) {
      assert a in t.attempts && a != b;
      var order := WorstOrder(t.attempts, a, b);
      hide *;
      assert Migrated(le, t, any, order).Err?;
    } else {
      hide Migrated, Moves, Taken, Visits, Precedes, Rehomed;
    }
  }

  /** An order that visits this row first. */
  lemma WorstOrder(attempts: Attempts, a: string, b: string) returns (order: seq<string>)
    requires a in attempts && a != b
    ensures Visits(order, attempts) && !Precedes(order, b, a)
  {
    var rest := Listing(attempts.Keys - {a});
    order := [a] + rest;
  }

  // ---------------------------------------------------------- failing inputs

  predicate KeyChar(c: char) {
    'A' <= c <= 'Z' || 'a' <= c <= 'z' || '0' <= c <= '9' || c == '.' || c == '_' || c == ':' || c == '-'
  }

  /** The keys that `createAttempt` accepts (src/application/public-api.ts:225). */
  predicate AcceptedKey(key: string) { 16 <= |key| <= 256 && forall i :: 0 <= i < |key| ==> KeyChar(key[i]) }

  const KEY: string := "0123456789abcdef"
  const OTHER_KEY: string := "fedcba9876543210"

  lemma KeysAreAccepted()
    ensures AcceptedKey(KEY) && AcceptedKey(OTHER_KEY) && AcceptedKey(Renamed(KEY, "a2")) && KEY != OTHER_KEY
  {
  }

  /** Two sessions of one chain, and three attempts: the second repeats a key, the third has the key it would get. */
  predicate ClashingTables(t: Tables) {
    && t.sessions == map["s1" := Session("i", None), "s2" := Session("j", Some("s1"))]
    && t.attempts == map[
      "a1" := Attempt(Some("s1"), Some("i"), "v", KEY, true, 0, 1, ""),
      "a2" := Attempt(Some("s2"), Some("j"), "v", KEY, true, 0, 2, ""),
      "a3" := Attempt(Some("s2"), Some("j"), "v", Renamed(KEY, "a2"), false, 1, 3, "")]
  }

  predicate ClashingAttempts(attempts: Attempts) {
    && "a1" in attempts && attempts["a1"] == Attempt(Some("s1"), Some("i"), "v", KEY, true, 0, 1, "")
    && "a2" in attempts && attempts["a2"] == Attempt(Some("s2"), Some("i"), "v", KEY, true, 0, 2, "")
    && "a3" in attempts && attempts["a3"] == Attempt(Some("s2"), Some("i"), "v", Renamed(KEY, "a2"), false, 1, 3, "")
  }

  lemma ClashingTablesRehomed(t: Tables)
    requires ClashingTables(t)
    ensures ClashingAttempts(Rehomed(t))
  {
    assert AtDepth(t.sessions, "s1", 0) && AtDepth(t.sessions, "s2", 1);
    SessionsFollowTheirRoot(t.sessions, "s1", 0);
    SessionsFollowTheirRoot(t.sessions, "s2", 1);
    hide Repaired, AtDepth;
  }

  lemma ClashingAttemptsClash(le: IdOrder, attempts: Attempts)
    requires ClashingAttempts(attempts)
    ensures Taken(le, attempts, "a2", "a3")
  {
    assert SameGroup(attempts, "a2", "a1") && Before(le, attempts, "a1", "a2");
  }

  /** A client that had sent a key of the renamed form makes the migration fail, whatever the orders. */
  lemma ClashingKeys(le: IdOrder, t: Tables, byKey: seq<string>, byRank: seq<string>)
    requires TotalOrder(le) && ClashingTables(t) && Visits(byKey, t.attempts) && Visits(byRank, t.attempts)
    ensures forall a :: a in t.attempts ==> AcceptedKey(t.attempts[a].key)
    ensures Enforced(t) && Migrated(le, t, byKey, byRank).Err?
  {
    ClashingTablesAreLegal(t);
    hide *;
    ClashingTablesRehomed(t);
    ClashingAttemptsClash(le, Rehomed(t));
    MigrationSucceedsExactly(le, t, byKey, byRank);
  }

  lemma ClashingTablesAreLegal(t: Tables)
    requires ClashingTables(t)
    ensures PlainIds(t.attempts) && Enforced(t)
    ensures forall a :: a in t.attempts ==> AcceptedKey(t.attempts[a].key)
  {
    KeysAreAccepted();
    hide AcceptedKey;
  }

  /** One session with an official and a practice attempt of the same millisecond, the practice one first by id. */
  predicate TiedTables(t: Tables) {
    && t.sessions == map["s" := Session("i", None)]
    && t.attempts == map[
      "a1" := Attempt(Some("s"), Some("i"), "v", KEY, false, 1, 5, ""),
      "a2" := Attempt(Some("s"), Some("i"), "v", OTHER_KEY, true, 0, 5, "")]
  }

  lemma TiedTablesRehomed(t: Tables)
    requires t.sessions == map["s" := Session("i", None)]
    requires t.attempts == map[
      "a1" := Attempt(Some("s"), Some("i"), "v", KEY, false, 1, 5, ""),
      "a2" := Attempt(Some("s"), Some("i"), "v", OTHER_KEY, true, 0, 5, "")]
    ensures Rehomed(t) == t.attempts
  {
    assert AtDepth(t.sessions, "s", 0);
    SessionsFollowTheirRoot(t.sessions, "s", 0);
    hide Repaired, AtDepth;
  }

  lemma TiedFlagMoves(le: IdOrder, attempts: Attempts)
    requires TotalOrder(le) && le("a1", "a2")
    requires attempts == map[
      "a1" := Attempt(Some("s"), Some("i"), "v", KEY, false, 1, 5, ""),
      "a2" := Attempt(Some("s"), Some("i"), "v", OTHER_KEY, true, 0, 5, "")]
    ensures forall a, b :: !Taken(le, attempts, a, b)
    ensures forall a, b :: Moves(le, attempts, a, b) <==> a == "a1" && b == "a2"
  {
    KeysAreAccepted();
    hide Renamed;
    assert !Before(le, attempts, "a2", "a1") && Before(le, attempts, "a1", "a2");
    assert SameGroup(attempts, "a2", "a1");
  }

  /** The same tables migrate in one order and fail in the other. */
  lemma OrderDecides(le: IdOrder, t: Tables)
    requires TotalOrder(le) && le("a1", "a2") && TiedTables(t)
    ensures forall a :: a in t.attempts ==> AcceptedKey(t.attempts[a].key)
    ensures Enforced(t)
    ensures Migrated(le, t, ["a1", "a2"], ["a1", "a2"]).Err?
    ensures Migrated(le, t, ["a1", "a2"], ["a2", "a1"]).Ok?
  {
    TiedTablesAreLegal(t);
    hide TiedTables, PlainIds, Enforced, AcceptedKey;
    var up, down := ["a1", "a2"], ["a2", "a1"];
    TwoOrders(t.attempts);
    TiedTablesRehomed(t);
    TiedFlagMoves(le, t.attempts);
    hide *;
    MigrationSucceedsExactly(le, t, up, up);
    MigrationSucceedsExactly(le, t, up, down);
  }

  lemma TiedTablesAreLegal(t: Tables)
    requires TiedTables(t)
    ensures PlainIds(t.attempts) && Enforced(t) && t.attempts.Keys == {"a1", "a2"}
    ensures t.sessions == map["s" := Session("i", None)]
    ensures t.attempts == map[
      "a1" := Attempt(Some("s"), Some("i"), "v", KEY, false, 1, 5, ""),
      "a2" := Attempt(Some("s"), Some("i"), "v", OTHER_KEY, true, 0, 5, "")]
    ensures forall a :: a in t.attempts ==> AcceptedKey(t.attempts[a].key)
  {
    KeysAreAccepted();
    hide AcceptedKey;
  }

  lemma TwoOrders(attempts: Attempts)
    requires attempts.Keys == {"a1", "a2"}
    ensures Visits(["a1", "a2"], attempts) && Visits(["a2", "a1"], attempts)
    ensures !Precedes(["a1", "a2"], "a2", "a1") && Precedes(["a2", "a1"], "a2", "a1")
  {
    var down := ["a2", "a1"];
    assert down[0] == "a2" && down[1] == "a1";
  }

  // -------------------------------------------------------------- identities

  /** Deleting unused identities breaks no reference. */
  lemma ReferencesStay(le: IdOrder, t: Tables, byKey: seq<string>, byRank: seq<string>)
    requires Visits(byKey, t.attempts) && Visits(byRank, t.attempts) && Migrated(le, t, byKey, byRank).Ok?
    requires forall s :: s in t.sessions ==> t.sessions[s].identity in t.identities
    requires forall a :: a in t.attempts && t.attempts[a].identity.Some? ==>
      t.attempts[a].identity.value in t.identities
    ensures var after := Migrated(le, t, byKey, byRank).value;
      && (forall s :: s in after.sessions ==> after.sessions[s].identity in after.identities)
      && (forall a :: a in after.attempts && after.attempts[a].identity.Some? ==>
        after.attempts[a].identity.value in after.identities)
      && (forall i :: i in after.identities ==> i in t.identities)
      && (forall i :: i in t.identities ==> (i in after.identities <==>
            || (exists s :: s in after.sessions && after.sessions[s].identity == i)
            || (exists a :: a in after.attempts && after.attempts[a].identity == Some(i))))
  {
    var after := Migrated(le, t, byKey, byRank).value;
    MigratedIsFinal(le, t, byKey, byRank);
    forall s | s in after.sessions ensures after.sessions[s].identity in t.identities {
      if Rooted(t.sessions, s) {
        var n: nat :| AtDepth(t.sessions, s, n) && RootOf(t.sessions, s) == RootIdentity(t.sessions, s, n);
        RootIdentityKnown(t.sessions, t.identities, s, n);
      }
    }
    forall a | a in after.attempts && after.attempts[a].identity.Some?
      ensures after.attempts[a].identity.value in t.identities
    {
      NothingLost(le, t, a);
    }
  }

  lemma {:induction false} RootIdentityKnown(sessions: Sessions, identities: set<string>, id: string, n: nat)
    requires AtDepth(sessions, id, n) && forall s :: s in sessions ==> sessions[s].identity in identities
    ensures RootIdentity(sessions, id, n) in identities
    decreases n
  {
    if n > 0 {
      RootIdentityKnown(sessions, identities, sessions[id].rotationOf.value, n - 1);
    }
  }
}
