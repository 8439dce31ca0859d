/**
 * What the operations of the lifecycle do to the rows, told by the rows alone: which slots,
 * versions, spots and attempts change, to what, and what that means for whole runs.
 */
module LifecycleEffects {
  import opened Common
  import opened Sorting
  import opened Lifecycle
  import opened LifecycleTheorems

  // ------------------------------------------------------- changes of rows

  /** One version takes a status; no other version changes. */
  ghost predicate Takes(before: map<string, Version>, after: map<string, Version>, v: string, status: VersionStatus) {
    && v in before && after.Keys == before.Keys
    && after[v] == Version(before[v].spotId, status)
    && forall u :: u in before && u != v ==> after[u] == before[u]
  }

  /** The attempts valid on a version are invalid and name their replacement; no other attempt changes. */
  ghost predicate Revoked(
      before: map<string, AttemptRow>, after: map<string, AttemptRow>, v: string, replacement: Option<string>) {
    && after.Keys == before.Keys
    && forall a :: a in before ==>
      if before[a].versionId == v && before[a].valid
      then after[a].versionId == v && !after[a].valid && after[a].replacement == replacement
      else after[a] == before[a]
  }

  /** A slot that takes up its place on the calendar: scheduled, held or published. */
  predicate Occupies(s: Slot) { s.status != SlotCancelled }

  predicate PlaceTaken(slots: seq<Slot>, date: int, order: int, v: string) {
    exists i :: 0 <= i < |slots| && Occupies(slots[i])
      && (slots[i].versionId == v || (slots[i].date == date && slots[i].order == order))
  }

  /** The spot shows the version and has the status; no other spot changes. */
  ghost predicate Shows(before: map<string, Spot>, after: map<string, Spot>, x: string, v: string, status: SpotStatus) {
    && x in before && after.Keys == before.Keys
    && after[x].status == status && after[x].current == Some(v)
    && forall y :: y in before && y != x ==> after[y] == before[y]
  }

  /** A spot that showed the version is archived and shows none; no other spot changes. */
  ghost predicate Withdrawn(before: map<string, Spot>, after: map<string, Spot>, x: string, v: string) {
    && after.Keys == before.Keys
    && forall y :: y in before ==>
      if y == x && before[y].current == Some(v)
      then after[y].status == SpotArchived && after[y].current == None
      else after[y] == before[y]
  }

  // --------------------------------------------- one version at a time

  /** Importing a known version changes nothing; a new one arrives validated, under a spot that may be new. */
  lemma ImportRows(db: Db, v: string, spotId: string)
    ensures Import(db, v, spotId).Ok?
    ensures var next := Import(db, v, spotId).value;
      && next.slots == db.slots && next.attempts == db.attempts
      && (v in db.versions ==> next == db)
      && (v !in db.versions ==>
            && next.versions == db.versions[v := Version(spotId, Validated)]
            && (if spotId in db.spots then next.spots == db.spots
                else next.spots == db.spots[spotId := Spot(SpotDraft, None)]))
  {
  }

  /** Approval takes a validated or a scheduled version, and its spot then shows it. */
  lemma ApproveRows(db: Db, v: string)
    ensures Approve(db, v).Ok? <==>
      && v in db.versions && (db.versions[v].status == Validated || db.versions[v].status == Scheduled)
      && db.versions[v].spotId in db.spots
      && forall x :: x in db.spots && db.spots[x].current == Some(v) ==> x == db.versions[v].spotId
    ensures Approve(db, v).Ok? ==>
      var next := Approve(db, v).value;
      && next.slots == db.slots && next.attempts == db.attempts
      && Takes(db.versions, next.versions, v, Approved)
      && Shows(db.spots, next.spots, db.versions[v].spotId, v, SpotApproved)
  {
  }

  /** Scheduling takes an approved version and a place that nothing takes up. */
  lemma ScheduleRows(db: Db, v: string, date: int, order: int)
    ensures Schedule(db, v, date, order).Ok? <==>
      && order >= 1 && v in db.versions && db.versions[v].status == Approved
      && !PlaceTaken(db.slots, date, order, v)
    ensures Schedule(db, v, date, order).Ok? ==>
      var next := Schedule(db, v, date, order).value;
      && next.slots == db.slots + [Slot(date, order, v, SlotScheduled)]
      && next.spots == db.spots && next.attempts == db.attempts
      && Takes(db.versions, next.versions, v, Scheduled)
  {
    assert SlotClash(db, date, order, v) <==> PlaceTaken(db.slots, date, order, v) by {
      assert forall i :: 0 <= i < |db.slots| ==> (IsActive(db, i) <==> Occupies(db.slots[i]));
    }
  }

  /** A hold rejects a version that is not on the calendar yet. */
  lemma HoldRows(db: Db, v: string)
    ensures Hold(db, v).Ok? <==>
      v in db.versions && db.versions[v].status != Scheduled && db.versions[v].status != Published
        && db.versions[v].status != Rejected && db.versions[v].status != Superseded
    ensures Hold(db, v).Ok? ==>
      var next := Hold(db, v).value;
      && next.slots == db.slots && next.spots == db.spots && next.attempts == db.attempts
      && Takes(db.versions, next.versions, v, Rejected)
  {
  }

  /** A submission is stored, valid, exactly on a published version under a new id. */
  lemma SubmitRows(db: Db, id: string, v: string)
    ensures Submit(db, id, v).Ok? <==> v in db.versions && db.versions[v].status == Published && id !in db.attempts
    ensures Submit(db, id, v).Ok? ==>
      var next := Submit(db, id, v).value;
      && next.slots == db.slots && next.spots == db.spots && next.versions == db.versions
      && next.attempts == db.attempts[id := AttemptRow(v, true, None)]
  {
  }

  // ------------------------------------------- replacement and quarantine

  /** The slot is one of the version's that take up a place, and none of these is on a later date. */
  predicate LatestSlot(slots: seq<Slot>, v: string, i: nat) {
    && i < |slots| && slots[i].versionId == v && Occupies(slots[i])
    && forall j :: 0 <= j < |slots| && slots[j].versionId == v && Occupies(slots[j]) ==> slots[j].date <= slots[i].date
  }

  /** The slot of the version is cancelled, and the next version is scheduled in its place. */
  ghost predicate Reseated(before: seq<Slot>, after: seq<Slot>, prev: string, next: string) {
    exists i: nat :: LatestSlot(before, prev, i)
      && after == before[i := before[i].(status := SlotCancelled)]
        + [Slot(before[i].date, before[i].order, next, SlotScheduled)]
  }

  lemma FoundIsLatest(db: Db, v: string)
    requires FindActive(db, v, |db.slots|).Some?
    ensures LatestSlot(db.slots, v, FindActive(db, v, |db.slots|).value)
  {
    var i := FindActive(db, v, |db.slots|).value;
    forall j: nat | j < |db.slots| && db.slots[j].versionId == v && Occupies(db.slots[j])
      ensures db.slots[j].date <= db.slots[i].date
    {
      assert ActiveFor(db, v, j);
    }
  }

  lemma ReplaceSlots(db: Db, prev: string, next: string, invalidate: bool)
    requires Replace(db, prev, next, invalidate).Ok?
    ensures Reseated(db.slots, Replace(db, prev, next, invalidate).value.slots, prev, next)
  {
    FoundIsLatest(db, prev);
  }

  lemma ReplaceVersionRows(db: Db, prev: string, next: string, invalidate: bool)
    requires Replace(db, prev, next, invalidate).Ok?
    ensures var after := Replace(db, prev, next, invalidate).value;
      exists mid :: Takes(db.versions, mid, prev, Superseded) && Takes(mid, after.versions, next, Scheduled)
  {
    ReplaceVersions(db, prev, next, invalidate);
    hide Replace;
    assert Takes(db.versions, SetStatus(db, prev, Superseded).versions, prev, Superseded);
  }

  lemma ReplaceSpots(db: Db, prev: string, next: string, invalidate: bool)
    requires Replace(db, prev, next, invalidate).Ok?
    ensures var after := Replace(db, prev, next, invalidate).value;
      if db.versions[prev].spotId == db.versions[next].spotId then after.spots == db.spots
      else Withdrawn(db.spots, after.spots, db.versions[prev].spotId, prev)
  {
    hide FindActive, SlotClash;
  }

  lemma ReplaceAttempts(db: Db, prev: string, next: string, invalidate: bool)
    requires Replace(db, prev, next, invalidate).Ok?
    ensures var after := Replace(db, prev, next, invalidate).value;
      if invalidate then Revoked(db.attempts, after.attempts, prev, Some(next)) else after.attempts == db.attempts
  {
    hide FindActive, SlotClash;
  }

  /**
   * A replacement cancels the old version's slot and schedules the new version in its place. The
   * attempts valid on the old version become invalid and name the new one if that was asked for;
   * otherwise no attempt changes.
   */
  lemma ReplaceRows(db: Db, prev: string, next: string, invalidate: bool)
    requires Replace(db, prev, next, invalidate).Ok?
    ensures var after := Replace(db, prev, next, invalidate).value;
      && Reseated(db.slots, after.slots, prev, next)
      && (exists mid :: Takes(db.versions, mid, prev, Superseded) && Takes(mid, after.versions, next, Scheduled))
      && (if db.versions[prev].spotId == db.versions[next].spotId then after.spots == db.spots
          else Withdrawn(db.spots, after.spots, db.versions[prev].spotId, prev))
      && (if invalidate then Revoked(db.attempts, after.attempts, prev, Some(next)) else after.attempts == db.attempts)
  {
    ReplaceSlots(db, prev, next, invalidate);
    ReplaceVersionRows(db, prev, next, invalidate);
    ReplaceSpots(db, prev, next, invalidate);
    ReplaceAttempts(db, prev, next, invalidate);
    hide Replace, Reseated, Takes, Withdrawn, Revoked;
  }

  /**
   * A quarantine cancels every slot of the version, takes the version off its spot, and leaves no
   * attempt on it valid.
   */
  lemma QuarantineRows(db: Db, v: string)
    requires Quarantine(db, v, false).Ok?
    ensures var after := Quarantine(db, v, false).value;
      && |after.slots| == |db.slots|
      && (forall i :: 0 <= i < |db.slots| ==>
            after.slots[i] == if db.slots[i].versionId == v then db.slots[i].(status := SlotCancelled) else db.slots[i])
      && Takes(db.versions, after.versions, v, Superseded)
      && Withdrawn(db.spots, after.spots, db.versions[v].spotId, v)
      && Revoked(db.attempts, after.attempts, v, None)
  {
  }

  // ------------------------------------------------------ a day's publication

  /** The slot is still to be published on that day. */
  predicate Awaits(s: Slot, date: int) { s.date == date && s.status == SlotScheduled }

  function SpotOf(db: Db, i: nat): Option<string>
    requires i < |db.slots|
  {
    var v := db.slots[i].versionId;
    if v in db.versions then Some(db.versions[v].spotId) else None
  }

  /** Publication moves versions to no other spot and slots to no other version. */
  ghost predicate SamePlaces(db: Db, next: Db) {
    && next.versions.Keys == db.versions.Keys && |next.slots| == |db.slots|
    && (forall v :: v in db.versions ==> next.versions[v].spotId == db.versions[v].spotId)
    && (forall i :: 0 <= i < |db.slots| ==> next.slots[i].versionId == db.slots[i].versionId)
  }

  /** Among the listed slots the `k`-th is the last of its spot, and the spot shows its version. */
  ghost predicate LastIsShown(db: Db, spots: map<string, Spot>, ids: seq<nat>, k: nat, x: string)
    requires k < |ids| && forall l :: 0 <= l < |ids| ==> ids[l] < |db.slots|
  {
    SpotOf(db, ids[k]) == Some(x) && (forall l :: k < l < |ids| ==> SpotOf(db, ids[l]) != Some(x)) ==>
      x in spots && spots[x].status == SpotPublished && spots[x].current == Some(db.slots[ids[k]].versionId)
  }

  /** Each spot shows the last listed version of its own, and a spot without one is as it was. */
  ghost predicate ShowsLast(db: Db, spots: map<string, Spot>, ids: seq<nat>)
    requires forall k :: 0 <= k < |ids| ==> ids[k] < |db.slots|
  {
    && spots.Keys == db.spots.Keys
    && (forall k, x :: 0 <= k < |ids| ==> LastIsShown(db, spots, ids, k, x))
    && (forall x :: x in spots ==> SpotIsListed(db, ids, x) || spots[x] == db.spots[x])
  }

  predicate SpotIsListed(db: Db, ids: seq<nat>, x: string)
    requires forall k :: 0 <= k < |ids| ==> ids[k] < |db.slots|
  {
    exists k :: 0 <= k < |ids| && SpotOf(db, ids[k]) == Some(x)
  }

  lemma PublishOneShows(db: Db, i: nat)
    requires i < |db.slots| && PublishOne(db, i).Ok?
    ensures var next, v := PublishOne(db, i).value, db.slots[i].versionId;
      && SamePlaces(db, next) && v in db.versions
      && Shows(db.spots, next.spots, db.versions[v].spotId, v, SpotPublished)
  {
  }

  lemma ShowsOneMore(db: Db, before: map<string, Spot>, after: map<string, Spot>, rest: seq<nat>, i: nat)
    requires i < |db.slots| && forall k :: 0 <= k < |rest| ==> rest[k] < |db.slots|
    requires db.slots[i].versionId in db.versions && ShowsLast(db, before, rest)
    requires Shows(before, after, db.versions[db.slots[i].versionId].spotId, db.slots[i].versionId, SpotPublished)
    ensures ShowsLast(db, after, rest + [i])
  {
    var ids := rest + [i];
    forall k, x | 0 <= k < |ids| ensures LastIsShown(db, after, ids, k, x) {
      if k < |rest| {
        assert LastIsShown(db, before, rest, k, x);
        assert forall l :: 0 <= l < |rest| ==> ids[l] == rest[l];
        assert ids[|rest|] == i;
      }
    }
    forall x | x in after ensures SpotIsListed(db, ids, x) || after[x] == db.spots[x] {
      if SpotIsListed(db, rest, x) {
        var k :| 0 <= k < |rest| && SpotOf(db, rest[k]) == Some(x);
        assert ids[k] == rest[k];
      }
      assert ids[|rest|] == i;
    }
  }

  lemma {:induction false} PublishAllShows(db: Db, ids: seq<nat>)
    requires forall k :: 0 <= k < |ids| ==> ids[k] < |db.slots|
    requires PublishAll(db, ids).Ok?
    ensures SamePlaces(db, PublishAll(db, ids).value) && ShowsLast(db, PublishAll(db, ids).value.spots, ids)
    decreases |ids|
  {
    if ids != [] {
      var last := |ids| - 1;
      var rest, i := ids[..last], ids[last];
      PublishAllShows(db, rest);
      var db1 := PublishAll(db, rest).value;
      PublishOneShows(db1, i);
      hide PublishOne, ShowsLast;
      ShowsOneMore(db, db1.spots, PublishOne(db1, i).value.spots, rest, i);
      assert rest + [i] == ids;
    }
  }

  /** The slots of a day are taken in slot order. */
  lemma DueInOrder(db: Db, date: int)
    ensures var ids := Due(db, date);
      && (forall i: nat :: i in ids <==> i < |db.slots| && Awaits(db.slots[i], date))
      && (forall k, l :: 0 <= k < l < |ids| ==> db.slots[ids[k]].order <= db.slots[ids[l]].order)
  {
    var le := SlotLe(db);
    assert forall i: nat, j: nat :: le(i, j) == SlotBefore(db, i, j);
    SortSorted(le, DueIds(db, date, |db.slots|));
    var ids := Due(db, date);
    forall k, l | 0 <= k < l < |ids| ensures db.slots[ids[k]].order <= db.slots[ids[l]].order {
      assert le(ids[k], ids[l]);
    }
  }

  /** The slot that a spot will show: its version belongs to the spot, and no later one of the day does. */
  predicate ShownAfter(db: Db, date: int, x: string, i: nat) {
    && i < |db.slots| && Awaits(db.slots[i], date) && SpotOf(db, i) == Some(x)
    && forall j :: 0 <= j < |db.slots| && Awaits(db.slots[j], date) && SpotOf(db, j) == Some(x) ==>
      db.slots[j].order <= db.slots[i].order
  }

  predicate SpotAwaits(db: Db, date: int, x: string) {
    exists i :: 0 <= i < |db.slots| && Awaits(db.slots[i], date) && SpotOf(db, i) == Some(x)
  }

  lemma LastOfItsSpot(db: Db, date: int, x: string, i: nat, k: nat, l: nat)
    requires Inv(db) && ShownAfter(db, date, x, i)
    requires k < l < |Due(db, date)| && Due(db, date)[k] == i
    ensures SpotOf(db, Due(db, date)[l]) != Some(x)
  {
    DueInOrder(db, date);
    var j := Due(db, date)[l];
    assert j in Due(db, date);
    assert Apart(db, i, j);
  }

  /** The versions whose slots await publication on that day. */
  function Awaited(db: Db, date: int): set<string> {
    set i | 0 <= i < |db.slots| && Awaits(db.slots[i], date) :: db.slots[i].versionId
  }

  lemma AwaitedIsDue(db: Db, date: int)
    ensures VersionsOf(db, Due(db, date)) == Awaited(db, date)
  {
    DueInOrder(db, date);
    hide Due, Awaits;
    var ids := Due(db, date);
    forall v ensures v in VersionsOf(db, ids) <==> v in Awaited(db, date) {
      if v in VersionsOf(db, ids) {
        var k :| 0 <= k < |ids| && v == db.slots[ids[k]].versionId;
        assert ids[k] in ids;
      }
      if v in Awaited(db, date) {
        var i :| 0 <= i < |db.slots| && Awaits(db.slots[i], date) && db.slots[i].versionId == v;
        assert i in ids;
      }
    }
  }

  ghost predicate SlotPublishes(db: Db, after: Db, date: int, i: nat)
    requires i < |db.slots| && |after.slots| == |db.slots|
  {
    after.slots[i] == if Awaits(db.slots[i], date) then db.slots[i].(status := SlotPublished) else db.slots[i]
  }

  ghost predicate VersionPublishes(db: Db, after: Db, date: int, v: string)
    requires v in db.versions && v in after.versions
  {
    after.versions[v] ==
      if v in Awaited(db, date) then Version(db.versions[v].spotId, Published) else db.versions[v]
  }

  /** A spot shows its version that is last in slot order among those of the day; one without stays. */
  ghost predicate SpotPublishes(db: Db, after: Db, date: int, x: string)
    requires x in db.spots && x in after.spots
  {
    && (forall i: nat :: ShownAfter(db, date, x, i) ==>
          after.spots[x].status == SpotPublished && after.spots[x].current == Some(db.slots[i].versionId))
    && (!SpotAwaits(db, date, x) ==> after.spots[x] == db.spots[x])
  }

  /**
   * A day's publication turns its scheduled slots into published ones, with their versions; each
   * spot then shows its version that is last in slot order. Nothing else changes.
   */
  lemma PublishRows(db: Db, date: int)
    requires Inv(db) && Publish(db, date).Ok?
    ensures var after := Publish(db, date).value;
      && |after.slots| == |db.slots| && after.versions.Keys == db.versions.Keys && after.spots.Keys == db.spots.Keys
      && (forall i :: 0 <= i < |db.slots| ==> SlotPublishes(db, after, date, i))
      && (forall v :: v in db.versions ==> VersionPublishes(db, after, date, v))
      && (forall x :: x in db.spots ==> SpotPublishes(db, after, date, x))
      && after.attempts == db.attempts
  {
    PublishLaws(db, date);
    DueInOrder(db, date);
    AwaitedIsDue(db, date);
    PublishAllShows(db, Due(db, date));
    var after := Publish(db, date).value;
    forall x | x in db.spots ensures SpotPublishes(db, after, date, x) {
      SpotRow(db, date, after, x);
    }
    hide Publish, PublishAll, Inv, Awaits, Awaited, Due, SpotPublishes;
  }

  lemma SpotRow(db: Db, date: int, after: Db, x: string)
    requires Inv(db) && x in db.spots && ShowsLast(db, after.spots, Due(db, date))
    ensures SpotPublishes(db, after, date, x)
  {
    DueInOrder(db, date);
    hide Inv, Awaits, Due;
    var ids := Due(db, date);
    forall i: nat | ShownAfter(db, date, x, i)
      ensures after.spots[x].status == SpotPublished && after.spots[x].current == Some(db.slots[i].versionId)
    {
      assert i in ids;
      var k :| 0 <= k < |ids| && ids[k] == i;
      forall l | k < l < |ids| ensures SpotOf(db, ids[l]) != Some(x) {
        LastOfItsSpot(db, date, x, i, k, l);
      }
      assert LastIsShown(db, after.spots, ids, k, x);
    }
    if SpotIsListed(db, ids, x) {
      var k :| 0 <= k < |ids| && SpotOf(db, ids[k]) == Some(x);
      assert ids[k] in ids;
    }
  }

  // ------------------------------------------------- attempts in whole runs

  /** The command takes a version out of service and makes the attempts on it invalid. */
  predicate Revokes(c: Command, v: string) {
    (c.DoQuarantine? && c.v == v) || (c.DoReplace? && c.prev == v && c.invalidate)
  }

  /** The version that a revoked attempt names. */
  function NamedBy(c: Command): Option<string> { if c.DoReplace? then Some(c.next) else None }

  /**
   * Whatever the command, a stored attempt stays; it changes only if the command takes its version
   * out of service and it was valid, and then it is invalid.
   */
  lemma AttemptsAfter(db: Db, c: Command, a: string)
    requires a in db.attempts
    ensures a in After(db, c).attempts
    ensures var row, after := db.attempts[a], After(db, c).attempts[a];
      if Apply(db, c).Ok? && Revokes(c, row.versionId) && row.valid
      then after == AttemptRow(row.versionId, false, NamedBy(c))
      else after == row
  {
    if Apply(db, c).Ok? {
      match c
      case DoReplace(prev, next, invalidate) => ReplaceAttempts(db, prev, next, invalidate);
      case DoQuarantine(v, blankReason) => QuarantineRows(db, v);
      case DoPublish(date) => PublishKeepsAttempts(db, Due(db, date));
      case _ =>
    }
  }

  lemma {:induction false} PublishKeepsAttempts(db: Db, ids: seq<nat>)
    requires forall k :: 0 <= k < |ids| ==> ids[k] < |db.slots|
    ensures PublishAll(db, ids).Ok? ==> PublishAll(db, ids).value.attempts == db.attempts
    decreases |ids|
  {
    if PublishAll(db, ids).Ok? && ids != [] {
      PublishKeepsAttempts(db, ids[..|ids| - 1]);
    }
  }

  /** Out of service: superseded, no place on the calendar, and no valid attempt. */
  ghost predicate OutOfService(db: Db, v: string) {
    && v in db.versions && db.versions[v].status == Superseded
    && (forall i :: 0 <= i < |db.slots| && db.slots[i].versionId == v ==> db.slots[i].status == SlotCancelled)
    && (forall a :: a in db.attempts && db.attempts[a].versionId == v ==> !db.attempts[a].valid)
  }

  lemma RevokedIsOut(db: Db, c: Command, v: string)
    requires Inv(db) && Revokes(c, v) && Apply(db, c).Ok?
    ensures OutOfService(After(db, c), v)
  {
    if c.DoQuarantine? {
      QuarantineRows(db, v);
    } else {
      ReplaceRows(db, v, c.next, true);
      ReseatedIsOff(db, Replace(db, v, c.next, true).value.slots, v, c.next);
      hide Replace, Inv;
    }
  }

  lemma ReseatedIsOff(db: Db, after: seq<Slot>, prev: string, next: string)
    requires Inv(db) && Reseated(db.slots, after, prev, next) && prev != next
    ensures forall i :: 0 <= i < |after| && after[i].versionId == prev ==> after[i].status == SlotCancelled
  {
    var i: nat :| LatestSlot(db.slots, prev, i) && after == db.slots[i := db.slots[i].(status := SlotCancelled)]
      + [Slot(db.slots[i].date, db.slots[i].order, next, SlotScheduled)];
    forall j | 0 <= j < |db.slots| && j != i && db.slots[j].versionId == prev
      ensures db.slots[j].status == SlotCancelled
    {
      assert Apart(db, i, j);
    }
  }

  lemma ReplaceStaysOut(db: Db, prev: string, next: string, invalidate: bool, v: string)
    requires OutOfService(db, v) && Replace(db, prev, next, invalidate).Ok?
    ensures OutOfService(Replace(db, prev, next, invalidate).value, v)
  {
    ReplaceRows(db, prev, next, invalidate);
    assert v != prev && v != next;
    hide Replace;
  }

  lemma QuarantineStaysOut(db: Db, u: string, v: string)
    requires OutOfService(db, v) && Quarantine(db, u, false).Ok?
    ensures OutOfService(Quarantine(db, u, false).value, v)
  {
    QuarantineRows(db, u);
    hide Quarantine;
  }

  lemma PublishStaysOut(db: Db, date: int, v: string)
    requires Inv(db) && OutOfService(db, v) && Publish(db, date).Ok?
    ensures OutOfService(Publish(db, date).value, v)
  {
    PublishRows(db, date);
    hide Publish, Inv;
    var after := Publish(db, date).value;
    assert v !in Awaited(db, date);
    assert VersionPublishes(db, after, date, v);
    forall i | 0 <= i < |after.slots| && after.slots[i].versionId == v ensures after.slots[i].status == SlotCancelled {
      assert SlotPublishes(db, after, date, i);
    }
  }

  lemma StaysOut(db: Db, c: Command, v: string)
    requires Inv(db) && OutOfService(db, v)
    ensures OutOfService(After(db, c), v)
  {
    if Apply(db, c).Ok? {
      match c
      case DoReplace(prev, next, invalidate) => ReplaceStaysOut(db, prev, next, invalidate, v);
      case DoQuarantine(u, blankReason) => QuarantineStaysOut(db, u, v);
      case DoPublish(date) => PublishStaysOut(db, date, v);
      case _ =>
    }
  }

  /**
   * After a quarantine, or a replacement with invalidation, the old version is out of service for
   * good: whatever follows, it is superseded, takes no place, and no attempt on it is valid.
   */
  lemma {:induction false} RevokedForGood(commands: seq<Command>, c: Command, more: seq<Command>, v: string)
    requires Revokes(c, v) && Apply(Run(commands), c).Ok?
    ensures OutOfService(Run(commands + [c] + more), v)
    decreases |more|
  {
    var all := commands + [c] + more;
    if more == [] {
      assert all == commands + [c];
      RunStep(commands, c);
      RunsKeepInv(commands);
      RevokedIsOut(Run(commands), c, v);
    } else {
      var last := |more| - 1;
      var rest := commands + [c] + more[..last];
      assert all == rest + [more[last]];
      RevokedForGood(commands, c, more[..last], v);
      RunStep(rest, more[last]);
      RunsKeepInv(rest);
      StaysOut(Run(rest), more[last], v);
    }
  }

  /** An attempt is on a version that was served, and is invalid only if that version is superseded. */
  predicate AttemptOk(db: Db, a: string)
    requires a in db.attempts
  {
    var row := db.attempts[a];
    && row.versionId in db.versions
    && (db.versions[row.versionId].status == Published || db.versions[row.versionId].status == Superseded)
    && (row.valid ==> row.replacement.None?)
    && (!row.valid ==> db.versions[row.versionId].status == Superseded)
  }

  /** A version that is served stays so or is superseded, and a superseded one stays superseded. */
  lemma ServedStays(db: Db, c: Command, v: string)
    requires v in db.versions && (db.versions[v].status == Published || db.versions[v].status == Superseded)
    ensures v in After(db, c).versions
    ensures var status := After(db, c).versions[v].status;
      (status == Published || status == Superseded) && (db.versions[v].status == Superseded ==> status == Superseded)
  {
    if Apply(db, c).Ok? {
      match c
      case DoReplace(prev, next, invalidate) => ReplaceVersions(db, prev, next, invalidate);
      case DoQuarantine(u, blankReason) => QuarantineClimbs(db, u, blankReason);
      case DoPublish(date) => UnscheduledSurvivesPublishing(db, Due(db, date), v);
      case _ =>
    }
    hide Replace, Quarantine, Publish, Climbs;
  }

  lemma RevokedVersion(db: Db, c: Command, v: string)
    requires Apply(db, c).Ok? && Revokes(c, v)
    ensures v in After(db, c).versions && After(db, c).versions[v].status == Superseded
  {
    if c.DoReplace? {
      ReplaceVersions(db, c.prev, c.next, c.invalidate);
    } else {
      QuarantineRows(db, v);
    }
  }

  lemma AttemptStaysOk(db: Db, c: Command, a: string)
    requires a in db.attempts && AttemptOk(db, a)
    ensures a in After(db, c).attempts && AttemptOk(After(db, c), a)
  {
    AttemptsAfter(db, c, a);
    var v := db.attempts[a].versionId;
    ServedStays(db, c, v);
    if Apply(db, c).Ok? && Revokes(c, v) { RevokedVersion(db, c, v); }
    hide After, Apply;
  }

  lemma NewAttempts(db: Db, c: Command, a: string)
    requires a in After(db, c).attempts && a !in db.attempts
    ensures AttemptOk(After(db, c), a)
    ensures c == DoSubmit(a, After(db, c).attempts[a].versionId) && After(db, c).attempts[a].valid
  {
    match c
    case DoReplace(prev, next, invalidate) =>
      if Apply(db, c).Ok? { ReplaceAttempts(db, prev, next, invalidate); }
    case DoQuarantine(v, blankReason) =>
      if Apply(db, c).Ok? { QuarantineRows(db, v); }
    case DoPublish(date) => PublishKeepsAttempts(db, Due(db, date));
    case _ =>
  }

  /** In every run, attempts are on versions that were served, and valid as long as these still are. */
  lemma {:induction false} AttemptsAreOnServedVersions(commands: seq<Command>)
    ensures forall a :: a in Run(commands).attempts ==> AttemptOk(Run(commands), a)
  {
    if commands != [] {
      var last := |commands| - 1;
      var db, c := Run(commands[..last]), commands[last];
      AttemptsAreOnServedVersions(commands[..last]);
      forall a | a in After(db, c).attempts ensures AttemptOk(After(db, c), a) {
        if a in db.attempts { AttemptStaysOk(db, c, a); } else { NewAttempts(db, c, a); }
      }
    }
  }
}
